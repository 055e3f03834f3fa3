# Related posts ranking, modelled in Dafny

This project models the ranking engine of the Gatsby plugin
`gatsby-remark-related-posts` (`src/gatsby-node.ts`). At build time the plugin
does the following:

- It turns every post's markdown into plain text with a fixed chain of pattern
  removals (`getTextFromMarkdown`).
- It tokenises the text with a per-language strategy. The `en` strategy lower-cases
  and splits on single spaces. Token sequences are cached under a digest of the markdown.
- It hands the token sequences to a TF-IDF table. Each post's terms are ranked by
  `tf * idf`, and the first `each_bow_size` terms of every post are united into one
  keyword set, in insertion order.
- It gives every post a bag-of-words vector aligned to that set. An entry is the post's
  weight for the keyword if the keyword is among the post's own top terms, and `0`
  otherwise.
- It ranks, for every post, all posts by cosine similarity to it
  (`getRelatedPosts`), memoising each pair's score under an order-independent key.
  The head of the ranking is dropped (`.slice(1)`).

Modules, one per part of the program:

- `Wrappers`: `Option` and `Result`.
- `Sorting`: a sort in descending order of a key, specified as a sorted permutation.
  It stands for `Array.prototype.sort` with a descending comparator.
- `Normalizer` / `NormalizerFacts`: the eight `.replace` steps.
  - Each step is modelled with the JavaScript meaning of its pattern:
    - the lazy `[\s\S]+?` and `.+?`, where `.` does not match a line terminator;
    - the multi-line anchors of `^\|.*\|$`, applied line by line;
    - the greedy `[^ ]+`;
    - the final character class.
  - Every step is proved to only delete characters.
  - Facts about concrete inputs show how the order of the steps matters.
- `Tokenizer`: the `en` strategy, `toLowerCase().split(' ')`.
- `Indexing`: the strategy table and the cache loop over posts, run on an abstract
  cache map.
- `Vectors`: term ranking, keyword selection and vector building.
  - A JavaScript `Set` or `Map` iterates in first-insertion order, so `all_keywords`
    and `bow_vectors` are sequences without duplicates.
- `Similarity`: `calcVectorSimilarity`, the memo key, and class `RelatedPostsRun`.
  - `RelatedPostsRun` owns the memo (`vector_similarity_memo`) and the similarity
    function.
  - Its methods are `getMemorizedVectorSimilarity`, `getRelatedPosts` and the loop that
    ranks every node.
- `Bootstrap`: `onPostBootstrap` without its Gatsby calls, composed from the above.

Foreign code becomes parameters:

- the cosine similarity of `compute-cosine-similarity`, required to be symmetric;
- the `md5` digest behind the cache key;
- the `ja` morphological analyser;
- the term lists `natural`'s `TfIdf.listTerms(i)` gives for the indexed corpus.

Numbers are `real`s.

Where the code and the natural reading of the plugin's documentation differ, the model
follows the code:

- A vector is filled only from the post's top-`each_bow_size` map (lines 207-212). It
  is not filled from the post's full term table, so a keyword contributed by another
  post has weight `0` even when this post has the term lower down the list.
- `"".split(' ')` is `[""]`, so an empty text yields one empty token.
- The normaliser is not idempotent: `h:ttpx` becomes `httpx`, which a second pass
  removes entirely.
- An unsupported `doc_lang` fails only when some post misses the cache. The cache key
  does not include the language.
- `$...$` is removed before `$$...$$` (lines 95-96), so a display-math block `$$x$$`
  leaves a stray `$`.

## Model

| member | source | states |
|---|---|---|
| Sorting.SortDesc | src/gatsby-node.ts:196 | the result is a permutation of the input (same multiset) in non-increasing order of the key |
| Sorting.Insert | src/gatsby-node.ts:196 | inserting into a sorted list keeps it sorted and adds exactly the one element |
| Vectors.RankTerms | src/gatsby-node.ts:193-197 | a document's sorted term list is a permutation of its listed terms with `tfidf = tf * idf`, in non-increasing `tfidf` order |
| Vectors.RankTermsKeepsTerms | src/gatsby-node.ts:193-197 | every listed term occurs, reweighted, in the sorted list, and the head has the largest `tfidf` |
| Vectors.TopTerms | src/gatsby-node.ts:209 | `slice(0, each_bow_size)` is a prefix of length `min(K, n)`, and of length `max(n + K, 0)` when K is negative |
| Vectors.AddKeywordAdds | src/gatsby-node.ts:210 | `Set.add` keeps the members in their places, appends at most the new word, which is then a member, and never makes a duplicate |
| Vectors.AddAllExtends | src/gatsby-node.ts:209-210 | a run of `Set.add` calls only appends |
| Vectors.AddAllMembers | src/gatsby-node.ts:210 | after the `Set.add` calls the set holds exactly the old members and the added words |
| Vectors.AddAllDistinct | src/gatsby-node.ts:210 | the keyword set never holds a word twice |
| Vectors.KeywordsOf | src/gatsby-node.ts:205-213 | the keyword set after the documents visited holds no word twice |
| Vectors.KeywordsGrow | src/gatsby-node.ts:205-213 | later documents only append to the keywords of earlier ones, so the iteration order is the order of first selection |
| Vectors.KeywordsExact | src/gatsby-node.ts:205-213 | a word is a keyword iff it is among the first `each_bow_size` sorted terms of some document; no keyword repeats |
| Vectors.TermMapKeys | src/gatsby-node.ts:207-212 | a per-document map has exactly the names of that document's top terms as keys, and no more entries than top terms |
| Vectors.TermMap | src/gatsby-node.ts:207-212 | a per-document map has no more entries than terms set, and the last term set under a name wins |
| Vectors.TermMapValue | src/gatsby-node.ts:211 | with distinct term names, the map gives each top term its `tfidf` |
| Vectors.TopMapSize | src/gatsby-node.ts:207-212 | a per-document map has at most `each_bow_size` entries |
| Vectors.SelectKeywords | src/gatsby-node.ts:205-213 | the loops build the keyword set of all documents' top terms (no duplicates) and each document's map of its own top terms |
| Vectors.AddTerms | src/gatsby-node.ts:209-212 | one document's inner loop adds its top terms to the keyword set in order and builds the document's map of exactly those terms |
| Vectors.VectorEntry | src/gatsby-node.ts:215-224 | a vector has one entry per keyword; entry j is the document's `tfidf` for keyword j if it is among the document's top terms, else 0 |
| Vectors.Vectorize | src/gatsby-node.ts:219-222 | a vector has one entry per keyword; it is the map's weight for each keyword the map holds, and non-zero only for such keywords |
| Vectors.IndexOfId | src/gatsby-node.ts:64 | `bow_vectors.get(id)` finds an entry with that id exactly when the id is in the map |
| Vectors.MapSet | src/gatsby-node.ts:218 | `Map.set` keeps ids distinct, stores the new pair, keeps every other entry, and appends a new id at the end of the iteration order |
| Vectors.BowOf | src/gatsby-node.ts:215-224 | the ids of the vector map after the `set` calls are distinct |
| Vectors.BowOfIds | src/gatsby-node.ts:215-224 | the vector map's ids are distinct and in first-insertion order of the post ids |
| Vectors.BowOfFromEntries | src/gatsby-node.ts:215-224 | every entry of the vector map is a pair some `set` stored |
| Vectors.BowOfLastWins | src/gatsby-node.ts:215-224 | the pair of the last `set` for an id is the one the map holds |
| Vectors.BowOfDistinct | src/gatsby-node.ts:215-224 | with distinct post ids the map is exactly the pairs in post order |
| Vectors.BuildVectors | src/gatsby-node.ts:215-224 | the loop builds that map of `set`s; ids are distinct and every vector has length equal to the keyword count |
| Vectors.VectorLengths | src/gatsby-node.ts:219-222 | every vector of the map has one entry per keyword |
| Similarity.LexLessAsymmetric | src/gatsby-node.ts:49 | string `<` never holds both ways |
| Similarity.LexLessTotal | src/gatsby-node.ts:49 | of two different strings one is `<` the other |
| Similarity.LexLessPrefix | src/gatsby-node.ts:49 | a proper prefix is `<` the longer string, and no string is `<` itself |
| Similarity.MemoKey | src/gatsby-node.ts:49 | the key is the two ids joined by a space, in one of the two orders |
| Similarity.MemoKeySymmetric | src/gatsby-node.ts:49 | (a, b) and (b, a) give the same key |
| Similarity.MemoKeyInjective | src/gatsby-node.ts:49 | for space-free ids, equal keys come from the same unordered pair |
| Similarity.CalcVectorSimilarity | src/gatsby-node.ts:34-39 | fails exactly when the lengths differ; otherwise it is the similarity function's value |
| Similarity.MemoInsertAgrees | src/gatsby-node.ts:54-55 | storing a computed score keeps every memo entry equal to the similarity of the pair it is keyed by |
| Similarity.RelatedPostsRun.MemorizedSimilarity | src/gatsby-node.ts:45-58 | a hit returns the stored score and leaves the memo alone; a miss computes, and on success adds exactly that key with that score |
| Similarity.RelatedPostsRun.ScoreAgainst | src/gatsby-node.ts:72-85 | after scoring every node against the target, each pair is in the memo and every vector has the target's length; it stops with an error only if some length differs; the memo only grows and stays consistent |
| Similarity.RelatedPostsRun.ReversedPairAgrees | src/gatsby-node.ts:49-57 | asking for (b, a) after (a, b) returns the identical result, which is then in the memo |
| Similarity.RelatedPostsRun.RelatedPosts | src/gatsby-node.ts:60-89 | `[]` with the memo unchanged for an absent id; otherwise it fails iff some vector's length differs from the target's, and else it is a permutation of all ids in non-increasing similarity to the target; the memo only grows and stays consistent |
| Similarity.RankedByScores | src/gatsby-node.ts:72-88 | sorting by the comparator's memo reads orders the ids by similarity to the target |
| Similarity.DropFirst | src/gatsby-node.ts:232 | `.slice(1)` drops exactly the head, leaving one fewer id (none of an empty list) |
| Similarity.RestOfRanking | src/gatsby-node.ts:231-232 | what is left after `.slice(1)` has n - 1 ids taken from the map, still in similarity order, or is `[]` for an absent id |
| Similarity.RelatedFromRanking | src/gatsby-node.ts:230-232 | what `getRelatedPosts` returns for an id gives, once its head is dropped, that id's related list |
| Similarity.RelatedPostsRun.RelateAll | src/gatsby-node.ts:230-233 | with vectors of one length no ranking fails; every node gets its related list as above |
| Normalizer.SubseqTrans | src/gatsby-node.ts:91-100 | deleting from a deletion is a deletion, so a chain of deleting steps deletes |
| Normalizer.FindClose | src/gatsby-node.ts:93-98 | the lazy tail stops at the first occurrence of the closing text, skipping no line terminator when `.` is used; `None` means no occurrence at all (for `[\s\S]`) |
| Normalizer.StripRegions | src/gatsby-node.ts:93-96 | removing the delimited regions only deletes characters |
| Normalizer.StripTableRows | src/gatsby-node.ts:97 | emptying the lines that start and end with a pipe only deletes characters |
| Normalizer.StripUrls | src/gatsby-node.ts:99 | removing `http` runs up to a space only deletes characters |
| Normalizer.StripMarkupChars | src/gatsby-node.ts:100 | the filter only deletes, leaves none of the fifteen filtered characters, and every other character value survives |
| Normalizer.CountMarkup | src/gatsby-node.ts:100 | the number of class characters in a text is at most its length |
| Normalizer.StripMarkupCharsLength | src/gatsby-node.ts:100 | the filter removes one character per class character, so the result is as long as the non-class characters of the text |
| Normalizer.MarkupFreeSubseqBound | src/gatsby-node.ts:100 | a deletion that keeps no class character is no longer than the non-class characters of the text |
| Normalizer.StripMarkupCharsUnique | src/gatsby-node.ts:100 | the filter's result is the only deletion without class characters of that length: it keeps every other occurrence, in order |
| Normalizer.GetTextFromMarkdown | src/gatsby-node.ts:91-100 | the text is a deletion from the markdown, no longer than it, and free of the filtered characters |
| Normalizer.ChainDeletes | src/gatsby-node.ts:91-100 | the eight steps in order delete from the markdown |
| NormalizerFacts.StripRegionsNoOpen | src/gatsby-node.ts:93-96 | a region step changes nothing in a text without its opening character |
| NormalizerFacts.StripTableRowsNoPipe | src/gatsby-node.ts:97 | the table-row step changes nothing in a text without a pipe |
| NormalizerFacts.StripUrlsNoH | src/gatsby-node.ts:99 | the URL step changes nothing in a text without `h` |
| NormalizerFacts.StripMarkupCharsClean | src/gatsby-node.ts:100 | the filter changes nothing in a text free of its characters |
| NormalizerFacts.OnlyLastSteps | src/gatsby-node.ts:93-98 | without backquote, dash, dollar, pipe or `<`, only the last two steps act |
| NormalizerFacts.NotIdempotent | src/gatsby-node.ts:91-100 | `h:ttpx` normalises to `httpx`, which normalises to the empty text |
| NormalizerFacts.ColonRemovedLast | src/gatsby-node.ts:99-100 | a colon inside `http` hides the URL from the URL step and is removed after it |
| NormalizerFacts.UrlRemoved | src/gatsby-node.ts:99 | `httpx` is removed whole |
| NormalizerFacts.DisplayMathLeavesDollar | src/gatsby-node.ts:95-96 | `$$x$$` normalises to `$`: the inline-math step runs first |
| Tokenizer.LowerChar | src/gatsby-node.ts:122 | upper-case ASCII letters map to lower case and nothing else changes |
| Tokenizer.ToLower | src/gatsby-node.ts:122 | `toLowerCase` keeps the length and lower-cases each character |
| Tokenizer.ToLowerIdempotent | src/gatsby-node.ts:122 | lower-casing twice is lower-casing once, and keeps the spaces in place |
| Tokenizer.Split | src/gatsby-node.ts:122 | `split(sep)` gives one more piece than there are separators, none holding the separator |
| Tokenizer.JoinSplit | src/gatsby-node.ts:122 | joining the pieces with the separator gives back the text |
| Tokenizer.SplitJoin | src/gatsby-node.ts:122 | splitting a join of separator-free pieces gives back the pieces |
| Tokenizer.EnTokens | src/gatsby-node.ts:121-123 | tokens have no space, number the spaces plus one, and join with spaces to the lower-cased text |
| Tokenizer.EnTokensOfJoin | src/gatsby-node.ts:121-123 | a join of space-free lower-case tokens tokenises back to those tokens |
| Indexing.CacheKeyInjective | src/gatsby-node.ts:172 | two texts share a cache key exactly when they share a digest |
| Indexing.CacheKey | src/gatsby-node.ts:172 | every key starts with the prefix `related-posts-ssd-` |
| Indexing.StrategyTable | src/gatsby-node.ts:118-136 | the strategy table has exactly the entries `en` and `ja`; any other `doc_lang` has none (looked up at line 180) |
| Indexing.SpaceSeparatedDoc | src/gatsby-node.ts:118-136 | `en` tokens number the spaces plus one, hold no space, and join with spaces to the lower-cased text; `ja` is the analyser's output |
| Indexing.Fresh | src/gatsby-node.ts:180-182 | a miss tokenises the normalised markdown: for `en` the tokens number its spaces plus one, hold no space and join to its lower-cased form; for `ja` they are the analyser's output on it |
| Indexing.IndexWith | src/gatsby-node.ts:171-185 | the loop fails iff there is no strategy and some key misses, and then has written nothing; otherwise hits read the cache, first misses are computed, repeats agree, and the cache gains exactly the corpus's keys |
| Indexing.IndexOne | src/gatsby-node.ts:172-184 | one post either extends the loop's relation by a hit or a fresh tokenisation, or fails only when there is no strategy, its key misses and the cache is untouched |
| Indexing.NothingWrittenWithoutStrategy | src/gatsby-node.ts:174-183 | without a strategy a completed loop only ever hit: every key was already cached and the cache is unchanged |
| Indexing.SpaceSeparatedDocs | src/gatsby-node.ts:171-185 | the same for the language looked up in the strategy table, with the error of calling a missing entry |
| Indexing.IndexedStep | src/gatsby-node.ts:171-185 | one more post keeps the loop's relation between posts, cache and token sequences |
| Indexing.ConsistentCacheIsTransparent | src/gatsby-node.ts:171-185 | a cache that holds what a miss would compute, with keys that tell texts apart, does not change the token sequences and stays consistent |
| Bootstrap.DocTerms | src/gatsby-node.ts:193-197 | every document's term list is its TF-IDF list reweighted, as a permutation in non-increasing `tfidf` order |
| Bootstrap.RankPosts | src/gatsby-node.ts:193-233 | keywords, vectors and related lists are the composition of the steps above; with distinct post ids every post has a vector and gets n - 1 ids of the map in similarity order (which id `.slice(1)` dropped is not stated) |
| Bootstrap.PostBootstrap | src/gatsby-node.ts:154-233 | the run fails exactly when the cache loop fails; otherwise the corpus and the ranking are the ones the loop and `RankPosts` describe |

## Left out

- The `ja` strategy (lines 102-136) is a function parameter of the model. The kuromoji
  analyser, its lazily built singleton and its part-of-speech filter are not part of
  this model.
- The `natural` TF-IDF table (`addDocument`, `listTerms`, the idf formula) is the
  parameter `listTerms`. `Vectors.VectorEntry` requires its term names to be distinct,
  as one document's term list is.
- `compute-cosine-similarity` is the symmetric parameter `cosine`. The model does not
  cover IEEE floating point, NaN, or whether a post ranks itself first: all of these
  depend on float details.
- Sorting is specified as a sorted permutation. The order JavaScript's sort gives to
  ties is not modelled.
- Similarity.RelatedPostsRun.RelatedPosts: when a comparator call throws partway
  through a sort, the model has filled the memo for the pairs before the failing one in
  map order. The engine's sort may have visited other pairs first, so the memo contents
  after a failure are weaker than the source's.
- `vector_similarity_memo` (line 44) is a module-level map that is never cleared. A
  second `onPostBootstrap` in the same process would reuse scores under the same id
  pairs from the earlier run, even if the vectors changed. The model gives each run its
  own memo, which starts empty, and its `MemoAgrees` precondition holds only for that
  reason; scores carried over from an earlier run are not modelled.
- `md5` is the parameter `digest`. The asynchronous `cache.get` and `cache.set` are
  an abstract map threaded through the loop.
- Gatsby calls are not part of this model:
  - `createSchemaCustomization`, `createTypes`, `createNode`, `createNodeId`, `getNode`
    (the `.map(getNode)` at line 233), `reporter`;
  - option merging and `getMarkdown`. A post arrives with its id and markdown.
- `bow_vectors === null` (line 217) is never true and is not modelled.
- Tokenizer.ToLower: lower-cases ASCII letters only, not full Unicode `toLowerCase`.
- String `<` is compared by code point, not by UTF-16 code unit.
- A `doc_lang` that names an inherited property of JavaScript objects, such as
  `toString`, is treated as unsupported.
- Similarity.RelatedPostsRun.RelatedPosts and Bootstrap.PostBootstrap require post
  ids without spaces, so that memo keys of different pairs differ. Gatsby node ids
  contain no spaces.
