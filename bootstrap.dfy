// `onPostBootstrap`: index every post, rank each post's terms, select the
// keywords, build the bag-of-words vectors and rank every post's neighbours.
// The TF-IDF table of the `natural` library is the parameter `listTerms`:
// the term list it gives for document `i` of the indexed corpus.

module Bootstrap {
  import opened Wrappers
  import opened Vectors
  import Sorting
  import opened Similarity
  import Indexing

  /** A node of the target type: its id and the markdown `getMarkdown` gives for it. */
  datatype Post = Post(id: string, markdown: string)

  /** What the ranking part computes: the keyword set, the vectors and each post's related ids. */
  datatype Ranking = Ranking(keywords: seq<string>, bowVectors: seq<VectorWithId>, related: seq<seq<string>>)

  /** The indexed corpus handed to TF-IDF, and the ranking built from it. */
  datatype Outcome = Outcome(corpus: seq<seq<string>>, ranking: Ranking)

  function PostIds(posts: seq<Post>): (ids: seq<string>)
    ensures |ids| == |posts| && forall i :: 0 <= i < |posts| ==> ids[i] == posts[i].id
  {
    seq(|posts|, i requires 0 <= i < |posts| => posts[i].id)
  }

  function Texts(posts: seq<Post>): (texts: seq<string>)
    ensures |texts| == |posts| && forall i :: 0 <= i < |posts| ==> texts[i] == posts[i].markdown
  {
    seq(|posts|, i requires 0 <= i < |posts| => posts[i].markdown)
  }

  /**
   * Lines 193-197: every document's listed terms, reweighted, as a
   * permutation in non-increasing `tfidf` order.
   */
  function DocTerms(corpus: seq<seq<string>>, listTerms: (seq<seq<string>>, nat) -> seq<Term>): (dts: seq<seq<Term>>)
    ensures |dts| == |corpus|
    ensures forall i :: 0 <= i < |corpus| ==> dts[i] == RankTerms(listTerms(corpus, i))
    ensures forall i :: 0 <= i < |corpus| ==>
      && multiset(dts[i]) == multiset(Reweighted(listTerms(corpus, i)))
      && Sorting.SortedDesc(dts[i], TfidfOf)
  {
    seq(|corpus|, i requires 0 <= i < |corpus| => RankTerms(listTerms(corpus, i)))
  }

  /** The per-document maps of lines 207-212: each document's top terms only. */
  function TopMaps(docTerms: seq<seq<Term>>, eachBowSize: int): (ms: seq<map<string, real>>)
    ensures |ms| == |docTerms|
    ensures forall i :: 0 <= i < |docTerms| ==> ms[i] == TermMap(TopTerms(docTerms[i], eachBowSize))
  {
    seq(|docTerms|, i requires 0 <= i < |docTerms| => TermMap(TopTerms(docTerms[i], eachBowSize)))
  }

  /**
   * `out` is the ranking of posts `ids` with sorted term lists `docTerms`:
   * the keyword set of their top terms, one vector per distinct id built
   * from the document last set under it, and for every post the other
   * entries of its ranking by similarity.
   */
  ghost predicate RankedAs(ids: seq<string>, docTerms: seq<seq<Term>>, eachBowSize: int,
                           cosine: (Vector, Vector) -> real, out: Ranking)
    requires |docTerms| == |ids|
  {
    && out.keywords == KeywordsOf(docTerms, eachBowSize)
    && out.bowVectors == BowOf(DocEntries(ids, out.keywords, TopMaps(docTerms, eachBowSize)))
    && |out.related| == |ids|
    && forall i :: 0 <= i < |ids| ==> RelatedList(out.related[i], ids[i], out.bowVectors, cosine)
  }

  /**
   * Lines 205-233 for sorted term lists: the keywords, the vectors (one
   * entry per keyword each) and every post's related ids. With distinct
   * post ids every post has a vector and gets n - 1 ids of the map, in
   * similarity order; which id the `.slice(1)` dropped is not stated.
   */
  method RankPosts(ids: seq<string>, docTerms: seq<seq<Term>>, eachBowSize: int, cosine: (Vector, Vector) -> real)
    returns (out: Ranking)
    requires |docTerms| == |ids|
    requires Symmetric(cosine)
    requires forall i :: 0 <= i < |ids| ==> ' ' !in ids[i]
    ensures RankedAs(ids, docTerms, eachBowSize, cosine, out)
    ensures NoDuplicates(out.keywords) && DistinctIds(out.bowVectors)
    ensures forall m :: 0 <= m < |out.bowVectors| ==> |out.bowVectors[m].vector| == |out.keywords|
    ensures NoDuplicates(ids) ==> Ids(out.bowVectors) == ids
    ensures NoDuplicates(ids) ==> forall i :: 0 <= i < |ids| ==> |out.related[i]| == |ids| - 1
  {
    var keywords, tfidfMaps := SelectKeywords(docTerms, eachBowSize);
    assert tfidfMaps == TopMaps(docTerms, eachBowSize);
    var bowVectors := BuildVectors(ids, keywords, tfidfMaps);
    ghost var es := DocEntries(ids, keywords, tfidfMaps);
    BowOfFromEntries(es);
    assert SpaceFreeIds(bowVectors) by {
      forall m | 0 <= m < |bowVectors| ensures ' ' !in bowVectors[m].id {
        assert bowVectors[m] in es;
      }
    }
    assert SameLengths(bowVectors);
    var run := new RelatedPostsRun(cosine);
    var related := run.RelateAll(ids, bowVectors);
    out := Ranking(keywords, bowVectors, related.value);
    if NoDuplicates(ids) {
      DistinctEntries(ids, keywords, tfidfMaps);
      BowOfDistinct(es);
      forall i | 0 <= i < |ids| ensures |out.related[i]| == |ids| - 1 {
        assert ids[i] == Ids(bowVectors)[i];
      }
    }
  }

  /** Entries built from distinct ids have distinct ids, the same ones. */
  lemma DistinctEntries(ids: seq<string>, keywords: seq<string>, tfidfMaps: seq<map<string, real>>)
    requires |tfidfMaps| == |ids| && NoDuplicates(ids)
    ensures DistinctIds(DocEntries(ids, keywords, tfidfMaps))
    ensures Ids(DocEntries(ids, keywords, tfidfMaps)) == ids
  {
    var es := DocEntries(ids, keywords, tfidfMaps);
    assert forall i :: 0 <= i < |es| ==> es[i].id == ids[i];
  }

  /**
   * `onPostBootstrap` without the Gatsby calls: fails exactly when the
   * language has no strategy and some post misses the cache; otherwise the
   * corpus is what the cache loop makes of the posts' markdown and the
   * ranking is built from the term lists TF-IDF gives for that corpus.
   */
  method PostBootstrap(posts: seq<Post>, lang: string, digest: string -> string,
                       cache: map<string, seq<string>>, ja: string -> seq<string>,
                       listTerms: (seq<seq<string>>, nat) -> seq<Term>, eachBowSize: int,
                       cosine: (Vector, Vector) -> real)
    returns (r: Result<Outcome, Indexing.IndexError>, cache': map<string, seq<string>>)
    requires Symmetric(cosine)
    requires forall i :: 0 <= i < |posts| ==> ' ' !in posts[i].id
    ensures r.Err? <==> (Indexing.StrategyFor(lang).None? &&
                         exists i :: 0 <= i < |posts| && Indexing.CacheKey(digest, posts[i].markdown) !in cache)
    ensures r.Err? ==> cache' == cache
    ensures r.Ok? ==> Indexing.IndexedAs(Texts(posts), t => Indexing.CacheKey(digest, t), cache,
                                         Indexing.StrategyFor(lang), ja, r.value.corpus, cache')
    ensures r.Ok? ==> RankedAs(PostIds(posts), DocTerms(r.value.corpus, listTerms), eachBowSize, cosine, r.value.ranking)
  {
    var texts := Texts(posts);
    var key := t => Indexing.CacheKey(digest, t);
    var indexed;
    indexed, cache' := Indexing.SpaceSeparatedDocs(texts, lang, key, cache, ja);
    if indexed.Err? {
      return Err(indexed.error), cache';
    }
    var corpus := indexed.value;
    var ids := PostIds(posts);
    var docTerms := DocTerms(corpus, listTerms);
    var ranking := RankPosts(ids, docTerms, eachBowSize, cosine);
    r := Ok(Outcome(corpus, ranking));
  }
}
