// The document-indexing loop of `onPostBootstrap`: every post's markdown is
// normalised and tokenised by the configured language strategy, unless a
// persistent cache already holds the token sequence under the text's key.
// The cache is an abstract map, the digest behind the key and the `ja`
// analyser are function parameters.

module Indexing {
  import opened Wrappers
  import Normalizer
  import Tokenizer

  /** The two entries of the strategy table. */
  datatype Strategy = En | Ja

  /** Looking up a language the table has no entry for, and calling the result. */
  datatype IndexError = UnsupportedLanguage(lang: string)

  /** The strategy table, indexed by `doc_lang`. */
  function StrategyFor(lang: string): Option<Strategy> {
    if lang == "en" then Some(En) else if lang == "ja" then Some(Ja) else None
  }

  /** The table has exactly the entries `en` and `ja`. */
  lemma StrategyTable(lang: string)
    ensures StrategyFor(lang) == Some(En) <==> lang == "en"
    ensures StrategyFor(lang) == Some(Ja) <==> lang == "ja"
    ensures StrategyFor(lang).None? <==> lang != "en" && lang != "ja"
  {
  }

  const KeyPrefix: string := "related-posts-ssd-"

  /** The cache key of a text: a fixed prefix and the hex digest of the text. */
  function CacheKey(digest: string -> string, text: string): (k: string)
    ensures |k| >= |KeyPrefix| && k[..|KeyPrefix|] == KeyPrefix
  {
    var k := KeyPrefix + digest(text);
    assert k[..|KeyPrefix|] == KeyPrefix;
    k
  }

  /** Two texts share a cache key exactly when they share a digest. */
  lemma CacheKeyInjective(digest: string -> string, a: string, b: string)
    ensures CacheKey(digest, a) == CacheKey(digest, b) <==> digest(a) == digest(b)
  {
    if CacheKey(digest, a) == CacheKey(digest, b) {
      assert CacheKey(digest, a)[|KeyPrefix|..] == digest(a);
      assert CacheKey(digest, b)[|KeyPrefix|..] == digest(b);
    }
  }

  /** The token sequence one strategy makes of an already normalised text. */
  function SpaceSeparatedDoc(strategy: Strategy, text: string, ja: string -> seq<string>): (tokens: seq<string>)
    ensures strategy == En ==> Tokenizer.Join(tokens, ' ') == Tokenizer.ToLower(text)
    ensures strategy == En ==> forall i :: 0 <= i < |tokens| ==> ' ' !in tokens[i]
    ensures strategy == En ==> |tokens| == Tokenizer.Count(text, ' ') + 1
    ensures strategy == Ja ==> tokens == ja(text)
  {
    match strategy
    case En => Tokenizer.EnTokens(text)
    case Ja => ja(text)
  }

  /** What a cache miss computes for a post's markdown. */
  function Fresh(strategy: Strategy, markdown: string, ja: string -> seq<string>): (tokens: seq<string>)
    ensures var text := Normalizer.GetTextFromMarkdown(markdown);
      && (strategy == En ==> Tokenizer.Join(tokens, ' ') == Tokenizer.ToLower(text))
      && (strategy == En ==> forall i :: 0 <= i < |tokens| ==> ' ' !in tokens[i])
      && (strategy == En ==> |tokens| == Tokenizer.Count(text, ' ') + 1)
      && (strategy == Ja ==> tokens == ja(text))
  {
    SpaceSeparatedDoc(strategy, Normalizer.GetTextFromMarkdown(markdown), ja)
  }

  /** The set of keys of a corpus. */
  function KeysOf(texts: seq<string>, key: string -> string): (ks: set<string>)
    ensures forall i :: 0 <= i < |texts| ==> key(texts[i]) in ks
    ensures forall k :: k in ks ==> exists i :: 0 <= i < |texts| && key(texts[i]) == k
  {
    set i | 0 <= i < |texts| :: key(texts[i])
  }

  /** A text whose key is in the cache gets the cached tokens. */
  ghost predicate HitsCached(texts: seq<string>, key: string -> string, cache: map<string, seq<string>>,
                             docs: seq<seq<string>>)
    requires |docs| == |texts|
  {
    forall i :: 0 <= i < |texts| && key(texts[i]) in cache ==> docs[i] == cache[key(texts[i])]
  }

  /** The first text with a key not in the cache is tokenised afresh. */
  ghost predicate MissesFresh(texts: seq<string>, key: string -> string, cache: map<string, seq<string>>,
                              strategy: Option<Strategy>, ja: string -> seq<string>, docs: seq<seq<string>>)
    requires |docs| == |texts|
  {
    forall i :: 0 <= i < |texts| && key(texts[i]) !in cache && FirstOfKey(texts, key, i) ==>
      strategy.Some? && docs[i] == Fresh(strategy.value, texts[i], ja)
  }

  /** A later text with the same key gets the same tokens. */
  ghost predicate RepeatsAgree(texts: seq<string>, key: string -> string, docs: seq<seq<string>>)
    requires |docs| == |texts|
  {
    forall k, i :: 0 <= k < i < |texts| && key(texts[k]) == key(texts[i]) ==> docs[i] == docs[k]
  }

  /** The cache maps every key of the corpus to the tokens the loop used. */
  ghost predicate Written(texts: seq<string>, key: string -> string, docs: seq<seq<string>>,
                          cache': map<string, seq<string>>)
    requires |docs| == |texts|
  {
    forall i :: 0 <= i < |texts| ==> key(texts[i]) in cache' && cache'[key(texts[i])] == docs[i]
  }

  /** The new cache keeps every old entry. */
  ghost predicate Kept(cache: map<string, seq<string>>, cache': map<string, seq<string>>) {
    forall k :: k in cache ==> k in cache' && cache'[k] == cache[k]
  }

  /**
   * `docs` and `cache'` are what the loop makes of `texts` and `cache`: the
   * clauses above, and the cache gains exactly the corpus's keys.
   */
  ghost predicate IndexedAs(texts: seq<string>, key: string -> string, cache: map<string, seq<string>>,
                            strategy: Option<Strategy>, ja: string -> seq<string>,
                            docs: seq<seq<string>>, cache': map<string, seq<string>>)
  {
    && |docs| == |texts|
    && HitsCached(texts, key, cache, docs)
    && MissesFresh(texts, key, cache, strategy, ja, docs)
    && RepeatsAgree(texts, key, docs)
    && Written(texts, key, docs, cache')
    && Kept(cache, cache')
    && cache'.Keys == cache.Keys + KeysOf(texts, key)
  }

  /** No earlier text of the corpus has the key of text `i`. */
  ghost predicate FirstOfKey(texts: seq<string>, key: string -> string, i: nat)
    requires i < |texts|
  {
    forall k :: 0 <= k < i ==> key(texts[k]) != key(texts[i])
  }

  /**
   * The loop of lines 171-185: the tokens added to the TF-IDF corpus, in
   * order, and the new cache; or the error of calling the missing strategy,
   * which happens exactly when the language is unsupported and some key
   * misses (the loop never writes before it fails).
   */
  method SpaceSeparatedDocs(texts: seq<string>, lang: string, key: string -> string,
                            cache: map<string, seq<string>>, ja: string -> seq<string>)
    returns (r: Result<seq<seq<string>>, IndexError>, cache': map<string, seq<string>>)
    ensures r.Err? <==> StrategyFor(lang).None? && exists i :: 0 <= i < |texts| && key(texts[i]) !in cache
    ensures r.Err? ==> r.error == UnsupportedLanguage(lang) && cache' == cache
    ensures r.Ok? ==> IndexedAs(texts, key, cache, StrategyFor(lang), ja, r.value, cache')
  {
    var docs;
    docs, cache' := IndexWith(texts, StrategyFor(lang), key, cache, ja);
    r := if docs.Some? then Ok(docs.value) else Err(UnsupportedLanguage(lang));
  }

  /** The loop for a strategy the table lookup has already produced, or `None`. */
  method IndexWith(texts: seq<string>, strategy: Option<Strategy>, key: string -> string,
                   cache: map<string, seq<string>>, ja: string -> seq<string>)
    returns (r: Option<seq<seq<string>>>, cache': map<string, seq<string>>)
    ensures r.None? <==> strategy.None? && exists i :: 0 <= i < |texts| && key(texts[i]) !in cache
    ensures r.None? ==> cache' == cache
    ensures r.Some? ==> IndexedAs(texts, key, cache, strategy, ja, r.value, cache')
  {
    var docs: seq<seq<string>> := [];
    var c := cache;
    var i := 0;
    ghost var done: seq<string> := [];
    while i < |texts|
      invariant 0 <= i <= |texts| && done == texts[..i]
      invariant IndexedAs(done, key, cache, strategy, ja, docs, c)
    {
      var ok;
      ok, docs, c := IndexOne(done, texts[i], strategy, key, cache, ja, docs, c);
      if !ok {
        return None, cache;
      }
      SliceNext(texts, i);
      done := done + [texts[i]];
      i := i + 1;
    }
    SliceAll(texts);
    if strategy.None? {
      NothingWrittenWithoutStrategy(texts, key, cache, ja, docs, c);
    }
    r := Some(docs);
    cache' := c;
  }

  lemma SliceNext(s: seq<string>, i: nat)
    requires i < |s|
    ensures s[..i + 1] == s[..i] + [s[i]]
  {
  }

  lemma SliceAll(s: seq<string>)
    ensures s[..|s|] == s
  {
  }

  /** One pass of the loop body: a cache hit, a fresh tokenisation, or the failing call. */
  method IndexOne(ghost done: seq<string>, t: string, strategy: Option<Strategy>, key: string -> string,
                  cache: map<string, seq<string>>, ja: string -> seq<string>,
                  docs: seq<seq<string>>, c: map<string, seq<string>>)
    returns (ok: bool, docs': seq<seq<string>>, c': map<string, seq<string>>)
    requires IndexedAs(done, key, cache, strategy, ja, docs, c)
    ensures ok ==> IndexedAs(done + [t], key, cache, strategy, ja, docs', c')
    ensures !ok ==> strategy.None? && key(t) !in cache && c == cache
  {
    var k := key(t);
    var v: seq<string>;
    if k in c {
      v := c[k];
    } else if strategy.None? {
      NoStrategyKeepsCache(done, key, cache, ja, docs, c);
      return false, docs, c;
    } else {
      v := Fresh(strategy.value, t, ja);
    }
    IndexedStep(done, t, key, cache, strategy, ja, docs, c, v);
    ok, docs', c' := true, docs + [v], c[k := v];
  }

  /** Without a strategy the loop leaves the cache as it found it. */
  lemma NoStrategyKeepsCache(texts: seq<string>, key: string -> string, cache: map<string, seq<string>>,
                             ja: string -> seq<string>, docs: seq<seq<string>>, c: map<string, seq<string>>)
    requires IndexedAs(texts, key, cache, None, ja, docs, c)
    ensures c == cache
  {
    NothingWrittenWithoutStrategy(texts, key, cache, ja, docs, c);
  }

  /** Without a strategy the loop can only have read the cache. */
  lemma NothingWrittenWithoutStrategy(texts: seq<string>, key: string -> string, cache: map<string, seq<string>>,
                                      ja: string -> seq<string>, docs: seq<seq<string>>, c: map<string, seq<string>>)
    requires IndexedAs(texts, key, cache, None, ja, docs, c)
    ensures forall j :: 0 <= j < |texts| ==> key(texts[j]) in cache
    ensures c == cache
  {
    forall j | 0 <= j < |texts| ensures key(texts[j]) in cache {
      var k := FirstIndexOfKey(texts, key, j, 0);
      assert key(texts[k]) == key(texts[j]);
    }
    assert c.Keys == cache.Keys;
  }

  /** One more text keeps the loop's relation. */
  lemma IndexedStep(p: seq<string>, t: string, key: string -> string, cache: map<string, seq<string>>,
                    strategy: Option<Strategy>, ja: string -> seq<string>,
                    docs: seq<seq<string>>, c: map<string, seq<string>>, v: seq<string>)
    requires IndexedAs(p, key, cache, strategy, ja, docs, c)
    requires key(t) in c ==> v == c[key(t)]
    requires key(t) !in c ==> strategy.Some? && v == Fresh(strategy.value, t, ja)
    ensures IndexedAs(p + [t], key, cache, strategy, ja, docs + [v], c[key(t) := v])
  {
    StepKeys(p, t, key);
    StepCached(p, t, key, cache, docs, c, v);
    StepFresh(p, t, key, cache, strategy, ja, docs, c, v);
    StepRepeat(p, t, key, docs, c, v);
    StepWritten(p, t, key, docs, c, v);
    StepKept(key(t), cache, c, v);
  }

  lemma StepKept(k: string, cache: map<string, seq<string>>, c: map<string, seq<string>>, v: seq<string>)
    requires Kept(cache, c)
    requires k in c ==> v == c[k]
    ensures Kept(cache, c[k := v])
  {
  }

  lemma StepKeys(p: seq<string>, t: string, key: string -> string)
    ensures KeysOf(p + [t], key) == KeysOf(p, key) + {key(t)}
  {
    var p' := p + [t];
    forall x | x in KeysOf(p', key) ensures x in KeysOf(p, key) + {key(t)} {
      var j :| 0 <= j < |p'| && key(p'[j]) == x;
      if j < |p| {
        assert p'[j] == p[j];
      }
    }
    forall x | x in KeysOf(p, key) ensures x in KeysOf(p', key) {
      var j :| 0 <= j < |p| && key(p[j]) == x;
      assert p'[j] == p[j];
    }
    assert p'[|p|] == t;
  }

  lemma StepCached(p: seq<string>, t: string, key: string -> string, cache: map<string, seq<string>>,
                   docs: seq<seq<string>>, c: map<string, seq<string>>, v: seq<string>)
    requires |docs| == |p| && HitsCached(p, key, cache, docs) && Kept(cache, c)
    requires key(t) in c ==> v == c[key(t)]
    ensures HitsCached(p + [t], key, cache, docs + [v])
  {
    var p' := p + [t];
    forall i | 0 <= i < |p'| && key(p'[i]) in cache ensures (docs + [v])[i] == cache[key(p'[i])] {
      if i < |p| {
        assert p'[i] == p[i];
      }
    }
  }

  lemma StepFresh(p: seq<string>, t: string, key: string -> string, cache: map<string, seq<string>>,
                  strategy: Option<Strategy>, ja: string -> seq<string>,
                  docs: seq<seq<string>>, c: map<string, seq<string>>, v: seq<string>)
    requires |docs| == |p| && MissesFresh(p, key, cache, strategy, ja, docs)
    requires c.Keys == cache.Keys + KeysOf(p, key)
    requires key(t) !in c ==> strategy.Some? && v == Fresh(strategy.value, t, ja)
    ensures MissesFresh(p + [t], key, cache, strategy, ja, docs + [v])
  {
    var p' := p + [t];
    forall i | 0 <= i < |p'| && key(p'[i]) !in cache && FirstOfKey(p', key, i)
      ensures strategy.Some? && (docs + [v])[i] == Fresh(strategy.value, p'[i], ja)
    {
      if i < |p| {
        FirstOfKeyPrefix(p, t, key, i);
      } else {
        FirstOfKeyLast(p, t, key);
      }
    }
  }

  /** An earlier text is first of its key in the longer corpus only if it is so in the shorter one. */
  lemma FirstOfKeyPrefix(p: seq<string>, t: string, key: string -> string, i: nat)
    requires i < |p|
    ensures (p + [t])[i] == p[i]
    ensures FirstOfKey(p + [t], key, i) ==> FirstOfKey(p, key, i)
  {
    var p' := p + [t];
    if FirstOfKey(p', key, i) {
      forall m | 0 <= m < i ensures key(p[m]) != key(p[i]) {
        assert p[m] == p'[m];
      }
    }
  }

  /** The appended text is first of its key only if no earlier text has that key. */
  lemma FirstOfKeyLast(p: seq<string>, t: string, key: string -> string)
    ensures (p + [t])[|p|] == t
    ensures FirstOfKey(p + [t], key, |p|) ==> key(t) !in KeysOf(p, key)
  {
    var p' := p + [t];
    if FirstOfKey(p', key, |p|) {
      forall m | 0 <= m < |p| ensures key(p[m]) != key(t) {
        assert p'[m] == p[m];
      }
    }
  }

  lemma StepRepeat(p: seq<string>, t: string, key: string -> string,
                   docs: seq<seq<string>>, c: map<string, seq<string>>, v: seq<string>)
    requires |docs| == |p| && RepeatsAgree(p, key, docs) && Written(p, key, docs, c)
    requires key(t) in c ==> v == c[key(t)]
    ensures RepeatsAgree(p + [t], key, docs + [v])
  {
    var p' := p + [t];
    forall m, j | 0 <= m < j < |p'| && key(p'[m]) == key(p'[j]) ensures (docs + [v])[j] == (docs + [v])[m] {
      assert p'[m] == p[m];
      if j < |p| {
        assert p'[j] == p[j];
      }
    }
  }

  lemma StepWritten(p: seq<string>, t: string, key: string -> string,
                    docs: seq<seq<string>>, c: map<string, seq<string>>, v: seq<string>)
    requires |docs| == |p| && Written(p, key, docs, c)
    requires key(t) in c ==> v == c[key(t)]
    ensures Written(p + [t], key, docs + [v], c[key(t) := v])
  {
    var p' := p + [t];
    forall j | 0 <= j < |p'| ensures key(p'[j]) in c[key(t) := v] && c[key(t) := v][key(p'[j])] == (docs + [v])[j] {
      if j < |p| {
        assert p'[j] == p[j];
      }
    }
  }

  /** The index of the first text with the key of text `i`, searched from `from`. */
  function FirstIndexOfKey(texts: seq<string>, key: string -> string, i: nat, from: nat): (k: nat)
    requires i < |texts| && from <= i
    requires forall m :: 0 <= m < from ==> key(texts[m]) != key(texts[i])
    decreases i - from
    ensures from <= k <= i && key(texts[k]) == key(texts[i]) && FirstOfKey(texts, key, k)
  {
    if key(texts[from]) == key(texts[i]) then from else FirstIndexOfKey(texts, key, i, from + 1)
  }

  /** For every text of the corpus, the cache holds what a miss would compute. */
  ghost predicate CacheAgrees(cache: map<string, seq<string>>, texts: seq<string>, key: string -> string,
                              strategy: Strategy, ja: string -> seq<string>)
  {
    forall i :: 0 <= i < |texts| && key(texts[i]) in cache ==> cache[key(texts[i])] == Fresh(strategy, texts[i], ja)
  }

  /** Distinct texts of the corpus have distinct keys. */
  ghost predicate KeysDistinguish(texts: seq<string>, key: string -> string) {
    forall i, j :: 0 <= i < |texts| && 0 <= j < |texts| && key(texts[i]) == key(texts[j]) ==> texts[i] == texts[j]
  }

  /**
   * A consistent cache does not change the token sequences: they are what
   * tokenising every text afresh gives, and the new cache is consistent too.
   */
  lemma ConsistentCacheIsTransparent(texts: seq<string>, key: string -> string, cache: map<string, seq<string>>,
                                     strategy: Strategy, ja: string -> seq<string>,
                                     docs: seq<seq<string>>, cache': map<string, seq<string>>)
    requires KeysDistinguish(texts, key) && CacheAgrees(cache, texts, key, strategy, ja)
    requires IndexedAs(texts, key, cache, Some(strategy), ja, docs, cache')
    ensures forall i :: 0 <= i < |texts| ==> docs[i] == Fresh(strategy, texts[i], ja)
    ensures CacheAgrees(cache', texts, key, strategy, ja)
  {
    forall i | 0 <= i < |texts| ensures docs[i] == Fresh(strategy, texts[i], ja) {
      if key(texts[i]) !in cache {
        var k := FirstIndexOfKey(texts, key, i, 0);
        assert texts[k] == texts[i];
        assert docs[k] == Fresh(strategy, texts[k], ja);
      }
    }
  }
}
