/**
 * Keyword selection and bag-of-words vectorisation (the part of
 * `onPostBootstrap` between `tfidf.listTerms` and `getRelatedPosts`).
 *
 * `all_keywords` is a JavaScript `Set` and `bow_vectors` a `Map`: both
 * iterate in first-insertion order, so both are modelled as sequences
 * without duplicates. A per-document `Map<string, number>` is only ever
 * read with `get`, so it is a Dafny `map`.
 */
module Vectors {
  import opened Wrappers
  import Sorting

  /** One entry of `tfidf.listTerms(i)`, with the fields the core reads. */
  datatype Term = Term(term: string, tf: real, idf: real, tfidf: real)

  type Vector = seq<real>

  /** A document id with its bag-of-words vector (`VectorWithId`, one entry of `bow_vectors`). */
  datatype VectorWithId = VectorWithId(id: string, vector: Vector)

  /** No string occurs twice. */
  ghost predicate NoDuplicates(s: seq<string>) {
    forall a, b :: 0 <= a < b < |s| ==> s[a] != s[b]
  }

  // ---------------------------------------------------------------------
  // Ranking a document's terms

  /** `{ ...x, tfidf: x.tf * x.idf }` (exact real arithmetic). */
  function Reweigh(t: Term): Term {
    t.(tfidf := t.tf * t.idf)
  }

  function Reweighted(terms: seq<Term>): seq<Term> {
    seq(|terms|, i requires 0 <= i < |terms| => Reweigh(terms[i]))
  }

  function TfidfOf(t: Term): real {
    t.tfidf
  }

  /**
   * One document's `listTerms(i).map(...).sort((x, y) => y.tfidf - x.tfidf)`:
   * the listed terms, reweighted, in non-increasing `tfidf` order.
   */
  function RankTerms(terms: seq<Term>): (ranked: seq<Term>)
    ensures multiset(ranked) == multiset(Reweighted(terms))
    ensures |ranked| == |terms|
    ensures forall i :: 0 <= i < |ranked| ==> Weighted(ranked[i])
    ensures Sorting.SortedDesc(ranked, TfidfOf)
  {
    var r := Sorting.SortDesc(Reweighted(terms), TfidfOf);
    ReweightedProducts(r, terms);
    r
  }

  /** The term's weight is the product of its frequency and inverse document frequency. */
  ghost predicate Weighted(t: Term) {
    t.tfidf == t.tf * t.idf
  }

  /** A permutation of the reweighted terms has their length and carries the products as weights. */
  lemma ReweightedProducts(r: seq<Term>, terms: seq<Term>)
    requires multiset(r) == multiset(Reweighted(terms))
    ensures |r| == |terms|
    ensures forall i :: 0 <= i < |r| ==> Weighted(r[i])
  {
    Sorting.PermutationKeepsElements(r, Reweighted(terms));
    forall i | 0 <= i < |r| ensures Weighted(r[i]) {
      assert r[i] in Reweighted(terms);
      var k :| 0 <= k < |terms| && Reweighted(terms)[k] == r[i];
      assert r[i] == Reweigh(terms[k]);
    }
  }

  /** Every listed term is in the ranking, with its weight recomputed. */
  lemma RankTermsKeepsTerms(terms: seq<Term>, t: Term)
    requires t in terms
    ensures Reweigh(t) in RankTerms(terms)
    ensures RankTerms(terms)[0].tfidf >= Reweigh(t).tfidf
  {
    var k :| 0 <= k < |terms| && terms[k] == t;
    assert Reweighted(terms)[k] == Reweigh(t);
    Sorting.PermutationKeepsElements(RankTerms(terms), Reweighted(terms));
  }

  // ---------------------------------------------------------------------
  // Keyword selection

  /** The end index `Array.prototype.slice(0, end)` uses on an array of length `len`. */
  function SliceEnd(len: nat, end: int): nat {
    if end < 0 then (if len + end > 0 then len + end else 0)
    else if end < len then end
    else len
  }

  /** `x.slice(0, option.each_bow_size)`: a document's selected terms. */
  function TopTerms(terms: seq<Term>, eachBowSize: int): (top: seq<Term>)
    ensures |top| <= |terms| && top == terms[..|top|]
    ensures eachBowSize >= 0 ==> |top| == if eachBowSize < |terms| then eachBowSize else |terms|
    ensures eachBowSize < 0 ==> |top| == if |terms| + eachBowSize > 0 then |terms| + eachBowSize else 0
  {
    terms[..SliceEnd(|terms|, eachBowSize)]
  }

  function Names(ts: seq<Term>): seq<string> {
    seq(|ts|, j requires 0 <= j < |ts| => ts[j].term)
  }

  /** `Set.prototype.add` on an insertion-ordered set. */
  function AddKeyword(s: seq<string>, w: string): seq<string> {
    if w in s then s else s + [w]
  }

  /** Adding the strings `ws` one after the other. */
  function AddAll(s: seq<string>, ws: seq<string>): seq<string>
    decreases |ws|
  {
    if ws == [] then s else AddKeyword(AddAll(s, ws[..|ws| - 1]), ws[|ws| - 1])
  }

  /**
   * `all_keywords` once documents `docTerms` have been visited: no keyword
   * twice.
   */
  function KeywordsOf(docTerms: seq<seq<Term>>, eachBowSize: int): (r: seq<string>)
    ensures NoDuplicates(r)
    decreases |docTerms|
  {
    if docTerms == [] then []
    else
      var before := KeywordsOf(docTerms[..|docTerms| - 1], eachBowSize);
      var names := Names(TopTerms(docTerms[|docTerms| - 1], eachBowSize));
      AddAllDistinct(before, names);
      AddAll(before, names)
  }

  /** A map after `set(t.term, t.tfidf)` for every `t` of `ts`, in order, from empty. */
  function TermMap(ts: seq<Term>): (m: map<string, real>)
    ensures |m| <= |ts|
    ensures ts != [] ==> ts[|ts| - 1].term in m && m[ts[|ts| - 1].term] == ts[|ts| - 1].tfidf
    decreases |ts|
  {
    if ts == [] then map[] else TermMap(ts[..|ts| - 1])[ts[|ts| - 1].term := ts[|ts| - 1].tfidf]
  }

  /**
   * An add keeps the members in their places and appends at most the new
   * word, which is then a member; a set without duplicates stays so.
   */
  lemma AddKeywordAdds(s: seq<string>, w: string)
    ensures var r := AddKeyword(s, w);
      && w in r && s <= r && |r| <= |s| + 1
      && (NoDuplicates(s) ==> NoDuplicates(r))
  {
  }

  /** The fold of adds only appends. */
  lemma {:induction false} AddAllExtends(s: seq<string>, ws: seq<string>)
    ensures s <= AddAll(s, ws)
    decreases |ws|
  {
    if ws != [] {
      AddAllExtends(s, ws[..|ws| - 1]);
    }
  }

  /** The fold of adds contains exactly what it started from and what was added. */
  lemma {:induction false} AddAllMembers(s: seq<string>, ws: seq<string>, w: string)
    ensures w in AddAll(s, ws) <==> w in s || w in ws
    decreases |ws|
  {
    if ws != [] {
      AddAllMembers(s, ws[..|ws| - 1], w);
      assert ws == ws[..|ws| - 1] + [ws[|ws| - 1]];
    }
  }

  /** Adding to a set never makes a duplicate. */
  lemma {:induction false} AddAllDistinct(s: seq<string>, ws: seq<string>)
    requires NoDuplicates(s)
    ensures NoDuplicates(AddAll(s, ws))
    decreases |ws|
  {
    if ws != [] {
      AddAllDistinct(s, ws[..|ws| - 1]);
    }
  }

  /**
   * Later documents only append to the keywords of the earlier ones, so the
   * iteration order of `all_keywords` is the order of first selection.
   */
  lemma {:induction false} KeywordsGrow(docTerms: seq<seq<Term>>, eachBowSize: int, k: nat)
    requires k <= |docTerms|
    ensures KeywordsOf(docTerms[..k], eachBowSize) <= KeywordsOf(docTerms, eachBowSize)
    decreases |docTerms|
  {
    if k < |docTerms| {
      var n := |docTerms| - 1;
      assert docTerms[..n][..k] == docTerms[..k];
      KeywordsGrow(docTerms[..n], eachBowSize, k);
      AddAllExtends(KeywordsOf(docTerms[..n], eachBowSize), Names(TopTerms(docTerms[n], eachBowSize)));
    } else {
      assert docTerms[..k] == docTerms;
    }
  }

  /** A document's selected term names. */
  ghost predicate SelectedBy(docTerms: seq<seq<Term>>, eachBowSize: int, i: int, w: string) {
    0 <= i < |docTerms| && w in Names(TopTerms(docTerms[i], eachBowSize))
  }

  /**
   * The keyword set is exactly the union over all documents of the names of
   * their first `each_bow_size` ranked terms, each keyword once.
   */
  lemma {:induction false} KeywordsExact(docTerms: seq<seq<Term>>, eachBowSize: int, w: string)
    ensures w in KeywordsOf(docTerms, eachBowSize) <==> exists i :: SelectedBy(docTerms, eachBowSize, i, w)
    ensures NoDuplicates(KeywordsOf(docTerms, eachBowSize))
    decreases |docTerms|
  {
    if docTerms != [] {
      var n := |docTerms| - 1;
      var init := docTerms[..n];
      KeywordsExact(init, eachBowSize, w);
      AddAllMembers(KeywordsOf(init, eachBowSize), Names(TopTerms(docTerms[n], eachBowSize)), w);
      assert forall i :: 0 <= i < n ==> init[i] == docTerms[i];
      if w in KeywordsOf(docTerms, eachBowSize) {
        if w in KeywordsOf(init, eachBowSize) {
          var i :| SelectedBy(init, eachBowSize, i, w);
          assert SelectedBy(docTerms, eachBowSize, i, w);
        } else {
          assert SelectedBy(docTerms, eachBowSize, n, w);
        }
      }
      if exists i :: SelectedBy(docTerms, eachBowSize, i, w) {
        var i :| SelectedBy(docTerms, eachBowSize, i, w);
        if i < n {
          assert SelectedBy(init, eachBowSize, i, w);
        }
      }
    }
  }

  /** The map's keys are exactly the names set into it. */
  lemma {:induction false} TermMapKeys(ts: seq<Term>, w: string)
    ensures w in TermMap(ts) <==> w in Names(ts)
    ensures |TermMap(ts)| <= |ts|
    decreases |ts|
  {
    if ts != [] {
      var init := ts[..|ts| - 1];
      TermMapKeys(init, w);
      assert Names(ts) == Names(init) + [ts[|ts| - 1].term];
    }
  }

  /** With distinct term names, the map holds each term's own weight. */
  lemma {:induction false} TermMapValue(ts: seq<Term>, j: nat)
    requires j < |ts|
    requires NoDuplicates(Names(ts))
    ensures ts[j].term in TermMap(ts) && TermMap(ts)[ts[j].term] == ts[j].tfidf
    decreases |ts|
  {
    var n := |ts| - 1;
    if j < n {
      var init := ts[..n];
      assert Names(init) == Names(ts)[..n];
      assert Names(ts)[j] != Names(ts)[n];
      TermMapValue(init, j);
    }
  }

  /** Each per-document map holds at most `each_bow_size` entries. */
  lemma TopMapSize(terms: seq<Term>, eachBowSize: int)
    requires eachBowSize >= 0
    ensures |TermMap(TopTerms(terms, eachBowSize))| <= eachBowSize
  {
    TermMapKeys(TopTerms(terms, eachBowSize), "");
  }

  /**
   * Lines 205-213: visits every document's ranked terms and, for the first
   * `each_bow_size` of them, adds the name to `all_keywords` and sets the
   * weight into that document's map.
   */
  method SelectKeywords(docTerms: seq<seq<Term>>, eachBowSize: int)
    returns (keywords: seq<string>, tfidfMaps: seq<map<string, real>>)
    ensures keywords == KeywordsOf(docTerms, eachBowSize)
    ensures NoDuplicates(keywords)
    ensures |tfidfMaps| == |docTerms|
    ensures forall i :: 0 <= i < |docTerms| ==> tfidfMaps[i] == TermMap(TopTerms(docTerms[i], eachBowSize))
  {
    keywords := [];
    tfidfMaps := [];
    var i := 0;
    while i < |docTerms|
      invariant 0 <= i <= |docTerms|
      invariant keywords == KeywordsOf(docTerms[..i], eachBowSize)
      invariant |tfidfMaps| == i
      invariant forall m :: 0 <= m < i ==> tfidfMaps[m] == TermMap(TopTerms(docTerms[m], eachBowSize))
    {
      var docMap;
      KeywordsStep(docTerms, eachBowSize, i);
      keywords, docMap := AddTerms(keywords, TopTerms(docTerms[i], eachBowSize));
      tfidfMaps := tfidfMaps + [docMap];
      i := i + 1;
    }
    TakeAll(docTerms);
  }

  lemma TakeAll<T>(s: seq<T>)
    ensures s[..|s|] == s
  {
  }

  /** The keywords after one more document are its top names added to the earlier ones. */
  lemma KeywordsStep(docTerms: seq<seq<Term>>, eachBowSize: int, i: nat)
    requires i < |docTerms|
    ensures KeywordsOf(docTerms[..i + 1], eachBowSize) ==
      AddAll(KeywordsOf(docTerms[..i], eachBowSize), Names(TopTerms(docTerms[i], eachBowSize)))
  {
    assert docTerms[..i + 1][..i] == docTerms[..i];
  }

  /** Lines 207-212 for one document: adds its terms to the keywords and builds its map. */
  method AddTerms(keywords: seq<string>, top: seq<Term>)
    returns (keywords': seq<string>, docMap: map<string, real>)
    ensures keywords' == AddAll(keywords, Names(top))
    ensures docMap == TermMap(top)
  {
    keywords' := keywords;
    docMap := map[];
    var j := 0;
    while j < |top|
      invariant 0 <= j <= |top|
      invariant keywords' == AddAll(keywords, Names(top[..j]))
      invariant docMap == TermMap(top[..j])
    {
      assert Names(top[..j + 1]) == Names(top[..j]) + [top[j].term];
      assert top[..j + 1][..j] == top[..j];
      keywords' := AddKeyword(keywords', top[j].term);
      docMap := docMap[top[j].term := top[j].tfidf];
      j := j + 1;
    }
    assert top[..j] == top;
  }

  // ---------------------------------------------------------------------
  // Vector generation

  /**
   * `Array.from(all_keywords).map((x) => m.get(x)).map((x) => x === undefined ? 0 : x)`.
   */
  function Vectorize(keywords: seq<string>, m: map<string, real>): (v: Vector)
    ensures |v| == |keywords|
    ensures forall j :: 0 <= j < |keywords| && keywords[j] in m ==> v[j] == m[keywords[j]]
    ensures forall j :: 0 <= j < |keywords| && v[j] != 0.0 ==> keywords[j] in m
  {
    seq(|keywords|, j requires 0 <= j < |keywords| => if keywords[j] in m then m[keywords[j]] else 0.0)
  }

  /**
   * A document's vector has one entry per keyword: its own weight where the
   * keyword is among its selected terms, and 0 wherever it is not, even when
   * the keyword is a term the document has below its first `each_bow_size`.
   */
  lemma VectorEntry(keywords: seq<string>, terms: seq<Term>, eachBowSize: int, j: nat)
    requires j < |keywords|
    requires NoDuplicates(Names(terms))
    ensures |Vectorize(keywords, TermMap(TopTerms(terms, eachBowSize)))| == |keywords|
    ensures var top := TopTerms(terms, eachBowSize);
      Vectorize(keywords, TermMap(top))[j] ==
        if keywords[j] in Names(top) then top[Find(Names(top), keywords[j])].tfidf else 0.0
  {
    var top := TopTerms(terms, eachBowSize);
    TermMapKeys(top, keywords[j]);
    if keywords[j] in Names(top) {
      assert Names(top) == Names(terms)[..|top|];
      TermMapValue(top, Find(Names(top), keywords[j]));
    }
  }

  /** The first index of `w` in `s`. */
  function Find(s: seq<string>, w: string): (k: nat)
    requires w in s
    ensures k < |s| && s[k] == w
    ensures forall m :: 0 <= m < k ==> s[m] != w
  {
    if s[0] == w then 0 else 1 + Find(s[1..], w)
  }

  function Ids(bow: seq<VectorWithId>): seq<string> {
    seq(|bow|, m requires 0 <= m < |bow| => bow[m].id)
  }

  ghost predicate DistinctIds(bow: seq<VectorWithId>) {
    forall a, b :: 0 <= a < b < |bow| ==> bow[a].id != bow[b].id
  }

  /** `Map.prototype.get` on `bow_vectors`: the position of `id`. */
  function IndexOfId(bow: seq<VectorWithId>, id: string): (r: Option<nat>)
    ensures r.Some? ==> r.value < |bow| && bow[r.value].id == id
    ensures r.None? <==> forall m :: 0 <= m < |bow| ==> bow[m].id != id
    ensures r.Some? <==> id in Ids(bow)
  {
    assert forall m :: 0 <= m < |bow| ==> Ids(bow)[m] == bow[m].id;
    if bow == [] then None
    else if bow[0].id == id then Some(0)
    else match IndexOfId(bow[1..], id)
      case Some(k) => Some(k + 1)
      case None => None
  }

  /** `Map.prototype.set`: overwrite the entry of `id` in place, or append one. */
  function MapSet(bow: seq<VectorWithId>, id: string, v: Vector): (r: seq<VectorWithId>)
    ensures DistinctIds(bow) ==> DistinctIds(r)
    ensures VectorWithId(id, v) in r
    ensures forall e :: e in r ==> e in bow || e == VectorWithId(id, v)
    ensures forall e :: e in bow && e.id != id ==> e in r
    ensures Ids(r) == AddKeyword(Ids(bow), id)
  {
    match IndexOfId(bow, id)
    case Some(k) =>
      var r := bow[k := VectorWithId(id, v)];
      assert Ids(bow)[k] == id;
      assert Ids(r) == Ids(bow);
      assert r[k] == VectorWithId(id, v);
      forall e | e in bow && e.id != id ensures e in r {
        var m :| 0 <= m < |bow| && bow[m] == e;
        assert r[m] == e;
      }
      r
    case None =>
      assert id !in Ids(bow);
      assert Ids(bow + [VectorWithId(id, v)]) == Ids(bow) + [id];
      bow + [VectorWithId(id, v)]
  }

  /** `bow_vectors` after `set(e.id, e.vector)` for every `e` of `es`, in order, from empty. */
  function BowOf(es: seq<VectorWithId>): (bow: seq<VectorWithId>)
    ensures DistinctIds(bow)
    decreases |es|
  {
    if es == [] then [] else MapSet(BowOf(es[..|es| - 1]), es[|es| - 1].id, es[|es| - 1].vector)
  }

  /** The entry of `es[i]` is not overwritten by a later one. */
  ghost predicate LastOfId(es: seq<VectorWithId>, i: int) {
    0 <= i < |es| && forall i' :: i < i' < |es| ==> es[i'].id != es[i].id
  }

  /** Each id is in the map of vectors once, in order of first insertion. */
  lemma {:induction false} BowOfIds(es: seq<VectorWithId>)
    ensures DistinctIds(BowOf(es))
    ensures Ids(BowOf(es)) == AddAll([], Ids(es))
    decreases |es|
  {
    if es != [] {
      var n := |es| - 1;
      BowOfIds(es[..n]);
      assert Ids(es)[..n] == Ids(es[..n]);
    }
  }

  /** Every entry of the map of vectors is one of the entries that were set. */
  lemma {:induction false} BowOfFromEntries(es: seq<VectorWithId>)
    ensures forall e :: e in BowOf(es) ==> e in es
    decreases |es|
  {
    if es != [] {
      var n := |es| - 1;
      BowOfFromEntries(es[..n]);
      forall e | e in BowOf(es[..n]) ensures e in es {
        assert e in es[..n];
      }
    }
  }

  /** The entry that was set last for an id is the one the map holds. */
  lemma {:induction false} BowOfLastWins(es: seq<VectorWithId>, i: int)
    requires LastOfId(es, i)
    ensures es[i] in BowOf(es)
    decreases |es|
  {
    var n := |es| - 1;
    var init := es[..n];
    if i < n {
      LastOfIdPrefix(es, i);
      BowOfLastWins(init, i);
      SetKeeps(BowOf(init), es[n].id, es[n].vector, es[i]);
    } else {
      SetStores(BowOf(init), es[n].id, es[n].vector);
    }
  }

  lemma LastOfIdPrefix(es: seq<VectorWithId>, i: int)
    requires LastOfId(es, i) && i < |es| - 1
    ensures es[..|es| - 1][i] == es[i] && LastOfId(es[..|es| - 1], i)
  {
    var init := es[..|es| - 1];
    forall i' | i < i' < |init| ensures init[i'].id != init[i].id {
      assert init[i'] == es[i'];
    }
  }

  lemma SetKeeps(bow: seq<VectorWithId>, id: string, v: Vector, e: VectorWithId)
    requires e in bow && e.id != id
    ensures e in MapSet(bow, id, v)
  {
  }

  lemma SetStores(bow: seq<VectorWithId>, id: string, v: Vector)
    ensures VectorWithId(id, v) in MapSet(bow, id, v)
  {
  }

  /** With distinct ids (Gatsby node ids are), the map is the documents' vectors in order. */
  lemma {:induction false} BowOfDistinct(es: seq<VectorWithId>)
    requires DistinctIds(es)
    ensures BowOf(es) == es
    decreases |es|
  {
    if es != [] {
      var n := |es| - 1;
      var init, last := es[..n], es[n];
      calc {
        BowOf(es);
      == { BowOfStep(es); }
        MapSet(BowOf(init), last.id, last.vector);
      == { DistinctPrefix(es, n); BowOfDistinct(init); }
        MapSet(init, last.id, last.vector);
      == { LastIdFresh(es); SetAppends(init, last.id, last.vector); }
        init + [last];
      == { assert es == init + [last]; }
        es;
      }
    }
  }

  lemma BowOfStep(es: seq<VectorWithId>)
    requires es != []
    ensures BowOf(es) == MapSet(BowOf(es[..|es| - 1]), es[|es| - 1].id, es[|es| - 1].vector)
  {
  }

  lemma DistinctPrefix(es: seq<VectorWithId>, n: nat)
    requires DistinctIds(es) && n <= |es|
    ensures DistinctIds(es[..n])
  {
    forall a, b | 0 <= a < b < n ensures es[..n][a].id != es[..n][b].id {
      assert es[..n][a] == es[a] && es[..n][b] == es[b];
    }
  }

  lemma LastIdFresh(es: seq<VectorWithId>)
    requires DistinctIds(es) && es != []
    ensures es[|es| - 1].id !in Ids(es[..|es| - 1])
  {
    var n := |es| - 1;
    forall m | 0 <= m < n ensures Ids(es[..n])[m] != es[n].id {
      assert Ids(es[..n])[m] == es[m].id;
    }
  }

  lemma SetAppends(bow: seq<VectorWithId>, id: string, v: Vector)
    requires id !in Ids(bow)
    ensures MapSet(bow, id, v) == bow + [VectorWithId(id, v)]
  {
  }

  /** The pairs `(ids[i], vector of document i)` that line 218 sets. */
  function DocEntries(ids: seq<string>, keywords: seq<string>, tfidfMaps: seq<map<string, real>>): seq<VectorWithId>
    requires |tfidfMaps| == |ids|
  {
    seq(|ids|, i requires 0 <= i < |ids| => VectorWithId(ids[i], Vectorize(keywords, tfidfMaps[i])))
  }

  /**
   * Lines 215-224: sets each document's vector into `bow_vectors` under its
   * id. Every vector has exactly one entry per keyword.
   */
  method BuildVectors(ids: seq<string>, keywords: seq<string>, tfidfMaps: seq<map<string, real>>)
    returns (bowVectors: seq<VectorWithId>)
    requires |tfidfMaps| == |ids|
    ensures bowVectors == BowOf(DocEntries(ids, keywords, tfidfMaps))
    ensures DistinctIds(bowVectors)
    ensures forall m :: 0 <= m < |bowVectors| ==> |bowVectors[m].vector| == |keywords|
  {
    ghost var es := DocEntries(ids, keywords, tfidfMaps);
    bowVectors := [];
    var i := 0;
    while i < |ids|
      invariant 0 <= i <= |ids|
      invariant bowVectors == BowOf(es[..i])
    {
      assert es[..i + 1][..i] == es[..i];
      bowVectors := MapSet(bowVectors, ids[i], Vectorize(keywords, tfidfMaps[i]));
      i := i + 1;
    }
    assert es[..i] == es;
    VectorLengths(ids, keywords, tfidfMaps);
  }

  /** Every vector of the map has one entry per keyword. */
  lemma VectorLengths(ids: seq<string>, keywords: seq<string>, tfidfMaps: seq<map<string, real>>)
    requires |tfidfMaps| == |ids|
    ensures var bow := BowOf(DocEntries(ids, keywords, tfidfMaps));
      forall m :: 0 <= m < |bow| ==> |bow[m].vector| == |keywords|
  {
    var es := DocEntries(ids, keywords, tfidfMaps);
    var bow := BowOf(es);
    BowOfFromEntries(es);
    forall m | 0 <= m < |bow| ensures |bow[m].vector| == |keywords| {
      assert bow[m] in es;
    }
  }
}
