/**
 * Similarity scoring and ranking: `calcVectorSimilarity`,
 * `getMemorizedVectorSimilarity` with its memo, `getRelatedPosts`, and the
 * loop of `onPostBootstrap` that ranks every node and drops the head of
 * each ranking. `compute-cosine-similarity` is a foreign function and is a
 * parameter here: any total function of two vectors.
 */
module Similarity {
  import opened Wrappers
  import opened Vectors
  import Sorting

  /** The `Error` thrown by `calcVectorSimilarity`. */
  datatype SimilarityError = DimensionMismatch

  /** JavaScript's `<` on strings: lexicographic order of the characters. */
  predicate LexLess(a: string, b: string)
    decreases |a|
  {
    if |a| == 0 then |b| > 0
    else if |b| == 0 then false
    else if a[0] != b[0] then a[0] < b[0]
    else LexLess(a[1..], b[1..])
  }

  /** A proper prefix comes first, and no string precedes itself. */
  lemma {:induction false} LexLessPrefix(a: string, b: string)
    ensures |a| < |b| && a == b[..|a|] ==> LexLess(a, b)
    ensures !LexLess(a, a)
    decreases |a|
  {
    if |a| > 0 && |b| > 0 {
      assert |a| < |b| && a == b[..|a|] ==> a[1..] == b[1..][..|a| - 1];
      LexLessPrefix(a[1..], b[1..]);
    }
    if |a| > 0 {
      LexLessPrefix(a[1..], a[1..]);
    }
  }

  /** `<` on strings never holds both ways. */
  lemma {:induction false} LexLessAsymmetric(a: string, b: string)
    ensures !(LexLess(a, b) && LexLess(b, a))
    decreases |a|
  {
    if |a| > 0 && |b| > 0 && a[0] == b[0] {
      LexLessAsymmetric(a[1..], b[1..]);
    }
  }

  /** Two different strings are ordered one way or the other. */
  lemma {:induction false} LexLessTotal(a: string, b: string)
    ensures a == b || LexLess(a, b) || LexLess(b, a)
    decreases |a|
  {
    if |a| > 0 && |b| > 0 && a[0] == b[0] {
      LexLessTotal(a[1..], b[1..]);
      assert a == [a[0]] + a[1..] && b == [b[0]] + b[1..];
    }
  }

  /** Line 49: the memo key of a pair of ids, the smaller id first. */
  function MemoKey(a: string, b: string): (key: string)
    ensures key == a + " " + b || key == b + " " + a
  {
    if LexLess(a, b) then a + " " + b else b + " " + a
  }

  /** Both orders of a pair share one memo key. */
  lemma MemoKeySymmetric(a: string, b: string)
    ensures MemoKey(a, b) == MemoKey(b, a)
  {
    LexLessAsymmetric(a, b);
    LexLessTotal(a, b);
  }

  /** A string joined from two space-free strings by one space splits back uniquely. */
  lemma SpaceJoinUnique(x: string, y: string, x': string, y': string)
    requires ' ' !in x && ' ' !in x'
    requires x + " " + y == x' + " " + y'
    ensures x == x' && y == y'
  {
    var key := x + " " + y;
    assert key[..|x|] == x && key[|x|] == ' ';
    assert key[..|x'|] == x' && key[|x'|] == ' ';
    assert |x| == |x'|;
    assert x == key[..|x|] == x';
    assert y == key[|x| + 1..] == y';
  }

  /** With space-free ids, two pairs share a memo key only when they are the same pair. */
  lemma MemoKeyInjective(a: string, b: string, c: string, d: string)
    requires ' ' !in a && ' ' !in b && ' ' !in c && ' ' !in d
    requires MemoKey(a, b) == MemoKey(c, d)
    ensures (a == c && b == d) || (a == d && b == c)
  {
    var k := MemoKey(a, b);
    if k == a + " " + b && k == c + " " + d {
      SpaceJoinUnique(a, b, c, d);
    } else if k == a + " " + b {
      SpaceJoinUnique(a, b, d, c);
    } else if k == c + " " + d {
      SpaceJoinUnique(b, a, c, d);
    } else {
      SpaceJoinUnique(b, a, d, c);
    }
  }

  /** Lines 34-39: throws when the lengths differ, otherwise takes the cosine. */
  function CalcVectorSimilarity(cosine: (Vector, Vector) -> real, v1: Vector, v2: Vector)
    : (r: Result<real, SimilarityError>)
    ensures r.Err? <==> |v1| != |v2|
    ensures r.Ok? ==> r.value == cosine(v1, v2)
  {
    if |v1| != |v2| then Err(DimensionMismatch) else Ok(cosine(v1, v2))
  }

  /** The similarity function gives the same score for both argument orders. */
  ghost predicate Symmetric(cosine: (Vector, Vector) -> real) {
    forall u, v :: cosine(u, v) == cosine(v, u)
  }

  ghost predicate SpaceFreeIds(bow: seq<VectorWithId>) {
    forall m :: 0 <= m < |bow| ==> ' ' !in bow[m].id
  }

  /**
   * The memo is consistent with one run's vectors: an entry under the key of
   * two of its documents was computed from their vectors, which have equal
   * length.
   */
  ghost predicate MemoAgrees(memo: map<string, real>, cosine: (Vector, Vector) -> real, bow: seq<VectorWithId>) {
    forall i, j :: 0 <= i < |bow| && 0 <= j < |bow| && MemoKey(bow[i].id, bow[j].id) in memo ==>
      |bow[i].vector| == |bow[j].vector| &&
      memo[MemoKey(bow[i].id, bow[j].id)] == cosine(bow[i].vector, bow[j].vector)
  }

  /** Storing a freshly computed score keeps the memo consistent. */
  lemma MemoInsertAgrees(memo: map<string, real>, cosine: (Vector, Vector) -> real, bow: seq<VectorWithId>, a: nat, b: nat)
    requires MemoAgrees(memo, cosine, bow)
    requires DistinctIds(bow) && SpaceFreeIds(bow) && Symmetric(cosine)
    requires a < |bow| && b < |bow| && |bow[a].vector| == |bow[b].vector|
    ensures MemoAgrees(memo[MemoKey(bow[a].id, bow[b].id) := cosine(bow[a].vector, bow[b].vector)], cosine, bow)
  {
    var key := MemoKey(bow[a].id, bow[b].id);
    var memo' := memo[key := cosine(bow[a].vector, bow[b].vector)];
    forall i, j | 0 <= i < |bow| && 0 <= j < |bow| && MemoKey(bow[i].id, bow[j].id) in memo'
      ensures |bow[i].vector| == |bow[j].vector|
      ensures memo'[MemoKey(bow[i].id, bow[j].id)] == cosine(bow[i].vector, bow[j].vector)
    {
      if MemoKey(bow[i].id, bow[j].id) == key {
        MemoKeyInjective(bow[i].id, bow[j].id, bow[a].id, bow[b].id);
        assert (i == a && j == b) || (i == b && j == a);
      }
    }
  }

  /** The vector stored under `id`, or the empty vector. */
  function VectorOf(bow: seq<VectorWithId>, id: string): Vector {
    match IndexOfId(bow, id)
    case Some(k) => bow[k].vector
    case None => []
  }

  /** `ranked` is ordered non-increasingly by similarity to `target`. */
  ghost predicate SortedBySimilarity(ranked: seq<string>, bow: seq<VectorWithId>, target: Vector,
                                     cosine: (Vector, Vector) -> real) {
    forall i, j :: 0 <= i < j < |ranked| ==>
      cosine(VectorOf(bow, ranked[i]), target) >= cosine(VectorOf(bow, ranked[j]), target)
  }

  /** In a map with distinct ids, each entry's vector is found under its id. */
  lemma VectorOfEntry(bow: seq<VectorWithId>, m: nat)
    requires DistinctIds(bow) && m < |bow|
    ensures VectorOf(bow, bow[m].id) == bow[m].vector
  {
    var k := IndexOfId(bow, bow[m].id).value;
    assert k == m;
  }

  /** Lines 230-232: what is left of a ranking after `.slice(1)`. */
  function DropFirst(ranked: seq<string>): (r: seq<string>)
    ensures |r| == if ranked == [] then 0 else |ranked| - 1
    ensures ranked != [] ==> ranked == [ranked[0]] + r
  {
    if ranked == [] then [] else ranked[1..]
  }

  /**
   * What the caller keeps for node `id`: nothing when `id` has no vector,
   * otherwise all other places of its ranking, in order.
   */
  ghost predicate RelatedList(others: seq<string>, id: string, bow: seq<VectorWithId>, cosine: (Vector, Vector) -> real) {
    && (id !in Ids(bow) ==> others == [])
    && (id in Ids(bow) ==>
          && |others| == |bow| - 1
          && multiset(others) <= multiset(Ids(bow))
          && SortedBySimilarity(others, bow, VectorOf(bow, id), cosine))
  }

  ghost predicate SameLengths(bow: seq<VectorWithId>) {
    forall a, b :: 0 <= a < |bow| && 0 <= b < |bow| ==> |bow[a].vector| == |bow[b].vector|
  }

  /**
   * One ranking run: the similarity function and the memo of scores
   * (`vector_similarity_memo`), owned by the run instead of the module.
   */
  class RelatedPostsRun {
    const cosine: (Vector, Vector) -> real
    var memo: map<string, real>

    constructor (cosine: (Vector, Vector) -> real)
      ensures this.cosine == cosine && memo == map[]
    {
      this.cosine := cosine;
      memo := map[];
    }

    /**
     * Lines 45-58: the score of the memo entry for the pair if there is one;
     * otherwise the score is computed (or the length error thrown) and, on
     * success, stored under the pair's key and nothing else.
     */
    method MemorizedSimilarity(v1: VectorWithId, v2: VectorWithId) returns (r: Result<real, SimilarityError>)
      modifies this
      ensures var key := MemoKey(v1.id, v2.id);
        if key in old(memo) then r == Ok(old(memo)[key]) && memo == old(memo)
        else r == CalcVectorSimilarity(cosine, v1.vector, v2.vector) &&
             memo == if r.Ok? then old(memo)[key := r.value] else old(memo)
    {
      var key := MemoKey(v1.id, v2.id);
      if key in memo {
        return Ok(memo[key]);
      }
      r := CalcVectorSimilarity(cosine, v1.vector, v2.vector);
      if r.Ok? {
        memo := memo[key := r.value];
      }
    }

    /** Asking for a pair in the other order gives back the identical score. */
    method ReversedPairAgrees(v1: VectorWithId, v2: VectorWithId) returns (first: Result<real, SimilarityError>, second: Result<real, SimilarityError>)
      modifies this
      ensures first == second
      ensures first.Ok? ==> MemoKey(v1.id, v2.id) in memo && memo[MemoKey(v1.id, v2.id)] == first.value
    {
      first := MemorizedSimilarity(v1, v2);
      MemoKeySymmetric(v1.id, v2.id);
      second := MemorizedSimilarity(v2, v1);
    }

    /**
     * Lines 60-89: every id of the map, ordered by non-increasing similarity
     * of its vector to the vector of `id`; `[]` when `id` is not in the map.
     * The comparator reads and fills the memo, so the error of a dimension
     * mismatch surfaces here as well.
     */
    method RelatedPosts(id: string, bowVectors: seq<VectorWithId>) returns (r: Result<seq<string>, SimilarityError>)
      requires DistinctIds(bowVectors) && SpaceFreeIds(bowVectors) && Symmetric(cosine)
      requires MemoAgrees(memo, cosine, bowVectors)
      modifies this
      ensures MemoAgrees(memo, cosine, bowVectors)
      ensures forall key :: key in old(memo) ==> key in memo && memo[key] == old(memo)[key]
      ensures IndexOfId(bowVectors, id).None? ==> r == Ok([]) && memo == old(memo)
      ensures IndexOfId(bowVectors, id).Some? ==>
        var target := bowVectors[IndexOfId(bowVectors, id).value].vector;
        && (r.Err? <==> exists m :: 0 <= m < |bowVectors| && |bowVectors[m].vector| != |target|)
        && (r.Ok? ==> multiset(r.value) == multiset(Ids(bowVectors)))
        && (r.Ok? ==> SortedBySimilarity(r.value, bowVectors, target, cosine))
    {
      var index := IndexOfId(bowVectors, id);
      if index.None? {
        return Ok([]);
      }
      var k := index.value;
      var node := bowVectors[k];
      if |bowVectors| == 1 {
        // A one-element sort never calls its comparator.
        assert Ids(bowVectors) == [id];
        return Ok([id]);
      }
      var err := ScoreAgainst(k, bowVectors);
      if err.Some? {
        return Err(err.value);
      }
      var scores := memo;
      var key := (x: string) => if MemoKey(x, id) in scores then scores[MemoKey(x, id)] else 0.0;
      var sorted := Sorting.SortDesc(Ids(bowVectors), key);
      RankedByScores(sorted, bowVectors, k, scores, cosine, key);
      r := Ok(sorted);
    }

    /**
     * The comparator's calls of lines 72-85 for node `k`: the score of every
     * node against it is looked up or computed and stored. Stops at the
     * first node whose vector length differs from that of node `k`.
     */
    method ScoreAgainst(k: nat, bowVectors: seq<VectorWithId>) returns (err: Option<SimilarityError>)
      requires k < |bowVectors|
      requires DistinctIds(bowVectors) && SpaceFreeIds(bowVectors) && Symmetric(cosine)
      requires MemoAgrees(memo, cosine, bowVectors)
      modifies this
      ensures MemoAgrees(memo, cosine, bowVectors)
      ensures forall key :: key in old(memo) ==> key in memo && memo[key] == old(memo)[key]
      ensures err.Some? ==> exists m :: 0 <= m < |bowVectors| && |bowVectors[m].vector| != |bowVectors[k].vector|
      ensures err.None? ==> forall p :: 0 <= p < |bowVectors| ==>
        MemoKey(bowVectors[p].id, bowVectors[k].id) in memo && |bowVectors[p].vector| == |bowVectors[k].vector|
    {
      var node := bowVectors[k];
      var i := 0;
      while i < |bowVectors|
        invariant 0 <= i <= |bowVectors|
        invariant MemoAgrees(memo, cosine, bowVectors)
        invariant forall key :: key in old(memo) ==> key in memo && memo[key] == old(memo)[key]
        invariant forall p :: 0 <= p < i ==> MemoKey(bowVectors[p].id, node.id) in memo
        invariant forall p :: 0 <= p < i ==> |bowVectors[p].vector| == |node.vector|
      {
        ghost var before := memo;
        var s := MemorizedSimilarity(bowVectors[i], node);
        if s.Err? {
          return Some(s.error);
        }
        if MemoKey(bowVectors[i].id, node.id) !in before {
          MemoInsertAgrees(before, cosine, bowVectors, i, k);
        }
        i := i + 1;
      }
      return None;
    }

    /**
     * Lines 230-233: ranks every node and drops the head of its ranking.
     * With vectors of one length no ranking throws.
     */
    method RelateAll(ids: seq<string>, bowVectors: seq<VectorWithId>) returns (r: Result<seq<seq<string>>, SimilarityError>)
      requires DistinctIds(bowVectors) && SpaceFreeIds(bowVectors) && Symmetric(cosine)
      requires MemoAgrees(memo, cosine, bowVectors)
      modifies this
      ensures MemoAgrees(memo, cosine, bowVectors)
      ensures SameLengths(bowVectors) ==> r.Ok?
      ensures r.Ok? ==> |r.value| == |ids|
      ensures r.Ok? ==> forall i :: 0 <= i < |ids| ==> RelatedList(r.value[i], ids[i], bowVectors, cosine)
    {
      var related: seq<seq<string>> := [];
      var i := 0;
      while i < |ids|
        invariant 0 <= i <= |ids|
        invariant MemoAgrees(memo, cosine, bowVectors)
        invariant |related| == i
        invariant forall p :: 0 <= p < i ==> RelatedList(related[p], ids[p], bowVectors, cosine)
      {
        var ranked := RelatedPosts(ids[i], bowVectors);
        if ranked.Err? {
          MismatchBreaksSameLengths(bowVectors, IndexOfId(bowVectors, ids[i]).value);
          return Err(ranked.error);
        }
        var others := DropFirst(ranked.value);
        RelatedFromRanking(ranked.value, ids[i], bowVectors, cosine);
        related := related + [others];
        i := i + 1;
      }
      r := Ok(related);
    }
  }

  /** The lookup order of the comparator's memo reads is the similarity order. */
  lemma RankedByScores(sorted: seq<string>, bow: seq<VectorWithId>, k: nat, scores: map<string, real>,
                        cosine: (Vector, Vector) -> real, key: string -> real)
    requires DistinctIds(bow) && k < |bow|
    requires MemoAgrees(scores, cosine, bow)
    requires forall p :: 0 <= p < |bow| ==> MemoKey(bow[p].id, bow[k].id) in scores
    requires forall x :: key(x) == if MemoKey(x, bow[k].id) in scores then scores[MemoKey(x, bow[k].id)] else 0.0
    requires multiset(sorted) == multiset(Ids(bow))
    requires Sorting.SortedDesc(sorted, key)
    ensures SortedBySimilarity(sorted, bow, bow[k].vector, cosine)
  {
    Sorting.PermutationKeepsElements(sorted, Ids(bow));
    forall i | 0 <= i < |sorted| ensures key(sorted[i]) == cosine(VectorOf(bow, sorted[i]), bow[k].vector) {
      assert sorted[i] in Ids(bow);
      var p :| 0 <= p < |bow| && Ids(bow)[p] == sorted[i];
      VectorOfEntry(bow, p);
    }
  }

  /** A vector whose length differs from that of entry `k` means the lengths are not all equal. */
  lemma MismatchBreaksSameLengths(bow: seq<VectorWithId>, k: nat)
    requires k < |bow|
    requires exists m :: 0 <= m < |bow| && |bow[m].vector| != |bow[k].vector|
    ensures !SameLengths(bow)
  {
  }

  /** What `getRelatedPosts` promises for `id` gives its related list once the head is dropped. */
  lemma RelatedFromRanking(ranked: seq<string>, id: string, bow: seq<VectorWithId>, cosine: (Vector, Vector) -> real)
    requires IndexOfId(bow, id).None? ==> ranked == []
    requires IndexOfId(bow, id).Some? ==>
      var target := bow[IndexOfId(bow, id).value].vector;
      && multiset(ranked) == multiset(Ids(bow))
      && SortedBySimilarity(ranked, bow, target, cosine)
    ensures RelatedList(DropFirst(ranked), id, bow, cosine)
  {
    assert id in Ids(bow) <==> IndexOfId(bow, id).Some?;
    assert IndexOfId(bow, id).Some? ==> VectorOf(bow, id) == bow[IndexOfId(bow, id).value].vector;
    RestOfRanking(ranked, DropFirst(ranked), id, bow, cosine);
  }

  /** Dropping the head of a ranking keeps the rest of it in order. */
  lemma RestOfRanking(ranked: seq<string>, others: seq<string>, id: string, bow: seq<VectorWithId>,
                      cosine: (Vector, Vector) -> real)
    requires others == DropFirst(ranked)
    requires id in Ids(bow) ==> multiset(ranked) == multiset(Ids(bow))
    requires id in Ids(bow) ==> SortedBySimilarity(ranked, bow, VectorOf(bow, id), cosine)
    requires id !in Ids(bow) ==> ranked == []
    ensures RelatedList(others, id, bow, cosine)
  {
    if id in Ids(bow) {
      Sorting.PermutationKeepsElements(ranked, Ids(bow));
      assert ranked == [ranked[0]] + others;
      assert multiset(ranked) == multiset{ranked[0]} + multiset(others);
      forall i, j | 0 <= i < j < |others|
        ensures cosine(VectorOf(bow, others[i]), VectorOf(bow, id)) >= cosine(VectorOf(bow, others[j]), VectorOf(bow, id))
      {
        assert others[i] == ranked[i + 1] && others[j] == ranked[j + 1];
      }
    }
  }
}
