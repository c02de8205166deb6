/** Top-K selection of `app.py`: `sims.argsort()[-10:][::-1]`, the indices of
    the (at most) ten highest similarity scores, highest first. Scores are
    abstract totally ordered values; the cosine computation is not modelled. */
module Ranking {

  /** How many corpus entries a query retrieves. */
  const TopK: nat := 10

  function Min(a: nat, b: nat): nat {
    if a <= b then a else b
  }

  predicate ValidIndices(idx: seq<nat>, n: nat) {
    forall a :: 0 <= a < |idx| ==> idx[a] < n
  }

  predicate Distinct(idx: seq<nat>) {
    forall a, b :: 0 <= a < b < |idx| ==> idx[a] != idx[b]
  }

  /** `idx` lists valid indices of `scores` in non-decreasing order of score. */
  predicate Ascending(scores: seq<real>, idx: seq<nat>) {
    && ValidIndices(idx, |scores|)
    && forall a, b :: 0 <= a < b < |idx| ==> scores[idx[a]] <= scores[idx[b]]
  }

  lemma PrependAscending(scores: seq<real>, x: nat, rest: seq<nat>)
    requires x < |scores| && Ascending(scores, rest)
    requires forall j :: j in rest ==> scores[x] <= scores[j]
    ensures Ascending(scores, [x] + rest)
  {
    var r := [x] + rest;
    forall a, b | 0 <= a < b < |r|
      ensures scores[r[a]] <= scores[r[b]]
    {
      assert r[b] == rest[b - 1];
      if a > 0 {
        assert r[a] == rest[a - 1];
      }
    }
  }

  lemma PrependDistinct(x: nat, rest: seq<nat>)
    requires x !in rest && Distinct(rest)
    ensures Distinct([x] + rest)
  {
    var r := [x] + rest;
    forall a, b | 0 <= a < b < |r|
      ensures r[a] != r[b]
    {
      assert r[b] == rest[b - 1];
      if a > 0 {
        assert r[a] == rest[a - 1];
      }
    }
  }

  /** Inserts index `i` into the ascending `sorted`, after every index whose
      score is not greater. */
  function Insert(scores: seq<real>, sorted: seq<nat>, i: nat): seq<nat>
    requires i < |scores| && ValidIndices(sorted, |scores|)
  {
    if sorted == [] || scores[i] < scores[sorted[0]] then [i] + sorted
    else [sorted[0]] + Insert(scores, sorted[1..], i)
  }

  /** Insertion adds exactly `i`. */
  lemma {:induction false} InsertMembers(scores: seq<real>, sorted: seq<nat>, i: nat)
    requires i < |scores| && ValidIndices(sorted, |scores|)
    ensures |Insert(scores, sorted, i)| == |sorted| + 1
    ensures forall j :: j in Insert(scores, sorted, i) <==> j in sorted || j == i
  {
    if sorted != [] && scores[i] >= scores[sorted[0]] {
      assert sorted == [sorted[0]] + sorted[1..];
      InsertMembers(scores, sorted[1..], i);
    }
  }

  /** Insertion keeps the order ascending. */
  lemma {:induction false} InsertAscending(scores: seq<real>, sorted: seq<nat>, i: nat)
    requires i < |scores| && Ascending(scores, sorted)
    ensures Ascending(scores, Insert(scores, sorted, i))
  {
    if sorted == [] || scores[i] < scores[sorted[0]] {
      PrependAscending(scores, i, sorted);
    } else {
      var first, others := sorted[0], sorted[1..];
      assert sorted == [first] + others;
      assert forall j :: j in others ==> scores[first] <= scores[j];
      InsertAscending(scores, others, i);
      InsertMembers(scores, others, i);
      PrependAscending(scores, first, Insert(scores, others, i));
    }
  }

  /** Inserting a new index keeps the indices distinct. */
  lemma {:induction false} InsertDistinct(scores: seq<real>, sorted: seq<nat>, i: nat)
    requires i < |scores| && ValidIndices(sorted, |scores|)
    requires Distinct(sorted) && i !in sorted
    ensures Distinct(Insert(scores, sorted, i))
  {
    if sorted == [] || scores[i] < scores[sorted[0]] {
      PrependDistinct(i, sorted);
    } else {
      var first, others := sorted[0], sorted[1..];
      assert sorted == [first] + others;
      InsertDistinct(scores, others, i);
      InsertMembers(scores, others, i);
      PrependDistinct(first, Insert(scores, others, i));
    }
  }

  /** The indices `0 .. n-1` sorted by ascending score: numpy's `argsort` on
      the first `n` scores. */
  function SortIndices(scores: seq<real>, n: nat): (order: seq<nat>)
    requires n <= |scores|
    ensures ValidIndices(order, n)
  {
    if n == 0 then []
    else
      var before := SortIndices(scores, n - 1);
      assert ValidIndices(before, |scores|);
      InsertMembers(scores, before, n - 1);
      var order := Insert(scores, before, n - 1);
      assert forall a :: 0 <= a < |order| ==> order[a] in order;
      order
  }

  /** `SortIndices(scores, n)` holds each of `0 .. n-1`, and nothing else. */
  lemma {:induction false} SortIndicesMembers(scores: seq<real>, n: nat)
    requires n <= |scores|
    ensures |SortIndices(scores, n)| == n
    ensures forall j :: j in SortIndices(scores, n) <==> 0 <= j < n
  {
    if n > 0 {
      SortIndicesMembers(scores, n - 1);
      var before := SortIndices(scores, n - 1);
      assert ValidIndices(before, |scores|);
      InsertMembers(scores, before, n - 1);
    }
  }

  /** `SortIndices(scores, n)` holds each index once. */
  lemma {:induction false} SortIndicesDistinct(scores: seq<real>, n: nat)
    requires n <= |scores|
    ensures Distinct(SortIndices(scores, n))
  {
    if n > 0 {
      SortIndicesDistinct(scores, n - 1);
      SortIndicesMembers(scores, n - 1);
      var before := SortIndices(scores, n - 1);
      assert ValidIndices(before, |scores|);
      assert n - 1 !in before;
      InsertDistinct(scores, before, n - 1);
    }
  }

  /** `SortIndices(scores, n)` is in ascending order of score. */
  lemma {:induction false} SortIndicesAscending(scores: seq<real>, n: nat)
    requires n <= |scores|
    ensures Ascending(scores, SortIndices(scores, n))
  {
    if n > 0 {
      SortIndicesAscending(scores, n - 1);
      InsertAscending(scores, SortIndices(scores, n - 1), n - 1);
    }
  }

  /** `scores.argsort()`. */
  function ArgSort(scores: seq<real>): seq<nat> {
    SortIndices(scores, |scores|)
  }

  /** `t[::-1]`. */
  function Reversed(t: seq<nat>): (r: seq<nat>)
    ensures |r| == |t|
    ensures forall j :: 0 <= j < |t| ==> r[j] == t[|t| - 1 - j]
  {
    seq(|t|, j requires 0 <= j < |t| => t[|t| - 1 - j])
  }

  /** The last `m` entries of `order`, last first. */
  function Highest(order: seq<nat>, m: nat): (top: seq<nat>)
    requires m <= |order|
    ensures |top| == m
    ensures forall a :: 0 <= a < m ==> top[a] == order[|order| - 1 - a]
  {
    Reversed(order[|order| - m..])
  }

  lemma HighestValid(scores: seq<real>, order: seq<nat>, m: nat)
    requires ValidIndices(order, |scores|) && m <= |order|
    ensures ValidIndices(Highest(order, m), |scores|)
  {
    var top := Highest(order, m);
    forall a | 0 <= a < m
      ensures top[a] < |scores|
    {
      assert top[a] == order[|order| - 1 - a];
    }
  }

  lemma HighestDistinct(order: seq<nat>, m: nat)
    requires Distinct(order) && m <= |order|
    ensures Distinct(Highest(order, m))
  {
    var top := Highest(order, m);
    forall a, b | 0 <= a < b < m
      ensures top[a] != top[b]
    {
      var p, q := |order| - 1 - a, |order| - 1 - b;
      assert q < p;
      assert top[a] == order[p] && top[b] == order[q];
    }
  }

  /** Taken from an ascending order, the highest entries come by
      non-increasing score. */
  lemma HighestDescending(scores: seq<real>, order: seq<nat>, m: nat)
    requires Ascending(scores, order) && m <= |order|
    ensures var top := Highest(order, m);
      forall a, b :: 0 <= a < b < m ==> scores[top[a]] >= scores[top[b]]
  {
    var top := Highest(order, m);
    forall a, b | 0 <= a < b < m
      ensures scores[top[a]] >= scores[top[b]]
    {
      assert top[a] == order[|order| - 1 - a] && top[b] == order[|order| - 1 - b];
    }
  }

  lemma InHighest(order: seq<nat>, m: nat, p: nat)
    requires m <= |order| && |order| - m <= p < |order|
    ensures order[p] in Highest(order, m)
  {
    assert Highest(order, m)[|order| - 1 - p] == order[p];
  }

  /** Every entry of an ascending order left out of its highest `m` scores no
      higher than any of them. */
  lemma HighestDominates(scores: seq<real>, order: seq<nat>, m: nat)
    requires Ascending(scores, order) && m <= |order|
    ensures var top := Highest(order, m);
      forall j, a :: j in order && j !in top && 0 <= a < m ==> scores[j] <= scores[top[a]]
  {
    var n := |order|;
    var top := Highest(order, m);
    forall j, a | j in order && j !in top && 0 <= a < m
      ensures scores[j] <= scores[top[a]]
    {
      var p :| 0 <= p < n && order[p] == j;
      if p >= n - m {
        InHighest(order, m, p);
        assert false;
      }
      assert top[a] == order[n - 1 - a];
    }
  }

  /** `scores.argsort()[-TopK:][::-1]`. */
  function TopIndices(scores: seq<real>): seq<nat> {
    var order := ArgSort(scores);
    Highest(order, Min(TopK, |order|))
  }

  /** What any top-`TopK` selection must be, whatever it does with equal
      scores: `min(TopK, n)` distinct valid indices, by non-increasing score,
      and no index left out scoring higher than a selected one. */
  predicate TopSelection(scores: seq<real>, top: seq<nat>) {
    && |top| == Min(TopK, |scores|)
    && ValidIndices(top, |scores|)
    && Distinct(top)
    && (forall a, b :: 0 <= a < b < |top| ==> scores[top[a]] >= scores[top[b]])
    && (forall j, a :: 0 <= j < |scores| && j !in top && 0 <= a < |top| ==> scores[j] <= scores[top[a]])
  }

  /** `TopIndices` is such a selection. Among equal scores it puts the later
      index first, which is one of the orders the selection admits. */
  lemma TopIndicesBest(scores: seq<real>)
    ensures TopSelection(scores, TopIndices(scores))
  {
    var order := ArgSort(scores);
    var m := Min(TopK, |scores|);
    SortIndicesMembers(scores, |scores|);
    SortIndicesDistinct(scores, |scores|);
    SortIndicesAscending(scores, |scores|);
    HighestValid(scores, order, m);
    HighestDistinct(order, m);
    HighestDescending(scores, order, m);
    HighestDominates(scores, order, m);
  }
}
