/** Order statistics of a run of samples, stated through counts: the value
    of rank k is the one with at most k samples below it and more than k
    samples at or below it. The median filter picks rank |q| / 2 of its
    sorted window. */
module Ranks {

  import opened VcTypes
  import opened Samples

  predicate Sorted(q: seq<byte>)
  {
    forall a, b :: 0 <= a < b < |q| ==> q[a] <= q[b]
  }

  lemma {:induction false} CountBelowMono(q: seq<byte>, t1: int, t2: int)
    requires t1 <= t2
    ensures CountBelow(q, t1) <= CountBelow(q, t2)
  {
    if q != [] {
      CountBelowMono(q[..|q| - 1], t1, t2);
    }
  }

  /** No sample lies below 0. */
  lemma {:induction false} CountBelowZero(q: seq<byte>)
    ensures CountBelow(q, 0) == 0
  {
    if q != [] {
      CountBelowZero(q[..|q| - 1]);
    }
  }

  /** When every sample lies below t, all of them are counted. */
  lemma {:induction false} CountBelowFull(q: seq<byte>, t: int)
    requires forall i :: 0 <= i < |q| ==> q[i] < t
    ensures CountBelow(q, t) == |q|
  {
    if q != [] {
      CountBelowFull(q[..|q| - 1], t);
    }
  }

  /** The search for the rank-k value, upwards from v. */
  function RankFrom(q: seq<byte>, k: int, v: int): (r: byte)
    requires 0 <= k < |q| && 0 <= v <= 255 && CountBelow(q, v) <= k
    ensures CountBelow(q, r) <= k < CountBelow(q, r as int + 1)
    decreases 255 - v
  {
    if v == 255 then
      CountBelowFull(q, 256);
      255
    else if k < CountBelow(q, v + 1) then v
    else RankFrom(q, k, v + 1)
  }

  /** The value of rank k (0-based) of q. */
  function Rank(q: seq<byte>, k: int): (r: byte)
    requires 0 <= k < |q|
    ensures CountBelow(q, r) <= k < CountBelow(q, r as int + 1)
  {
    CountBelowZero(q);
    RankFrom(q, k, 0)
  }

  /** The count condition pins the value down. */
  lemma RankUnique(q: seq<byte>, k: int, v: int)
    requires 0 <= k < |q| && CountBelow(q, v) <= k < CountBelow(q, v + 1)
    ensures v == Rank(q, k)
  {
    var r := Rank(q, k);
    if v < r {
      CountBelowMono(q, v + 1, r);
    } else if v > r {
      CountBelowMono(q, r as int + 1, v);
    }
  }

  /** In a sorted run, fewer than k + 1 samples lie below q[k] and at least
      k + 1 lie at or below it. */
  lemma {:induction false} SortedCount(q: seq<byte>, k: int)
    requires Sorted(q) && 0 <= k < |q|
    ensures CountBelow(q, q[k]) <= k && k < CountBelow(q, q[k] as int + 1)
  {
    var n := |q| - 1;
    var p := q[..n];
    assert Sorted(p);
    if k == n {
      CountBelowFull(p, q[k] as int + 1);
    } else {
      SortedCount(p, k);
    }
  }

  /** The sorted window holds the rank-k value at index k. */
  lemma SortedRank(q: seq<byte>, k: int)
    requires Sorted(q) && 0 <= k < |q|
    ensures q[k] == Rank(q, k)
  {
    SortedCount(q, k);
    RankUnique(q, k, q[k]);
  }

  /** Ranks depend only on the multiset of samples, so reordering the window
      does not change them. */
  lemma RankPermutation(a: seq<byte>, b: seq<byte>, k: int)
    requires multiset(a) == multiset(b) && 0 <= k < |a|
    ensures |a| == |b| && Rank(a, k) == Rank(b, k)
  {
    assert |a| == |multiset(a)| == |multiset(b)| == |b|;
    var r := Rank(a, k);
    CountBelowPermutation(a, b, r);
    CountBelowPermutation(a, b, r as int + 1);
    RankUnique(b, k, r);
  }

  /** A value with more samples at or below it than below it occurs. */
  lemma {:induction false} CountBelowStep(q: seq<byte>, v: int)
    requires CountBelow(q, v) < CountBelow(q, v + 1)
    ensures v in q
  {
    var n := |q| - 1;
    if q[n] != v {
      CountBelowStep(q[..n], v);
      assert q == q[..n] + [q[n]];
    }
  }

  /** Every rank of q is a sample of q, between its minimum and maximum. */
  lemma RankIn(q: seq<byte>, k: int)
    requires 0 <= k < |q|
    ensures Rank(q, k) in q
    ensures MinOf(q) <= Rank(q, k) <= MaxOf(q)
  {
    CountBelowStep(q, Rank(q, k));
    MinOfIsLeast(q);
    MaxOfIsGreatest(q);
  }

  /** The median the filter writes: the middle element of the sorted
      window. */
  function MedianOf(q: seq<byte>): byte
    requires q != []
  {
    Rank(q, |q| / 2)
  }
}
