/** Folds over a run of samples, in the order the engine's loops visit them.
    Every fold is defined from the right (the last sample is the one the
    loop consumes next), so a loop that has consumed a prefix holds the fold
    of that prefix. */
module Samples {

  import opened VcTypes
  import Grid

  /** A scan of a run of samples: the accumulator `acc` updated by `f` with
      every sample in order, the shape of every `for` loop over pixels. */
  function SeqFold<A>(f: (A, byte) -> A, acc: A, q: seq<byte>): A
  {
    if q == [] then acc else f(SeqFold(f, acc, q[..|q| - 1]), q[|q| - 1])
  }

  /** One more sample of a scan. */
  lemma SeqFoldSnoc<A>(f: (A, byte) -> A, acc: A, q: seq<byte>, v: byte)
    ensures SeqFold(f, acc, q + [v]) == f(SeqFold(f, acc, q), v)
  {
    assert (q + [v])[..|q|] == q;
  }

  /** Scanning p and then q is scanning p + q. */
  lemma {:induction false} SeqFoldAppend<A>(f: (A, byte) -> A, acc: A, p: seq<byte>, q: seq<byte>)
    ensures SeqFold(f, acc, p + q) == SeqFold(f, SeqFold(f, acc, p), q)
    decreases |q|
  {
    if q == [] {
      assert p + q == p;
    } else {
      var n := |q| - 1;
      assert p + q == (p + q[..n]) + [q[n]];
      SeqFoldSnoc(f, acc, p + q[..n], q[n]);
      SeqFoldAppend(f, acc, p, q[..n]);
      assert q == q[..n] + [q[n]];
      SeqFoldSnoc(f, SeqFold(f, acc, p), q[..n], q[n]);
    }
  }

  /** `if (v < min) min = v;` */
  function MinStep(m: byte, v: byte): byte
  {
    if v < m then v else m
  }

  /** `if (v > max) max = v;` */
  function MaxStep(m: byte, v: byte): byte
  {
    if v > m then v else m
  }

  /** `sum += v;` */
  function SumStep(t: int, v: byte): int
  {
    t + v
  }

  /** `count++;` */
  function CountStep(n: int, v: byte): int
  {
    n + 1
  }

  /** The black-sample flag of the erosion scan. */
  function ZeroStep(z: bool, v: byte): bool
  {
    z || v == 0
  }

  /** Counting visits every sample once. */
  lemma {:induction false} CountFold(q: seq<byte>)
    ensures SeqFold(CountStep, 0, q) == |q|
  {
    if q != [] {
      CountFold(q[..|q| - 1]);
    }
  }

  lemma {:induction false} SumFoldBounds(q: seq<byte>)
    ensures 0 <= SeqFold(SumStep, 0, q) <= 255 * |q|
  {
    if q != [] {
      SumFoldBounds(q[..|q| - 1]);
    }
  }

  /** Sum of the samples, as the `sum += datasrc[pos]` loops compute it. */
  function Sum(q: seq<byte>): (r: int)
    ensures 0 <= r <= 255 * |q|
  {
    SumFoldBounds(q);
    SeqFold(SumStep, 0, q)
  }

  /** Number of samples strictly below t. */
  function CountBelow(q: seq<byte>, t: int): (r: int)
    ensures 0 <= r <= |q|
  {
    if q == [] then 0
    else CountBelow(q[..|q| - 1], t) + (if q[|q| - 1] < t then 1 else 0)
  }

  /** One more sample of a prefix, as a counting loop consumes it. */
  lemma CountBelowSnoc(q: seq<byte>, i: int, t: int)
    requires 0 <= i < |q|
    ensures CountBelow(q[..i + 1], t) == CountBelow(q[..i], t) + (if q[i] < t then 1 else 0)
  {
    assert q[..i + 1][..i] == q[..i];
  }

  /** One more sample of a prefix, as a summing loop consumes it. */
  lemma SumSnoc(q: seq<byte>, i: int)
    requires 0 <= i < |q|
    ensures Sum(q[..i + 1]) == Sum(q[..i]) + q[i]
  {
    assert q[..i + 1][..i] == q[..i];
  }

  /** The running minimum that starts from 255 (`min_pixel = 255`). */
  function MinOf(q: seq<byte>): (r: byte)
    ensures q == [] ==> r == 255
  {
    SeqFold(MinStep, 255, q)
  }

  /** The running minimum is a lower bound of the run and, on a non-empty
      run, one of its samples. */
  lemma {:induction false} MinOfIsLeast(q: seq<byte>)
    ensures forall i :: 0 <= i < |q| ==> MinOf(q) <= q[i]
    ensures q != [] ==> MinOf(q) in q
  {
    if q != [] {
      var p := q[..|q| - 1];
      MinOfIsLeast(p);
      assert q == p + [q[|q| - 1]];
      assert MinOf(q) == MinStep(MinOf(p), q[|q| - 1]);
    }
  }

  /** The running maximum that starts from 0 (`max_pixel = 0`). */
  function MaxOf(q: seq<byte>): (r: byte)
    ensures q == [] ==> r == 0
  {
    SeqFold(MaxStep, 0, q)
  }

  /** The running maximum is an upper bound of the run and, on a non-empty
      run, one of its samples. */
  lemma {:induction false} MaxOfIsGreatest(q: seq<byte>)
    ensures forall i :: 0 <= i < |q| ==> q[i] <= MaxOf(q)
    ensures q != [] ==> MaxOf(q) in q
  {
    if q != [] {
      var p := q[..|q| - 1];
      MaxOfIsGreatest(p);
      assert q == p + [q[|q| - 1]];
      assert MaxOf(q) == MaxStep(MaxOf(p), q[|q| - 1]);
    }
  }

  function Pow2(n: nat): (r: nat)
    ensures r >= 1
  {
    if n == 0 then 1 else 2 * Pow2(n - 1)
  }

  /** Bitwise OR of two naturals, bit by bit from the least significant. */
  function BitOr(a: nat, b: nat): nat
    decreases a + b
  {
    if a == 0 && b == 0 then 0
    else 2 * BitOr(a / 2, b / 2) + (if a % 2 == 1 || b % 2 == 1 then 1 else 0)
  }

  lemma {:induction false} BitOrBounds(a: nat, b: nat)
    ensures a <= BitOr(a, b) && b <= BitOr(a, b)
    decreases a + b
  {
    if a != 0 || b != 0 {
      BitOrBounds(a / 2, b / 2);
    }
  }

  lemma {:induction false} BitOrWidth(a: nat, b: nat, n: nat)
    requires a < Pow2(n) && b < Pow2(n)
    ensures BitOr(a, b) < Pow2(n)
    decreases n
  {
    if n > 0 && (a != 0 || b != 0) {
      BitOrWidth(a / 2, b / 2, n - 1);
    }
  }

  lemma {:induction false} BitOrZero(a: nat)
    ensures BitOr(a, 0) == a && BitOr(0, a) == a
    decreases a
  {
    if a != 0 {
      BitOrZero(a / 2);
    }
  }

  /** `|` on two `unsigned char` values. */
  function Or(a: byte, b: byte): (r: byte)
    ensures a <= r && b <= r
    ensures r == 0 <==> a == 0 && b == 0
  {
    BitOrBounds(a, b);
    BitOrWidth(a, b, 8);
    BitOrZero(b);
    BitOr(a, b)
  }

  /** The running OR that starts from 0 (`pixel |= datasrc[posk]`). */
  function OrOf(q: seq<byte>): (r: byte)
    ensures q == [] ==> r == 0
  {
    SeqFold(Or, 0, q)
  }

  /** The running OR bounds every sample and is 0 exactly when every sample
      is 0. */
  lemma {:induction false} OrOfBounds(q: seq<byte>)
    ensures forall i :: 0 <= i < |q| ==> q[i] <= OrOf(q)
    ensures OrOf(q) == 0 <==> forall i :: 0 <= i < |q| ==> q[i] == 0
  {
    if q != [] {
      var p := q[..|q| - 1];
      OrOfBounds(p);
      assert forall i :: 0 <= i < |p| ==> q[i] == p[i];
    }
  }

  /** Whether a black sample has been met, as the erosion scan tracks it. */
  function HasZero(q: seq<byte>): bool
  {
    SeqFold(ZeroStep, false, q)
  }

  /** HasZero tells exactly whether 0 occurs in the run. */
  lemma {:induction false} HasZeroIn(q: seq<byte>)
    ensures HasZero(q) <==> 0 in q
  {
    if q != [] {
      var p := q[..|q| - 1];
      HasZeroIn(p);
      assert q == p + [q[|q| - 1]];
    }
  }

  /** A sample is binary when it is 0 or 255. */
  predicate Binary(v: int)
  {
    v == 0 || v == 255
  }

  /** On binary samples the OR is binary: 255 exactly when some sample is. */
  lemma {:induction false} OrOfBinary(q: seq<byte>)
    requires forall i :: 0 <= i < |q| ==> Binary(q[i])
    ensures Binary(OrOf(q))
    ensures OrOf(q) == 255 <==> 255 in q
  {
    if q != [] {
      OrOfBinary(q[..|q| - 1]);
      assert q == q[..|q| - 1] + [q[|q| - 1]];
    }
    OrOfBounds(q);
  }

  /** The sum lies between |q| times the minimum and |q| times the maximum. */
  lemma {:induction false} SumBetween(q: seq<byte>, lo: int, hi: int)
    requires forall i :: 0 <= i < |q| ==> lo <= q[i] <= hi
    ensures |q| * lo <= Sum(q) <= |q| * hi
  {
    if q != [] {
      SumBetween(q[..|q| - 1], lo, hi);
      assert |q| * lo == (|q| - 1) * lo + lo;
      assert |q| * hi == (|q| - 1) * hi + hi;
    }
  }

  /** The sign of a product with a positive factor. */
  lemma {:induction false} MulSign(d: int, n: int)
    requires n > 0
    ensures d > 0 ==> d * n >= n
    ensures d <= 0 ==> d * n <= 0
    decreases if d > 0 then d else -d
  {
    if d > 1 {
      MulSign(d - 1, n);
      assert d * n == (d - 1) * n + n;
    } else if d < 0 {
      MulSign(d + 1, n);
      assert d * n == (d + 1) * n - n;
    }
  }

  /** Truncated division of a value between n*lo and n*hi stays in [lo, hi]. */
  lemma DivBetween(s: int, n: int, lo: int, hi: int)
    requires n > 0 && n * lo <= s <= n * hi
    ensures lo <= s / n <= hi
  {
    var q := s / n;
    assert s == n * q + s % n;
    MulSign(q - lo + 1, n);
    assert (q - lo + 1) * n == n * q - n * lo + n;
    MulSign(q - hi, n);
    assert (q - hi) * n == n * q - n * hi;
  }

  lemma {:induction false} CountBelowConcat(a: seq<byte>, b: seq<byte>, t: int)
    ensures CountBelow(a + b, t) == CountBelow(a, t) + CountBelow(b, t)
    decreases |b|
  {
    if b == [] {
      assert a + b == a;
    } else {
      assert (a + b)[..|a + b| - 1] == a + b[..|b| - 1];
      CountBelowConcat(a, b[..|b| - 1], t);
    }
  }

  /** Taking sample k out of a run removes its contribution to the count. */
  lemma CountBelowRemove(b: seq<byte>, k: int, t: int)
    requires 0 <= k < |b|
    ensures CountBelow(b, t) == CountBelow(b[..k] + b[k + 1..], t) + (if b[k] < t then 1 else 0)
  {
    assert b == b[..k] + [b[k]] + b[k + 1..];
    CountBelowConcat(b[..k], [b[k]], t);
    CountBelowConcat(b[..k] + [b[k]], b[k + 1..], t);
    CountBelowConcat(b[..k], b[k + 1..], t);
  }

  /** How many samples lie below t depends only on the multiset of samples,
      so it survives any reordering, such as a sort. */
  lemma {:induction false} CountBelowPermutation(a: seq<byte>, b: seq<byte>, t: int)
    requires multiset(a) == multiset(b)
    ensures CountBelow(a, t) == CountBelow(b, t)
    decreases |a|
  {
    if a == [] {
      assert |b| == |multiset(b)| == 0;
    } else {
      var n := |a| - 1;
      var v := a[n];
      assert a == a[..n] + [v];
      assert v in multiset(b);
      var k :| 0 <= k < |b| && b[k] == v;
      var rest := b[..k] + b[k + 1..];
      assert b == b[..k] + [v] + b[k + 1..];
      assert multiset(rest) == multiset(b) - multiset{v};
      assert multiset(a[..n]) == multiset(a) - multiset{v};
      CountBelowPermutation(a[..n], rest, t);
      CountBelowRemove(b, k, t);
    }
  }

  /** CountBelow counts the indices whose sample lies below t. */
  lemma {:induction false} CountBelowIndices(q: seq<byte>, t: int)
    ensures CountBelow(q, t) == |set i | 0 <= i < |q| && q[i] < t|
  {
    if q != [] {
      var n := |q| - 1;
      var p := q[..n];
      CountBelowIndices(p, t);
      var sp := set i | 0 <= i < |p| && p[i] < t;
      var sq := set i | 0 <= i < |q| && q[i] < t;
      if q[n] < t {
        assert sq == sp + {n};
      } else {
        assert sq == sp;
      }
    }
  }
}
