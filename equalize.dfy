/** vc_gray_equalize_image: histogram equalisation of a grey image. The
    histogram and its cumulative sum are counts of samples; every level v
    is mapped to `(cdf[v] - cdf[0]) * (levels - 1) / (total - cdf[0])`,
    computed in unsigned 32-bit arithmetic and stored as a byte. */
module Equalize {

  import opened VcTypes
  import opened Samples
  import Ranks
  import Grid

  /** 2^32: unsigned int arithmetic is modulo this. */
  const U32: int := 0x1_0000_0000

  /** How many samples of q equal v. */
  function Count(q: seq<byte>, v: int): (r: int)
    ensures 0 <= r <= |q|
  {
    if q == [] then 0 else Count(q[..|q| - 1], v) + (if q[|q| - 1] == v then 1 else 0)
  }

  /** The samples equal to v are those below v + 1 that are not below v. */
  lemma {:induction false} CountDifference(q: seq<byte>, v: int)
    ensures Count(q, v) == CountBelow(q, v + 1) - CountBelow(q, v)
  {
    if q != [] {
      CountDifference(q[..|q| - 1], v);
    }
  }

  /** The checks of vc_gray_equalize_image. */
  predicate EqualizeArgs(src: Image)
  {
    src.width > 0 && src.height > 0 && src.channels == 1
  }

  /** Entry v of the normalised cdf. `cdf[0]`, the count of zero samples,
      must be below the total, or the C code divides by zero. */
  function Normalised(s: seq<byte>, levels: int, v: int): int
    requires 1 <= levels && CountBelow(s, 1) < |s|
  {
    var cmin := CountBelow(s, 1);
    (((CountBelow(s, v + 1) - cmin) * (levels - 1)) % U32) / (|s| - cmin)
  }

  /** The level that grey level v becomes: the normalised cdf stored in an
      unsigned char. */
  function Level(s: seq<byte>, levels: int, v: int): byte
    requires 1 <= levels && CountBelow(s, 1) < |s|
  {
    ToByte(Normalised(s, levels, v))
  }

  /** The equalised image. */
  function Equalized(s: seq<byte>, levels: int): (r: seq<byte>)
    requires 1 <= levels && CountBelow(s, 1) < |s|
    ensures |r| == |s|
  {
    seq(|s|, p requires 0 <= p < |s| => Level(s, levels, s[p]))
  }

  // ---------------------------------------------------------------------
  // Properties of the mapping

  /** No unsigned wrap-around: the largest product the normalisation forms,
      `total * (levels - 1)`, fits in 32 bits. */
  predicate NoWrap(s: seq<byte>, levels: int)
  {
    |s| * (levels - 1) < U32
  }

  /** A quotient is bounded by the bound of its dividend. */
  lemma DivBound(a: int, d: int, m: int)
    requires 0 <= a <= d * m && 0 < d
    ensures 0 <= a / d <= m
  {
    if a / d > m {
      Grid.MulMono(m + 1, a / d, d);
      assert false;
    }
  }

  /** Integer division is monotone in its dividend. */
  lemma DivMono(a: int, b: int, d: int)
    requires 0 <= a <= b && 0 < d
    ensures a / d <= b / d
  {
    if a / d > b / d {
      Grid.MulMono(b / d + 1, a / d, d);
      assert false;
    }
  }

  /** The arithmetic of one normalised entry: with `0 <= n <= d <= total`
      and `total * l` below 2^32, the product `n * l` does not wrap and its
      quotient by d lies in `[0, l]`; it is l when n is d. */
  lemma Scale(n: int, d: int, total: int, l: int)
    requires 0 <= n <= d <= total && 0 < d && 0 <= l && total * l < U32
    ensures 0 <= n * l < U32 && (n * l) % U32 == n * l
    ensures 0 <= n * l / d <= l
    ensures n == d ==> n * l / d == l
    ensures n == 0 ==> n * l / d == 0
  {
    Grid.ProductNonNegative(n, l);
    Grid.MulMono(n, d, l);
    Grid.MulMono(d, total, l);
    DivBound(n * l, d, l);
    if n == d {
      Grid.Coord(d, 0, l);
      assert n * l == l * d + 0;
    }
  }

  /** Without wrap-around, the normalised entry of a grey level is the exact
      quotient, lies in `[0, levels-1]`, and is the byte stored. */
  lemma LevelExact(s: seq<byte>, levels: int, v: int)
    requires 1 <= levels && CountBelow(s, 1) < |s| && NoWrap(s, levels) && 0 <= v
    ensures var cmin := CountBelow(s, 1);
      Normalised(s, levels, v) == (CountBelow(s, v + 1) - cmin) * (levels - 1) / (|s| - cmin)
    ensures 0 <= Normalised(s, levels, v) <= levels - 1
    ensures levels <= 256 ==> Level(s, levels, v) == Normalised(s, levels, v)
  {
    var cmin := CountBelow(s, 1);
    Ranks.CountBelowMono(s, 1, v + 1);
    Scale(CountBelow(s, v + 1) - cmin, |s| - cmin, |s|, levels - 1);
  }

  /** Equalisation keeps the order of grey levels: a darker level is never
      mapped above a lighter one. */
  lemma LevelMonotone(s: seq<byte>, levels: int, u: int, v: int)
    requires 1 <= levels <= 256 && CountBelow(s, 1) < |s| && NoWrap(s, levels) && 0 <= u <= v
    ensures Level(s, levels, u) <= Level(s, levels, v)
  {
    LevelExact(s, levels, u);
    LevelExact(s, levels, v);
    var cmin := CountBelow(s, 1);
    Ranks.CountBelowMono(s, u + 1, v + 1);
    Ranks.CountBelowMono(s, 1, u + 1);
    Grid.MulMono(CountBelow(s, u + 1) - cmin, CountBelow(s, v + 1) - cmin, levels - 1);
    Grid.ProductNonNegative(CountBelow(s, u + 1) - cmin, levels - 1);
    DivMono((CountBelow(s, u + 1) - cmin) * (levels - 1), (CountBelow(s, v + 1) - cmin) * (levels - 1), |s| - cmin);
  }

  /** Level 0 always becomes 0. */
  lemma LevelZero(s: seq<byte>, levels: int)
    requires 1 <= levels <= 256 && CountBelow(s, 1) < |s| && NoWrap(s, levels)
    ensures Level(s, levels, 0) == 0
  {
    LevelExact(s, levels, 0);
    Scale(0, |s| - CountBelow(s, 1), |s|, levels - 1);
  }

  /** A level at or above every sample becomes the top level,
      `levels - 1`. */
  lemma LevelTop(s: seq<byte>, levels: int, v: int)
    requires 1 <= levels <= 256 && CountBelow(s, 1) < |s| && NoWrap(s, levels)
    requires 0 <= v && forall p :: 0 <= p < |s| ==> s[p] <= v
    ensures Level(s, levels, v) == levels - 1
  {
    LevelExact(s, levels, v);
    Ranks.CountBelowFull(s, v + 1);
    var cmin := CountBelow(s, 1);
    Scale(|s| - cmin, |s| - cmin, |s|, levels - 1);
  }

  /** The equalised image, pixel by pixel: its samples lie in
      `[0, levels-1]`, zero stays zero, and a darker source pixel is never
      lighter in the result. */
  lemma EqualizedOrder(s: seq<byte>, levels: int, p: int, q: int)
    requires 1 <= levels <= 256 && CountBelow(s, 1) < |s| && NoWrap(s, levels)
    requires 0 <= p < |s| && 0 <= q < |s|
    ensures Equalized(s, levels)[p] <= levels - 1
    ensures s[p] == 0 ==> Equalized(s, levels)[p] == 0
    ensures s[p] <= s[q] ==> Equalized(s, levels)[p] <= Equalized(s, levels)[q]
  {
    var e := Equalized(s, levels);
    assert e[p] == Level(s, levels, s[p]) && e[q] == Level(s, levels, s[q]);
    LevelExact(s, levels, s[p]);
    if s[p] == 0 {
      LevelZero(s, levels);
    }
    if s[p] <= s[q] {
      LevelMonotone(s, levels, s[p], s[q]);
    }
  }

  /** The brightest source pixels reach the top level, `levels - 1`. */
  lemma EqualizedTop(s: seq<byte>, levels: int, p: int)
    requires 1 <= levels <= 256 && CountBelow(s, 1) < |s| && NoWrap(s, levels)
    requires 0 <= p < |s| && forall i :: 0 <= i < |s| ==> s[i] <= s[p]
    ensures Equalized(s, levels)[p] == levels - 1
  {
    var e := Equalized(s, levels);
    assert e[p] == Level(s, levels, s[p]);
    LevelTop(s, levels, s[p]);
  }

  // ---------------------------------------------------------------------
  // The loops

  /** One row of the counting loop, over the samples `start .. start+width-1`. */
  method CountRow(data: array<byte>, histogram: array<int>, start: int, width: int, ghost s: seq<byte>)
    requires data[..] == s && histogram.Length == 256
    requires 0 <= start && 0 <= width && start + width <= |s|
    requires forall v :: 0 <= v < 256 ==> histogram[v] == Count(s[..start], v)
    modifies histogram
    ensures forall v :: 0 <= v < 256 ==> histogram[v] == Count(s[..start + width], v)
  {
    var x := 0;
    while x < width
      invariant 0 <= x <= width
      invariant forall v :: 0 <= v < 256 ==> histogram[v] == Count(s[..start + x], v)
    {
      var pos := start + x;
      assert s[..pos + 1][..pos] == s[..pos];
      histogram[data[pos]] := histogram[data[pos]] + 1;
      x := x + 1;
    }
  }

  /** The zeroing loop and the counting loop over all pixels,
      `pos = y * width + x`. */
  method Histogram(data: array<byte>, width: int, height: int) returns (histogram: array<int>)
    requires 0 <= width && 0 <= height && data.Length == width * height
    ensures fresh(histogram) && histogram.Length == 256
    ensures forall v :: 0 <= v < 256 ==> histogram[v] == Count(data[..], v)
  {
    histogram := new int[256];
    var i := 0;
    while i < 256
      invariant 0 <= i <= 256
      invariant forall v :: 0 <= v < i ==> histogram[v] == 0
    {
      histogram[i] := 0;
      i := i + 1;
    }
    ghost var s := data[..];
    ghost var k := 0;
    var y := 0;
    while y < height
      invariant 0 <= y <= height && k == y * width && 0 <= k <= |s|
      invariant forall v :: 0 <= v < 256 ==> histogram[v] == Count(s[..k], v)
    {
      Grid.NextRow(width, y);
      Grid.MulMono(y + 1, height, width);
      CountRow(data, histogram, y * width, width, s);
      k := k + width;
      y := y + 1;
    }
    Grid.Area(width, height, 1);
    assert s[..k] == s;
  }

  /** The cumulative sum: entry i counts the samples at or below i. */
  method Cumulate(histogram: array<int>, ghost s: seq<byte>) returns (cdf: array<int>)
    requires histogram.Length == 256 && forall v :: 0 <= v < 256 ==> histogram[v] == Count(s, v)
    ensures fresh(cdf) && cdf.Length == 256
    ensures forall i :: 0 <= i < 256 ==> cdf[i] == CountBelow(s, i + 1)
  {
    cdf := new int[256];
    CountDifference(s, 0);
    Ranks.CountBelowZero(s);
    cdf[0] := histogram[0];
    var i := 1;
    while i < 256
      invariant 1 <= i <= 256
      invariant forall j :: 0 <= j < i ==> cdf[j] == CountBelow(s, j + 1)
    {
      CountDifference(s, i);
      cdf[i] := cdf[i - 1] + histogram[i];
      i := i + 1;
    }
  }

  /** The normalisation loop, in place, in unsigned 32-bit arithmetic. */
  method Normalise(cdf: array<int>, total: int, levels: int, ghost s: seq<byte>)
    requires cdf.Length == 256 && total == |s| && 1 <= levels && CountBelow(s, 1) < |s|
    requires forall i :: 0 <= i < 256 ==> cdf[i] == CountBelow(s, i + 1)
    modifies cdf
    ensures forall i :: 0 <= i < 256 ==> cdf[i] == Normalised(s, levels, i)
  {
    var cdfMin := cdf[0];
    var i := 0;
    while i < 256
      invariant 0 <= i <= 256
      invariant forall j :: 0 <= j < i ==> cdf[j] == Normalised(s, levels, j)
      invariant forall j :: i <= j < 256 ==> cdf[j] == CountBelow(s, j + 1)
    {
      cdf[i] := (((cdf[i] - cdfMin) * (levels - 1)) % U32) / (total - cdfMin);
      i := i + 1;
    }
  }

  /** One row of the mapping loop, over the samples `start .. start+width-1`:
      each becomes its entry of the normalised cdf, stored as a byte. */
  method MapRow(data: array<byte>, out: array<byte>, cdf: array<int>, start: int, width: int,
                levels: int, ghost s: seq<byte>, ghost d0: seq<byte>)
    requires data != out && data[..] == s && |s| <= out.Length && |d0| == out.Length
    requires 0 <= start && 0 <= width && start + width <= |s|
    requires 1 <= levels && CountBelow(s, 1) < |s|
    requires cdf.Length == 256 && forall i :: 0 <= i < 256 ==> cdf[i] == Normalised(s, levels, i)
    requires forall p :: 0 <= p < start ==> out[p] == Level(s, levels, s[p])
    requires forall p :: start <= p < out.Length ==> out[p] == d0[p]
    modifies out
    ensures forall p :: 0 <= p < start + width ==> out[p] == Level(s, levels, s[p])
    ensures forall p :: start + width <= p < out.Length ==> out[p] == d0[p]
  {
    var x := 0;
    while x < width
      invariant 0 <= x <= width
      invariant forall p :: 0 <= p < start + x ==> out[p] == Level(s, levels, s[p])
      invariant forall p :: start + x <= p < out.Length ==> out[p] == d0[p]
    {
      var pos := start + x;
      out[pos] := ToByte(cdf[data[pos]]);
      x := x + 1;
    }
  }

  /** The mapping loop over all pixels, `pos = y * width + x`. */
  method Map(data: array<byte>, out: array<byte>, cdf: array<int>, width: int, height: int, levels: int)
    requires 0 <= width && 0 <= height && data != out
    requires data.Length == width * height && data.Length <= out.Length
    requires 1 <= levels && CountBelow(data[..], 1) < data.Length
    requires cdf.Length == 256 && forall i :: 0 <= i < 256 ==> cdf[i] == Normalised(data[..], levels, i)
    modifies out
    ensures out[..data.Length] == Equalized(data[..], levels)
    ensures out[data.Length..] == old(out[data.Length..])
  {
    ghost var s := data[..];
    ghost var d0 := out[..];
    ghost var k := 0;
    var y := 0;
    while y < height
      invariant 0 <= y <= height && k == y * width && 0 <= k <= |s|
      invariant forall p :: 0 <= p < k ==> out[p] == Level(s, levels, s[p])
      invariant forall p :: k <= p < out.Length ==> out[p] == d0[p]
    {
      Grid.NextRow(width, y);
      Grid.MulMono(y + 1, height, width);
      MapRow(data, out, cdf, y * width, width, levels, s, d0);
      k := k + width;
      y := y + 1;
    }
    Grid.Area(width, height, 1);
    assert k == |s|;
    ghost var e := Equalized(s, levels);
    assert forall p :: 0 <= p < |s| ==> out[p] == e[p];
    assert out[..|s|] == e;
  }

  /** vc_gray_equalize_image. dst's geometry is not checked: it must hold
      at least as many samples as src. */
  method EqualizeImage(src: Image, dst: Image) returns (ok: bool)
    requires src.Valid() && dst.Valid() && src.data != dst.data
    requires EqualizeArgs(src) ==> src.data.Length <= dst.data.Length
    requires EqualizeArgs(src) ==> CountBelow(src.data[..], 1) < src.data.Length
    modifies dst.data
    ensures ok <==> EqualizeArgs(src)
    ensures ok ==> dst.data[..src.data.Length] == Equalized(src.data[..], src.levels)
    ensures ok ==> dst.data[src.data.Length..] == old(dst.data[src.data.Length..])
    ensures !ok ==> dst.data[..] == old(dst.data[..])
  {
    if src.width <= 0 || src.height <= 0 {
      return false;
    }
    if src.channels != 1 {
      return false;
    }
    var width, height := src.width, src.height;
    assert src.data.Length == width * height;
    var histogram := Histogram(src.data, width, height);
    var cdf := Cumulate(histogram, src.data[..]);
    Normalise(cdf, width * height, src.levels, src.data[..]);
    Map(src.data, dst.data, cdf, width, height, src.levels);
    return true;
  }
}
