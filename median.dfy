/** vc_gray_lowpass_median_filter: dst is cleared, then every pixel whose
    whole kernel-by-kernel window lies inside the image receives the middle
    element of its window sorted by an exchange sort. Pixels closer than
    `(kernel - 1) / 2` to an edge stay 0. */
module Median {

  import opened VcTypes
  import opened Samples
  import opened Window
  import opened WindowOps
  import opened Ranks
  import Filters
  import Grid

  // ---------------------------------------------------------------------
  // Specification

  /** The pixels the filter visits: `size <= x < width - size` and
      `size <= y < height - size`. */
  predicate Inner(w: int, h: int, off: int, x: int, y: int)
  {
    off <= x < w - off && off <= y < h - off
  }

  /** The value the filter leaves at (x, y). */
  function MedianAt(s: seq<byte>, w: int, h: int, x: int, y: int, off: int): byte
    requires |s| == w * h && off >= 0
  {
    if Inner(w, h, off, x, y) then
      Filters.CentreIn(s, w, h, x, y, off);
      MedianOf(Neighbourhood(s, w, h, x, y, off))
    else 0
  }

  function Medianed(s: seq<byte>, w: int, h: int, off: int): (r: seq<byte>)
    requires 0 <= w && |s| == w * h && off >= 0
    ensures |r| == |s|
  {
    seq(|s|, p requires 0 <= p < |s| => Grid.FromFlat(w, h, p); MedianAt(s, w, h, p % w, p / w, off))
  }

  /** What the pixel loop must leave in row y of m: MedianAt where the
      window fits, 0 in the first and last `off` columns. */
  ghost predicate RowSpec(m: seq<byte>, s: seq<byte>, w: int, h: int, off: int, y: int)
  {
    |s| == w * h && off >= 0 && |m| == |s| && 0 <= w && 0 <= y * w && y * w + w <= |m| &&
    (forall x :: off <= x < w - off ==> m[y * w + x] == MedianAt(s, w, h, x, y, off)) &&
    (forall p :: y * w <= p < y * w + w && (p < y * w + off || y * w + w - off <= p) ==> m[p] == 0)
  }

  /** Every row of the filtered image meets RowSpec. */
  lemma MedianedRows(s: seq<byte>, w: int, h: int, off: int)
    requires 0 <= w && |s| == w * h && off >= 0
    ensures forall y :: 0 <= y < h ==> RowSpec(Medianed(s, w, h, off), s, w, h, off, y)
  {
    forall y | 0 <= y < h
      ensures RowSpec(Medianed(s, w, h, off), s, w, h, off, y)
    {
      Grid.ProductNonNegative(y, w);
      Grid.MulMono(y + 1, h, w);
      MedianedRow(s, w, h, off, y);
      MedianedRowBorder(s, w, h, off, y);
    }
  }

  lemma MedianedRow(s: seq<byte>, w: int, h: int, off: int, y: int)
    requires 0 <= w && |s| == w * h && off >= 0 && 0 <= y < h
    requires 0 <= y * w && y * w + w <= |s|
    ensures forall x :: off <= x < w - off ==>
      Medianed(s, w, h, off)[y * w + x] == MedianAt(s, w, h, x, y, off)
  {
    forall x | off <= x < w - off
      ensures Medianed(s, w, h, off)[y * w + x] == MedianAt(s, w, h, x, y, off)
    {
      Grid.Coord(w, x, y);
    }
  }

  lemma MedianedRowBorder(s: seq<byte>, w: int, h: int, off: int, y: int)
    requires 0 <= w && |s| == w * h && off >= 0 && 0 <= y < h
    requires 0 <= y * w && y * w + w <= |s|
    ensures forall p :: y * w <= p < y * w + w && (p < y * w + off || y * w + w - off <= p) ==>
      Medianed(s, w, h, off)[p] == 0
  {
    forall p | y * w <= p < y * w + w && (p < y * w + off || y * w + w - off <= p)
      ensures Medianed(s, w, h, off)[p] == 0
    {
      Grid.Coord(w, p - y * w, y);
    }
  }

  /** The first `off` rows and the last `off` rows of the filtered image
      are 0. */
  lemma MedianedOutside(s: seq<byte>, w: int, h: int, off: int)
    requires 0 <= w && |s| == w * h && off >= 0
    ensures forall p :: 0 <= p < |s| && (p < off * w || (h - off) * w <= p) ==> Medianed(s, w, h, off)[p] == 0
  {
    forall p | 0 <= p < |s| && (p < off * w || (h - off) * w <= p)
      ensures Medianed(s, w, h, off)[p] == 0
    {
      Grid.FromFlat(w, h, p);
      var x, y := p % w, p / w;
      if off <= y < h - off {
        Grid.MulMono(off, y, w);
        Grid.MulMono(y + 1, h - off, w);
        assert false;
      }
    }
  }

  // ---------------------------------------------------------------------
  // Properties

  /** Where a pixel is filtered, its median lies between the grey-level
      erosion and dilation of the same window. */
  lemma MedianBetweenErodeDilate(s: seq<byte>, w: int, h: int, off: int)
    requires 0 <= w && |s| == w * h && off >= 0
    ensures forall p :: 0 <= p < |s| && Inner(w, h, off, p % w, p / w) ==>
      Filtered(Erosion, s, w, h, off)[p] <= Medianed(s, w, h, off)[p] <= Filtered(Dilation, s, w, h, off)[p]
  {
    forall p | 0 <= p < |s| && Inner(w, h, off, p % w, p / w)
      ensures Filtered(Erosion, s, w, h, off)[p] <= Medianed(s, w, h, off)[p] <= Filtered(Dilation, s, w, h, off)[p]
    {
      Grid.FromFlat(w, h, p);
      var n := Neighbourhood(s, w, h, p % w, p / w, off);
      Filters.CentreIn(s, w, h, p % w, p / w, off);
      RankIn(n, |n| / 2);
    }
  }

  /** The median is always one of the window's own samples, so the filter
      maps a binary image to a binary image. */
  lemma MedianBinary(s: seq<byte>, w: int, h: int, off: int)
    requires 0 <= w && |s| == w * h && off >= 0
    requires forall i :: 0 <= i < |s| ==> Binary(s[i])
    ensures forall p :: 0 <= p < |s| ==> Binary(Medianed(s, w, h, off)[p])
  {
    forall p | 0 <= p < |s| && Inner(w, h, off, p % w, p / w)
      ensures Binary(Medianed(s, w, h, off)[p])
    {
      Grid.FromFlat(w, h, p);
      var n := Neighbourhood(s, w, h, p % w, p / w, off);
      Filters.CentreIn(s, w, h, p % w, p / w, off);
      RankIn(n, |n| / 2);
      var xx, yy := NeighbourhoodFrom(s, w, h, p % w, p / w, off, Rank(n, |n| / 2));
      AtIndex(s, w, h, xx, yy);
    }
  }

  /** Inside the border, the filter leaves a flat image unchanged. */
  lemma MedianFlat(s: seq<byte>, w: int, h: int, off: int, c: byte)
    requires 0 <= w && |s| == w * h && off >= 0
    requires forall i :: 0 <= i < |s| ==> s[i] == c
    ensures forall p :: 0 <= p < |s| && Inner(w, h, off, p % w, p / w) ==> Medianed(s, w, h, off)[p] == c
  {
    forall p | 0 <= p < |s| && Inner(w, h, off, p % w, p / w)
      ensures Medianed(s, w, h, off)[p] == c
    {
      Grid.FromFlat(w, h, p);
      var n := Neighbourhood(s, w, h, p % w, p / w, off);
      Filters.CentreIn(s, w, h, p % w, p / w, off);
      Filters.FlatWindow(s, w, h, p % w, p / w, off, c);
      RankIn(n, |n| / 2);
    }
  }

  // ---------------------------------------------------------------------
  // The filter

  method MedianFilter(src: Image, dst: Image, kernel: int) returns (ok: bool)
    requires src.Valid() && dst.Valid() && src.data != dst.data
    requires Filters.FilterArgs(src, kernel) ==> src.data.Length <= dst.data.Length
    modifies dst.data
    ensures ok <==> Filters.FilterArgs(src, kernel)
    ensures ok ==> Offset(kernel) >= 0
    ensures ok ==> dst.data[..src.data.Length] == Medianed(src.data[..], src.width, src.height, Offset(kernel))
    ensures ok ==> dst.data[src.data.Length..] == old(dst.data[src.data.Length..])
    ensures !ok ==> dst.data[..] == old(dst.data[..])
  {
    var size := CDiv(kernel - 1, 2);
    if src.width <= 0 || src.height <= 0 {
      return false;
    }
    if src.channels != 1 {
      return false;
    }
    if kernel < 3 {
      return false;
    }
    if kernel % 2 == 0 {
      return false;
    }
    assert src.bytesperline * src.height == src.data.Length;
    ZeroFillThenFilter(src, dst, kernel, size);
    return true;
  }

  /** The memset, the window allocation and the pixel loop. */
  method ZeroFillThenFilter(src: Image, dst: Image, kernel: int, size: int)
    requires src.Valid() && dst.Valid() && src.data != dst.data
    requires src.channels == 1 && src.data.Length <= dst.data.Length
    requires size >= 0 && kernel == 2 * size + 1
    modifies dst.data
    ensures dst.data[..src.data.Length] == Medianed(src.data[..], src.width, src.height, size)
    ensures dst.data[src.data.Length..] == old(dst.data[src.data.Length..])
  {
    Grid.Area(src.width, src.height, 1);
    Filters.ZeroFill(dst.data, src.data.Length);
    Grid.ProductNonNegative(kernel, kernel);
    var window := new byte[kernel * kernel];
    ghost var s := src.data[..];
    MedianedRows(s, src.width, src.height, size);
    MedianedOutside(s, src.width, src.height, size);
    MedianInto(src.data, window, dst.data, s, Medianed(s, src.width, src.height, size), src.width, src.height, size);
  }

  /** The loop over rows `size <= y < height - size`, against the image m
      it is to produce. */
  method MedianInto(datasrc: array<byte>, window: array<byte>, datadst: array<byte>, ghost s: seq<byte>,
                    ghost m: seq<byte>, width: int, height: int, size: int)
    requires datasrc != datadst && datasrc != window && window != datadst
    requires datasrc[..] == s && 0 <= width && |s| == width * height && |s| <= datadst.Length
    requires size >= 0 && window.Length == (2 * size + 1) * (2 * size + 1)
    requires |m| == |s| && forall y :: 0 <= y < height ==> RowSpec(m, s, width, height, size, y)
    requires forall p :: 0 <= p < |s| && (p < size * width || (height - size) * width <= p) ==> m[p] == 0
    requires forall p :: 0 <= p < |s| ==> datadst[p] == 0
    modifies window, datadst
    ensures datadst[..|s|] == m
    ensures datadst[|s|..] == old(datadst[|s|..])
  {
    ghost var d := datadst[..];
    var y := size;
    ghost var start := y * width;
    while y < height - size
      invariant size <= y && (y <= height - size || y == size) && start == y * width
      invariant datasrc[..] == s
      invariant forall p :: 0 <= p < start && p < |s| ==> datadst[p] == m[p]
      invariant forall p :: start <= p < |s| ==> datadst[p] == d[p]
      invariant forall p :: |s| <= p < datadst.Length ==> datadst[p] == d[p]
    {
      assert RowSpec(m, s, width, height, size, y);
      MedianRow(datasrc, window, datadst, s, m, width, height, y, size, start);
      Grid.NextRow(width, y);
      y := y + 1;
      start := start + width;
    }
    Grid.MulMono(height - size, y, width);
    assert datadst[..|s|] == m;
  }

  /** The loop over columns `size <= x < width - size` of row y, whose first
      sample is at `start`. */
  method MedianRow(datasrc: array<byte>, window: array<byte>, datadst: array<byte>, ghost s: seq<byte>,
                   ghost m: seq<byte>, width: int, height: int, y: int, size: int, ghost start: int)
    requires datasrc != datadst && datasrc != window && window != datadst
    requires datasrc[..] == s && |s| == width * height && |s| <= datadst.Length
    requires size >= 0 && window.Length == (2 * size + 1) * (2 * size + 1)
    requires size <= y < height - size && |m| == |s|
    requires RowSpec(m, s, width, height, size, y) && start == y * width
    requires forall p :: start <= p < start + width ==> datadst[p] == 0
    modifies window, datadst
    ensures forall p :: 0 <= p < start ==> datadst[p] == old(datadst[p])
    ensures forall p :: start <= p < start + width ==> datadst[p] == m[p]
    ensures forall p :: start + width <= p < datadst.Length ==> datadst[p] == old(datadst[p])
  {
    ghost var d := datadst[..];
    var x := size;
    while x < width - size
      invariant size <= x && (x <= width - size || x == size)
      invariant datasrc[..] == s
      invariant forall p :: 0 <= p < start ==> datadst[p] == d[p]
      invariant forall p :: start <= p < start + x && p < start + width ==> datadst[p] == m[p]
      invariant forall p :: start + x <= p < datadst.Length ==> datadst[p] == d[p]
      invariant forall p :: start + width <= p < datadst.Length ==> datadst[p] == d[p]
    {
      var pos := y * width + x;
      MedianValue(datasrc, window, datadst, s, width, height, x, y, size, pos);
      x := x + 1;
    }
  }

  /** One pixel: copy the window, sort it and store its middle element. */
  method MedianValue(datasrc: array<byte>, window: array<byte>, datadst: array<byte>, ghost s: seq<byte>,
                     width: int, height: int, x: int, y: int, size: int, pos: int)
    requires datasrc != datadst && datasrc != window && window != datadst
    requires datasrc[..] == s && |s| == width * height
    requires size >= 0 && window.Length == (2 * size + 1) * (2 * size + 1)
    requires Inner(width, height, size, x, y) && 0 <= pos < datadst.Length
    modifies window, datadst
    ensures datadst[pos] == MedianAt(s, width, height, x, y, size)
    ensures forall p :: 0 <= p < datadst.Length && p != pos ==> datadst[p] == old(datadst[p])
  {
    Gather(datasrc, window, s, width, height, x, y, size, 2 * size + 1);
    ghost var gathered := window[..];
    SortWindow(window, datadst, pos);
    SortedRank(window[..], window.Length / 2);
    RankPermutation(gathered, window[..], window.Length / 2);
  }

  /** The copy loop: window[k] receives the samples of the window row by
      row (`j`), column by column (`i`). */
  method Gather(datasrc: array<byte>, window: array<byte>, ghost s: seq<byte>,
                width: int, height: int, x: int, y: int, size: int, kernel: int)
    requires datasrc != window && datasrc[..] == s && |s| == width * height
    requires size >= 0 && kernel == 2 * size + 1 && window.Length == kernel * kernel
    requires Inner(width, height, size, x, y)
    modifies window
    ensures window[..] == Neighbourhood(s, width, height, x, y, size)
  {
    var k := 0;
    var j := -size;
    while j <= size
      invariant -size <= j <= size + 1 && k == (j + size) * kernel
      invariant 0 <= k <= window.Length
      invariant datasrc[..] == s
      invariant window[..k] == Rows(s, width, height, x, y, size, j)
    {
      k := GatherRows(datasrc, window, s, width, height, x, y, size, kernel, j, k);
      j := j + 1;
    }
    assert j + size == kernel;
    assert window[..] == window[..k];
  }

  /** One turn of the row loop: row y + j is appended to the window. */
  method GatherRows(datasrc: array<byte>, window: array<byte>, ghost s: seq<byte>,
                    width: int, height: int, x: int, y: int, size: int, kernel: int, j: int, k0: int)
    returns (k: int)
    requires datasrc != window && datasrc[..] == s && |s| == width * height
    requires size >= 0 && kernel == 2 * size + 1 && window.Length == kernel * kernel
    requires Inner(width, height, size, x, y) && -size <= j <= size && k0 == (j + size) * kernel
    requires window[..k0] == Rows(s, width, height, x, y, size, j)
    modifies window
    ensures k == (j + 1 + size) * kernel <= window.Length
    ensures window[..k] == Rows(s, width, height, x, y, size, j + 1)
  {
    RowBounds(j + size, kernel);
    RowsNext(s, width, height, x, y, size, j);
    k := GatherRow(datasrc, window, s, width, height, x, y + j, size, k0);
  }

  /** Row r + 1 of a kernel-by-kernel window ends one row after row r and
      within the window. */
  lemma RowBounds(r: int, kernel: int)
    requires 0 <= r < kernel
    ensures 0 <= r * kernel && r * kernel + kernel == (r + 1) * kernel <= kernel * kernel
  {
    Grid.ProductNonNegative(r, kernel);
    Grid.MulMono(r + 1, kernel, kernel);
    Grid.NextRow(kernel, r);
  }

  /** The inner copy loop over the columns of one row of the window. */
  method GatherRow(datasrc: array<byte>, window: array<byte>, ghost s: seq<byte>,
                   width: int, height: int, x: int, row: int, size: int, k0: int)
    returns (k: int)
    requires datasrc != window && datasrc[..] == s && |s| == width * height
    requires size >= 0 && size <= x < width - size && 0 <= row < height
    requires 0 <= k0 && k0 + 2 * size + 1 <= window.Length
    modifies window
    ensures k == k0 + 2 * size + 1
    ensures window[..k] == old(window[..k0]) + RowPart(s, width, height, x, size, row, size + 1)
  {
    ghost var pre := window[..k0];
    k := k0;
    var i := -size;
    while i <= size
      invariant -size <= i <= size + 1 && k == k0 + i + size
      invariant datasrc[..] == s
      invariant window[..k] == pre + RowPart(s, width, height, x, size, row, i)
    {
      var pos := row * width + (x + i);
      AtIndex(s, width, height, x + i, row);
      window[k] := datasrc[pos];
      assert window[..k + 1] == window[..k] + [window[k]];
      k := k + 1;
      i := i + 1;
    }
  }

  /** The exchange sort. After every pass the middle element is stored at
      pos; only the store after the last pass survives. */
  method SortWindow(window: array<byte>, datadst: array<byte>, pos: int)
    requires window != datadst && window.Length > 0 && 0 <= pos < datadst.Length
    modifies window, datadst
    ensures Sorted(window[..])
    ensures multiset(window[..]) == old(multiset(window[..]))
    ensures datadst[pos] == window[window.Length / 2]
    ensures forall p :: 0 <= p < datadst.Length && p != pos ==> datadst[p] == old(datadst[p])
  {
    var n := window.Length;
    var i := 0;
    while i < n
      invariant 0 <= i <= n
      invariant forall a, b :: 0 <= a < i && a < b < n ==> window[a] <= window[b]
      invariant multiset(window[..]) == old(multiset(window[..]))
      invariant i > 0 ==> datadst[pos] == window[n / 2]
      invariant forall p :: 0 <= p < datadst.Length && p != pos ==> datadst[p] == old(datadst[p])
    {
      ExchangePass(window, i);
      datadst[pos] := window[n / 2];
      i := i + 1;
    }
  }

  /** One pass `for (j = i + 1; j < window_size; j++)`: window[i] ends up
      no greater than any later element. */
  method ExchangePass(window: array<byte>, i: int)
    requires 0 <= i < window.Length
    requires forall a, b :: 0 <= a < i && a < b < window.Length ==> window[a] <= window[b]
    modifies window
    ensures forall a, b :: 0 <= a < i + 1 && a < b < window.Length ==> window[a] <= window[b]
    ensures multiset(window[..]) == old(multiset(window[..]))
  {
    var n := window.Length;
    var j := i + 1;
    while j < n
      invariant i + 1 <= j <= n
      invariant forall a, b :: 0 <= a < i && a < b < n ==> window[a] <= window[b]
      invariant forall b :: i < b < j ==> window[i] <= window[b]
      invariant multiset(window[..]) == old(multiset(window[..]))
    {
      if window[i] > window[j] {
        Exchange(window, i, j);
      }
      j := j + 1;
    }
  }

  /** `temp = window[i]; window[i] = window[j]; window[j] = temp;` */
  method Exchange(window: array<byte>, i: int, j: int)
    requires 0 <= i < j < window.Length
    modifies window
    ensures window[i] == old(window[j]) && window[j] == old(window[i])
    ensures forall k :: 0 <= k < window.Length && k != i && k != j ==> window[k] == old(window[k])
    ensures multiset(window[..]) == old(multiset(window[..]))
  {
    var temp := window[i];
    window[i] := window[j];
    window[j] := temp;
    assert window[..] == old(window[..])[i := old(window[j])][j := old(window[i])];
  }
}
