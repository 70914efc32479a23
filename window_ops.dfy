/** The window operators that vc.c applies at every pixel of a grey-level
    image: each reads the border-clipped square neighbourhood of half-width
    `offset = (kernel - 1) / 2` and writes one sample. */
module WindowOps {

  import opened VcTypes
  import opened Samples
  import opened Window
  import Grid

  /** The window operators. */
  datatype Op =
    | Erosion       // vc_grayscale_erode: minimum of the window
    | Dilation      // vc_grayscale_dilate: maximum of the window
    | BinErosion    // vc_binary_erode: 255 iff the centre is 255 and no window sample is 0
    | BinDilation   // vc_binary_dilate: OR of the window
    | Mean          // vc_gray_lowpass_min_filter: truncated mean of the window
    | Midpoint      // vc_gray_to_binary_midpoint: centre above (min + max) / 2
    | Bernsen(cMin: int, levels: int)  // vc_gray_to_binary_bernsen

  /** The midpoint threshold `(min + max) / 2`. */
  function MidpointOf(n: seq<byte>): int
  {
    (MinOf(n) + MaxOf(n)) / 2
  }

  /** Bernsen's threshold: half of `levels` when the window's contrast
      `max - min` is at most cMin, the midpoint otherwise. */
  function BernsenOf(n: seq<byte>, cMin: int, levels: int): int
  {
    if MaxOf(n) - MinOf(n) <= cMin then levels / 2 else MidpointOf(n)
  }

  /** The truncated mean `sum / count`; an empty window, which the filter's
      kernel check rules out, gives 0. */
  function MeanOf(n: seq<byte>): byte
  {
    if n == [] then 0
    else
      SumBetween(n, 0, 255);
      DivBetween(Sum(n), |n|, 0, 255);
      Sum(n) / |n|
  }

  /** The value an operator writes at (x, y). */
  function Apply(op: Op, s: seq<byte>, w: int, h: int, x: int, y: int, off: int): byte
    requires |s| == w * h && InBounds(w, h, x, y)
  {
    var n := Neighbourhood(s, w, h, x, y, off);
    match op
    case Erosion => MinOf(n)
    case Dilation => MaxOf(n)
    case BinDilation => OrOf(n)
    case BinErosion => if At(s, w, h, x, y) == 255 then (if 0 in n then 0 else 255) else 0
    case Mean => MeanOf(n)
    case Midpoint => if At(s, w, h, x, y) > MidpointOf(n) then 255 else 0
    case Bernsen(cMin, levels) => if At(s, w, h, x, y) > BernsenOf(n, cMin, levels) then 255 else 0
  }

  function PixelOf(op: Op, s: seq<byte>, w: int, h: int, off: int, p: int): byte
    requires 0 <= w && |s| == w * h && 0 <= p < |s|
  {
    Grid.FromFlat(w, h, p);
    Apply(op, s, w, h, p % w, p / w, off)
  }

  /** The whole output image of an operator, in buffer order. */
  function Filtered(op: Op, s: seq<byte>, w: int, h: int, off: int): (r: seq<byte>)
    requires 0 <= w && |s| == w * h
    ensures |r| == |s|
  {
    seq(|s|, p requires 0 <= p < |s| => PixelOf(op, s, w, h, off, p))
  }

  lemma FilteredAt(op: Op, s: seq<byte>, w: int, h: int, off: int, x: int, y: int)
    requires 0 <= w && |s| == w * h && InBounds(w, h, x, y)
    ensures At(Filtered(op, s, w, h, off), w, h, x, y) == Apply(op, s, w, h, x, y, off)
  {
    Grid.InRange(w, h, x, y);
    Grid.Coord(w, x, y);
  }

  /** Row y of the output, pixel by pixel. */
  lemma FilteredRow(op: Op, s: seq<byte>, w: int, h: int, off: int, y: int)
    requires 0 <= w && |s| == w * h && 0 <= y < h
    ensures forall x :: 0 <= x < w ==>
      0 <= y * w + x < |s| && Filtered(op, s, w, h, off)[y * w + x] == Apply(op, s, w, h, x, y, off)
  {
    forall x | 0 <= x < w
      ensures 0 <= y * w + x < |s| && Filtered(op, s, w, h, off)[y * w + x] == Apply(op, s, w, h, x, y, off)
    {
      FilteredAt(op, s, w, h, off, x, y);
      AtIndex(Filtered(op, s, w, h, off), w, h, x, y);
    }
  }

  // ---------------------------------------------------------------------
  // Window scans, one per operator, in the C loop order (rows outer,
  // columns inner). Each outer loop keeps its accumulator equal to the scan
  // of the rows done so far; the inner loop extends it by one row.

  /** The range of a scan counter `for (i = -offset; i <= offset; i++)`. */
  predicate Counter(offset: int, i: int)
  {
    (offset < 0 ==> i == -offset) && (offset >= 0 ==> -offset <= i <= offset + 1)
  }

  /** The `min_pixel` scan of vc_grayscale_erode. */
  method WindowMin(datasrc: array<byte>, width: int, height: int, x: int, y: int, offset: int)
    returns (min_pixel: byte)
    requires datasrc.Length == width * height
    ensures min_pixel == MinOf(Neighbourhood(datasrc[..], width, height, x, y, offset))
  {
    ghost var s := datasrc[..];
    min_pixel := 255;
    var i := -offset;
    while i <= offset
      invariant Counter(offset, i)
      invariant min_pixel == RowsFold(MinStep, 255, s, width, height, x, y, offset, i)
    {
      min_pixel := RowMin(datasrc, s, width, height, x, y + i, offset, min_pixel);
      i := i + 1;
    }
    WindowFoldSeq(MinStep, 255, s, width, height, x, y, offset);
  }

  /** The inner loop of the `min_pixel` scan: row `new_y` of the window. */
  method RowMin(datasrc: array<byte>, ghost s: seq<byte>, width: int, height: int, x: int, new_y: int,
                offset: int, acc: byte)
    returns (min_pixel: byte)
    requires datasrc[..] == s && |s| == width * height
    ensures min_pixel == RowFold(MinStep, acc, s, width, height, x, offset, new_y, offset + 1)
  {
    min_pixel := acc;
    var j := -offset;
    while j <= offset
      invariant Counter(offset, j)
      invariant min_pixel == RowFold(MinStep, acc, s, width, height, x, offset, new_y, j)
    {
      var new_x := x + j;
      if new_y >= 0 && new_y < height && new_x >= 0 && new_x < width {
        AtIndex(s, width, height, new_x, new_y);
        var posk := new_y * width + new_x;
        if datasrc[posk] < min_pixel {
          min_pixel := datasrc[posk];
        }
      }
      j := j + 1;
    }
  }

  /** The `max_pixel` scan of vc_grayscale_dilate. */
  method WindowMax(datasrc: array<byte>, width: int, height: int, x: int, y: int, offset: int)
    returns (max_pixel: byte)
    requires datasrc.Length == width * height
    ensures max_pixel == MaxOf(Neighbourhood(datasrc[..], width, height, x, y, offset))
  {
    ghost var s := datasrc[..];
    max_pixel := 0;
    var i := -offset;
    while i <= offset
      invariant Counter(offset, i)
      invariant max_pixel == RowsFold(MaxStep, 0, s, width, height, x, y, offset, i)
    {
      max_pixel := RowMax(datasrc, s, width, height, x, y + i, offset, max_pixel);
      i := i + 1;
    }
    WindowFoldSeq(MaxStep, 0, s, width, height, x, y, offset);
  }

  /** The inner loop of the `max_pixel` scan. */
  method RowMax(datasrc: array<byte>, ghost s: seq<byte>, width: int, height: int, x: int, new_y: int,
                offset: int, acc: byte)
    returns (max_pixel: byte)
    requires datasrc[..] == s && |s| == width * height
    ensures max_pixel == RowFold(MaxStep, acc, s, width, height, x, offset, new_y, offset + 1)
  {
    max_pixel := acc;
    var j := -offset;
    while j <= offset
      invariant Counter(offset, j)
      invariant max_pixel == RowFold(MaxStep, acc, s, width, height, x, offset, new_y, j)
    {
      var new_x := x + j;
      if new_y >= 0 && new_y < height && new_x >= 0 && new_x < width {
        AtIndex(s, width, height, new_x, new_y);
        var posk := new_y * width + new_x;
        var src_pixel := datasrc[posk];
        if src_pixel > max_pixel {
          max_pixel := src_pixel;
        }
      }
      j := j + 1;
    }
  }

  /** The `pixel |= datasrc[posk]` scan of vc_binary_dilate. */
  method WindowOr(datasrc: array<byte>, width: int, height: int, x: int, y: int, offset: int)
    returns (pixel: byte)
    requires datasrc.Length == width * height
    ensures pixel == OrOf(Neighbourhood(datasrc[..], width, height, x, y, offset))
  {
    ghost var s := datasrc[..];
    pixel := 0;
    var i := -offset;
    while i <= offset
      invariant Counter(offset, i)
      invariant pixel == RowsFold(Or, 0, s, width, height, x, y, offset, i)
    {
      pixel := RowOr(datasrc, s, width, height, x, y + i, offset, pixel);
      i := i + 1;
    }
    WindowFoldSeq(Or, 0, s, width, height, x, y, offset);
  }

  /** The inner loop of the OR scan. */
  method RowOr(datasrc: array<byte>, ghost s: seq<byte>, width: int, height: int, x: int, new_y: int,
               offset: int, acc: byte)
    returns (pixel: byte)
    requires datasrc[..] == s && |s| == width * height
    ensures pixel == RowFold(Or, acc, s, width, height, x, offset, new_y, offset + 1)
  {
    pixel := acc;
    var j := -offset;
    while j <= offset
      invariant Counter(offset, j)
      invariant pixel == RowFold(Or, acc, s, width, height, x, offset, new_y, j)
    {
      var new_x := x + j;
      if new_y >= 0 && new_y < height && new_x >= 0 && new_x < width {
        AtIndex(s, width, height, new_x, new_y);
        var posk := new_y * width + new_x;
        pixel := Or(pixel, datasrc[posk]);
      }
      j := j + 1;
    }
  }

  /** The scan of vc_binary_erode, which stops at the first black sample:
      `erosion` ends 0 exactly when the window holds a 0. */
  method WindowErodes(datasrc: array<byte>, width: int, height: int, x: int, y: int, offset: int)
    returns (erosion: int)
    requires datasrc.Length == width * height
    ensures erosion == (if HasZero(Neighbourhood(datasrc[..], width, height, x, y, offset)) then 0 else 1)
  {
    ghost var s := datasrc[..];
    erosion := 1;
    var i := -offset;
    while i <= offset
      invariant Counter(offset, i)
      invariant erosion == 1 && !RowsFold(ZeroStep, false, s, width, height, x, y, offset, i)
    {
      erosion := RowErodes(datasrc, s, width, height, x, y + i, offset);
      if erosion == 0 {
        ZeroKeptRows(s, width, height, x, y, offset, i + 1, offset + 1);
        break;
      }
      i := i + 1;
    }
    WindowFoldSeq(ZeroStep, false, s, width, height, x, y, offset);
  }

  /** The inner loop of the erosion scan; the `break` leaves it at the
      first black sample. It runs only while no black sample was met. */
  method RowErodes(datasrc: array<byte>, ghost s: seq<byte>, width: int, height: int, x: int, new_y: int,
                   offset: int)
    returns (erosion: int)
    requires datasrc[..] == s && |s| == width * height
    ensures erosion == (if RowFold(ZeroStep, false, s, width, height, x, offset, new_y, offset + 1) then 0 else 1)
  {
    erosion := 1;
    var j := -offset;
    while j <= offset
      invariant Counter(offset, j)
      invariant erosion == 1 && !RowFold(ZeroStep, false, s, width, height, x, offset, new_y, j)
    {
      var new_x := x + j;
      if new_y >= 0 && new_y < height && new_x >= 0 && new_x < width {
        AtIndex(s, width, height, new_x, new_y);
        var posk := new_y * width + new_x;
        if datasrc[posk] == 0 {
          ZeroKept(false, s, width, height, x, offset, new_y, j + 1, offset + 1);
          erosion := 0;
          break;
        }
      }
      j := j + 1;
    }
  }

  /** The `sum`/`count` scan of vc_gray_lowpass_min_filter. */
  method WindowSum(datasrc: array<byte>, width: int, height: int, x: int, y: int, offset: int)
    returns (sum: int, count: int)
    requires datasrc.Length == width * height
    ensures sum == Sum(Neighbourhood(datasrc[..], width, height, x, y, offset))
    ensures count == |Neighbourhood(datasrc[..], width, height, x, y, offset)|
  {
    ghost var s := datasrc[..];
    sum, count := 0, 0;
    var j := -offset;
    while j <= offset
      invariant Counter(offset, j)
      invariant sum == RowsFold(SumStep, 0, s, width, height, x, y, offset, j)
      invariant count == RowsFold(CountStep, 0, s, width, height, x, y, offset, j)
    {
      sum, count := RowSum(datasrc, s, width, height, x, y + j, offset, sum, count);
      j := j + 1;
    }
    WindowFoldSeq(SumStep, 0, s, width, height, x, y, offset);
    WindowFoldSeq(CountStep, 0, s, width, height, x, y, offset);
    CountFold(Neighbourhood(s, width, height, x, y, offset));
  }

  /** The inner loop of the `sum`/`count` scan. */
  method RowSum(datasrc: array<byte>, ghost s: seq<byte>, width: int, height: int, x: int, new_y: int,
                offset: int, sum0: int, count0: int)
    returns (sum: int, count: int)
    requires datasrc[..] == s && |s| == width * height
    ensures sum == RowFold(SumStep, sum0, s, width, height, x, offset, new_y, offset + 1)
    ensures count == RowFold(CountStep, count0, s, width, height, x, offset, new_y, offset + 1)
  {
    sum, count := sum0, count0;
    var i := -offset;
    while i <= offset
      invariant Counter(offset, i)
      invariant sum == RowFold(SumStep, sum0, s, width, height, x, offset, new_y, i)
      invariant count == RowFold(CountStep, count0, s, width, height, x, offset, new_y, i)
    {
      var new_x := x + i;
      if new_y >= 0 && new_y < height && new_x >= 0 && new_x < width {
        AtIndex(s, width, height, new_x, new_y);
        var pos := new_y * width + new_x;
        sum := sum + datasrc[pos];
        count := count + 1;
      }
      i := i + 1;
    }
  }

  /** The joint `min`/`max` scan of vc_gray_to_binary_midpoint and
      vc_gray_to_binary_bernsen. */
  method WindowMinMax(datasrc: array<byte>, width: int, height: int, x: int, y: int, offset: int)
    returns (min: byte, max: byte)
    requires datasrc.Length == width * height
    ensures min == MinOf(Neighbourhood(datasrc[..], width, height, x, y, offset))
    ensures max == MaxOf(Neighbourhood(datasrc[..], width, height, x, y, offset))
  {
    ghost var s := datasrc[..];
    min, max := 255, 0;
    var i := -offset;
    while i <= offset
      invariant Counter(offset, i)
      invariant min == RowsFold(MinStep, 255, s, width, height, x, y, offset, i)
      invariant max == RowsFold(MaxStep, 0, s, width, height, x, y, offset, i)
    {
      min, max := RowMinMax(datasrc, s, width, height, x, y + i, offset, min, max);
      i := i + 1;
    }
    WindowFoldSeq(MinStep, 255, s, width, height, x, y, offset);
    WindowFoldSeq(MaxStep, 0, s, width, height, x, y, offset);
  }

  /** The inner loop of the joint `min`/`max` scan. */
  method RowMinMax(datasrc: array<byte>, ghost s: seq<byte>, width: int, height: int, x: int, new_y: int,
                   offset: int, min0: byte, max0: byte)
    returns (min: byte, max: byte)
    requires datasrc[..] == s && |s| == width * height
    ensures min == RowFold(MinStep, min0, s, width, height, x, offset, new_y, offset + 1)
    ensures max == RowFold(MaxStep, max0, s, width, height, x, offset, new_y, offset + 1)
  {
    min, max := min0, max0;
    var j := -offset;
    while j <= offset
      invariant Counter(offset, j)
      invariant min == RowFold(MinStep, min0, s, width, height, x, offset, new_y, j)
      invariant max == RowFold(MaxStep, max0, s, width, height, x, offset, new_y, j)
    {
      var new_x := x + j;
      if new_y >= 0 && new_y < height && new_x >= 0 && new_x < width {
        AtIndex(s, width, height, new_x, new_y);
        var pos_src := new_y * width + new_x;
        if datasrc[pos_src] < min {
          min := datasrc[pos_src];
        }
        if datasrc[pos_src] > max {
          max := datasrc[pos_src];
        }
      }
      j := j + 1;
    }
  }

  /** The value written at (x, y), computed by the operator's own scan. */
  method PixelValue(op: Op, datasrc: array<byte>, ghost s: seq<byte>, width: int, height: int,
                    x: int, y: int, offset: int)
    returns (v: byte)
    requires datasrc[..] == s && |s| == width * height && InBounds(width, height, x, y)
    ensures v == Apply(op, s, width, height, x, y, offset)
  {
    match op
    case Erosion =>
      v := WindowMin(datasrc, width, height, x, y, offset);
    case Dilation =>
      v := WindowMax(datasrc, width, height, x, y, offset);
    case BinDilation =>
      v := WindowOr(datasrc, width, height, x, y, offset);
    case BinErosion =>
      v := ErodedPixel(datasrc, s, width, height, x, y, offset);
    case Mean =>
      v := MeanPixel(datasrc, s, width, height, x, y, offset);
    case Midpoint =>
      v := MidpointPixel(datasrc, s, width, height, x, y, offset);
    case Bernsen(cMin, levels) =>
      v := BernsenPixel(datasrc, s, width, height, x, y, offset, cMin, levels);
  }

  /** The pixel body of vc_binary_erode: the window is scanned only when the
      centre is white. */
  method ErodedPixel(datasrc: array<byte>, ghost s: seq<byte>, width: int, height: int,
                     x: int, y: int, offset: int)
    returns (v: byte)
    requires datasrc[..] == s && |s| == width * height && InBounds(width, height, x, y)
    ensures v == Apply(BinErosion, s, width, height, x, y, offset)
  {
    Grid.InRange(width, height, x, y);
    var pos := y * width + x;
    if datasrc[pos] == 255 {
      var erosion := WindowErodes(datasrc, width, height, x, y, offset);
      HasZeroIn(Neighbourhood(s, width, height, x, y, offset));
      if erosion == 1 {
        v := 255;
      } else {
        v := 0;
      }
    } else {
      v := 0;
    }
  }

  /** The pixel body of vc_gray_lowpass_min_filter: `sum / count`. */
  method MeanPixel(datasrc: array<byte>, ghost s: seq<byte>, width: int, height: int,
                   x: int, y: int, offset: int)
    returns (v: byte)
    requires datasrc[..] == s && |s| == width * height && InBounds(width, height, x, y)
    ensures v == Apply(Mean, s, width, height, x, y, offset)
  {
    var sum, count := WindowSum(datasrc, width, height, x, y, offset);
    if count == 0 {
      v := 0;
    } else {
      SumBetween(Neighbourhood(s, width, height, x, y, offset), 0, 255);
      DivBetween(sum, count, 0, 255);
      v := sum / count;
    }
  }

  /** The pixel body of vc_gray_to_binary_midpoint. */
  method MidpointPixel(datasrc: array<byte>, ghost s: seq<byte>, width: int, height: int,
                       x: int, y: int, offset: int)
    returns (v: byte)
    requires datasrc[..] == s && |s| == width * height && InBounds(width, height, x, y)
    ensures v == Apply(Midpoint, s, width, height, x, y, offset)
  {
    var min, max := WindowMinMax(datasrc, width, height, x, y, offset);
    var mean: int := (min as int + max as int) / 2;
    Grid.InRange(width, height, x, y);
    var pos_dst := y * width + x;
    if datasrc[pos_dst] > mean {
      v := 255;
    } else {
      v := 0;
    }
  }

  /** The pixel body of vc_gray_to_binary_bernsen. */
  method BernsenPixel(datasrc: array<byte>, ghost s: seq<byte>, width: int, height: int,
                      x: int, y: int, offset: int, cMin: int, levels: int)
    returns (v: byte)
    requires datasrc[..] == s && |s| == width * height && InBounds(width, height, x, y)
    ensures v == Apply(Bernsen(cMin, levels), s, width, height, x, y, offset)
  {
    var min, max := WindowMinMax(datasrc, width, height, x, y, offset);
    var mean: int := if max as int - min as int <= cMin then levels / 2 else (max as int + min as int) / 2;
    Grid.InRange(width, height, x, y);
    var pos_dst := y * width + x;
    if datasrc[pos_dst] > mean {
      v := 255;
    } else {
      v := 0;
    }
  }

  /** The pixel loop shared by the operators: every pixel of dst that
      corresponds to a pixel of src receives the operator's value. */
  method FilterInto(op: Op, src: Image, dst: Image, offset: int)
    requires src.Valid() && dst.Valid() && src.data != dst.data
    requires src.channels == 1 && src.data.Length <= dst.data.Length
    modifies dst.data
    ensures dst.data[..src.data.Length] == Filtered(op, src.data[..], src.width, src.height, offset)
    ensures dst.data[src.data.Length..] == old(dst.data[src.data.Length..])
  {
    var width, height := src.width, src.height;
    var datasrc, datadst := src.data, dst.data;
    ghost var s := datasrc[..];
    ghost var d := datadst[..];
    ghost var m := Filtered(op, s, width, height, offset);
    Grid.Area(width, height, src.channels);
    var y := 0;
    while y < height
      invariant 0 <= y <= height && 0 <= y * width <= datasrc.Length
      invariant datasrc[..] == s
      invariant forall p :: 0 <= p < y * width ==> datadst[p] == m[p]
      invariant forall p :: y * width <= p < datadst.Length ==> datadst[p] == d[p]
    {
      if width > 0 {
        Grid.InRange(width, height, width - 1, y);
      }
      FilteredRow(op, s, width, height, offset, y);
      FilterRow(op, datasrc, datadst, s, m, width, height, y, offset);
      Grid.NextRow(width, y);
      y := y + 1;
    }
    assert datadst[..datasrc.Length] == m;
  }

  /** One row of the pixel loop (`for (x = 0; x < width; x++)`): the
      samples of row y receive the operator's value. */
  method FilterRow(op: Op, datasrc: array<byte>, datadst: array<byte>, ghost s: seq<byte>, ghost m: seq<byte>,
                  width: int, height: int, y: int, offset: int)
    requires datasrc != datadst && datasrc[..] == s && |s| == width * height && |s| <= datadst.Length
    requires 0 <= y < height && 0 <= y * width && y * width + width <= |m| <= datadst.Length
    requires forall x :: 0 <= x < width ==> m[y * width + x] == Apply(op, s, width, height, x, y, offset)
    modifies datadst
    ensures forall p :: 0 <= p < y * width ==> datadst[p] == old(datadst[p])
    ensures forall p :: y * width <= p < y * width + width ==> datadst[p] == m[p]
    ensures forall p :: y * width + width <= p < datadst.Length ==> datadst[p] == old(datadst[p])
  {
    ghost var d := datadst[..];
    ghost var k := y * width;
    var x := 0;
    while x < width
      invariant 0 <= x <= width && k == y * width + x
      invariant forall p :: 0 <= p < y * width ==> datadst[p] == d[p]
      invariant forall p :: y * width <= p < k ==> datadst[p] == m[p]
      invariant forall p :: k <= p < datadst.Length ==> datadst[p] == d[p]
    {
      var pos := y * width + x;
      var v := PixelValue(op, datasrc, s, width, height, x, y, offset);
      datadst[pos] := v;
      x := x + 1;
      k := k + 1;
    }
  }
}
