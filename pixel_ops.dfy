/** The point operations of the engine: each output sample depends only on
    the input sample(s) at the same position (negatives, channel extraction,
    subtraction, global thresholds), plus the two pixel counts. */
module PixelOps {

  import opened VcTypes
  import opened Samples
  import Grid

  /** The photographic negative of every sample. */
  function Negated(s: seq<byte>): (r: seq<byte>)
    ensures |r| == |s|
  {
    seq(|s|, i requires 0 <= i < |s| => 255 - s[i])
  }

  /** Index of the first sample of the pixel that sample i belongs to, in a
      3-channel buffer. */
  function PixelStart(i: int): (b: int)
    requires 0 <= i
    ensures b == 3 * (i / 3) && b <= i < b + 3
  {
    i - i % 3
  }

  lemma PixelStartOf(k: int, p: int)
    requires 0 <= 3 * k <= p < 3 * k + 3
    ensures PixelStart(p) == 3 * k
  {
  }

  /** Every sample of a 3-channel buffer replaced by channel c of its pixel. */
  function ChannelGray(s: seq<byte>, c: int): (r: seq<byte>)
    requires |s| % 3 == 0 && 0 <= c < 3
    ensures |r| == |s|
  {
    seq(|s|, i requires 0 <= i < |s| => s[PixelStart(i) + c])
  }

  /** Sample-wise difference truncated to `unsigned char`. */
  function Diff(a: seq<byte>, b: seq<byte>): (r: seq<byte>)
    requires |a| <= |b|
    ensures |r| == |a|
  {
    seq(|a|, i requires 0 <= i < |a| => ToByte(a[i] as int - b[i] as int))
  }

  /** 255 where the sample exceeds t, 0 elsewhere. */
  function Thresholded(s: seq<byte>, t: int): (r: seq<byte>)
    ensures |r| == |s|
  {
    seq(|s|, i requires 0 <= i < |s| => if s[i] > t then 255 else 0)
  }

  /** Mean brightness as the global-mean threshold computes it. */
  function Mean(s: seq<byte>): int
    requires |s| > 0
  {
    Sum(s) / |s|
  }

  // ---------------------------------------------------------------------
  // Properties of the point maps

  /** Taking the negative twice gives back the image. */
  lemma NegatedInvolution(s: seq<byte>)
    ensures Negated(Negated(s)) == s
  {
    assert forall i :: 0 <= i < |s| ==> Negated(Negated(s))[i] == s[i];
  }

  /** After channel extraction every pixel is grey: its three samples all
      carry the chosen channel's value. */
  lemma ChannelGrayIsGray(s: seq<byte>, c: int, k: int)
    requires |s| % 3 == 0 && 0 <= c < 3 && 0 <= 3 * k < |s|
    ensures ChannelGray(s, c)[3 * k] == s[3 * k + c]
    ensures ChannelGray(s, c)[3 * k + 1] == s[3 * k + c]
    ensures ChannelGray(s, c)[3 * k + 2] == s[3 * k + c]
  {
    PixelStartOf(k, 3 * k);
    PixelStartOf(k, 3 * k + 1);
    PixelStartOf(k, 3 * k + 2);
  }

  /** Extracting the same channel again changes nothing. */
  lemma ChannelGrayIdempotent(s: seq<byte>, c: int)
    requires |s| % 3 == 0 && 0 <= c < 3
    ensures ChannelGray(ChannelGray(s, c), c) == ChannelGray(s, c)
  {
    var r := ChannelGray(s, c);
    forall i | 0 <= i < |s|
      ensures ChannelGray(r, c)[i] == r[i]
    {
      PixelStartOf(i / 3, PixelStart(i) + c);
    }
  }

  /** Adding the subtrahend back (modulo 256) restores the minuend, so the
      subtraction loses nothing. */
  lemma DiffThenAdd(a: seq<byte>, b: seq<byte>)
    requires |a| <= |b|
    ensures forall i :: 0 <= i < |a| ==> ToByte(Diff(a, b)[i] as int + b[i] as int) == a[i]
  {
    forall i | 0 <= i < |a|
      ensures ToByte(Diff(a, b)[i] as int + b[i] as int) == a[i]
    {
      var d := a[i] as int - b[i] as int;
      assert d == 256 * (d / 256) + d % 256;
      assert Diff(a, b)[i] as int + b[i] as int == a[i] - 256 * (d / 256);
    }
  }

  /** Where the subtrahend does not exceed the minuend no wrap-around
      happens: the result is the plain difference. In particular an image
      minus itself is black. */
  lemma DiffExact(a: seq<byte>, b: seq<byte>)
    requires |a| <= |b|
    ensures forall i :: 0 <= i < |a| && b[i] <= a[i] ==> Diff(a, b)[i] == a[i] - b[i]
    ensures forall i :: 0 <= i < |a| ==> Diff(a, a)[i] == 0
  {
    forall i | 0 <= i < |a|
      ensures Diff(a, a)[i] == 0
    {
      assert Diff(a, a)[i] == ToByte(0);
    }
  }

  /** A thresholded image is binary, and it has one white pixel per sample
      above the threshold. */
  lemma {:induction false} ThresholdedArea(s: seq<byte>, t: int)
    ensures forall i :: 0 <= i < |s| ==> Binary(Thresholded(s, t)[i])
    ensures CountBelow(Thresholded(s, t), 1) == CountBelow(s, t + 1)
  {
    if s != [] {
      var n := |s| - 1;
      assert Thresholded(s, t)[..n] == Thresholded(s[..n], t);
      ThresholdedArea(s[..n], t);
    }
  }

  /** The global mean lies between the darkest and the brightest sample, so
      the darkest pixel always turns black. */
  lemma MeanThresholdHasBackground(s: seq<byte>)
    requires |s| > 0
    ensures MinOf(s) <= Mean(s) <= MaxOf(s)
    ensures exists i :: 0 <= i < |s| && Thresholded(s, Mean(s))[i] == 0
  {
    MinOfIsLeast(s);
    MaxOfIsGreatest(s);
    SumBetween(s, MinOf(s), MaxOf(s));
    DivBetween(Sum(s), |s|, MinOf(s), MaxOf(s));
    var i :| 0 <= i < |s| && s[i] == MinOf(s);
    assert Thresholded(s, Mean(s))[i] == 0;
  }

  /** When no sample lies in [t1, t2) the two counts agree. */
  lemma {:induction false} CountBelowGap(s: seq<byte>, t1: int, t2: int)
    requires t1 <= t2
    requires forall i :: 0 <= i < |s| ==> !(t1 <= s[i] < t2)
    ensures CountBelow(s, t1) == CountBelow(s, t2)
  {
    if s != [] {
      CountBelowGap(s[..|s| - 1], t1, t2);
    }
  }

  /** On a binary image the brain-area count (samples below 11) and the
      segmentation count (non-zero samples) split the image between them. */
  lemma AreasOfBinary(s: seq<byte>)
    requires forall i :: 0 <= i < |s| ==> Binary(s[i])
    ensures CountBelow(s, 11) + (|s| - CountBelow(s, 1)) == |s|
  {
    CountBelowGap(s, 1, 11);
  }

  // ---------------------------------------------------------------------
  // The operations

  /** vc_gray_negative. */
  method GrayNegative(srcdst: Image) returns (ok: bool)
    requires srcdst.Valid()
    modifies srcdst.data
    ensures ok <==> srcdst.width > 0 && srcdst.height > 0 && srcdst.channels == 1
    ensures ok ==> srcdst.data[..] == Negated(old(srcdst.data[..]))
    ensures !ok ==> srcdst.data[..] == old(srcdst.data[..])
  {
    var data := srcdst.data;
    var width, height := srcdst.width, srcdst.height;
    var bytesperline := srcdst.width * srcdst.channels;
    var channels := srcdst.channels;
    if width <= 0 || height <= 0 {
      return false;
    }
    if channels != 1 {
      return false;
    }
    ghost var s := data[..];
    ghost var k := 0;
    var y := 0;
    while y < height
      invariant 0 <= y <= height && k == y * width && 0 <= k <= data.Length
      invariant forall p :: 0 <= p < k ==> data[p] == 255 - s[p]
      invariant forall p :: k <= p < data.Length ==> data[p] == s[p]
    {
      var x := 0;
      while x < width
        invariant 0 <= x <= width && k == y * width + x && 0 <= k <= data.Length
        invariant forall p :: 0 <= p < k ==> data[p] == 255 - s[p]
        invariant forall p :: k <= p < data.Length ==> data[p] == s[p]
      {
        var pos := y * bytesperline + x * channels;
        Grid.InRange(width, height, x, y);
        assert pos == k;
        data[pos] := 255 - data[pos];
        x := x + 1;
        k := k + 1;
      }
      Grid.NextRow(width, y);
      y := y + 1;
    }
    Grid.Area(width, height, channels);
    return true;
  }

  /** vc_rgb_negative: all three samples of every pixel are inverted. */
  method RgbNegative(srcdst: Image) returns (ok: bool)
    requires srcdst.Valid()
    modifies srcdst.data
    ensures ok <==> srcdst.width > 0 && srcdst.height > 0 && srcdst.channels == 3
    ensures ok ==> srcdst.data[..] == Negated(old(srcdst.data[..]))
    ensures !ok ==> srcdst.data[..] == old(srcdst.data[..])
  {
    var data := srcdst.data;
    var width, height := srcdst.width, srcdst.height;
    var bytesperline := srcdst.width * srcdst.channels;
    var channels := srcdst.channels;
    if width <= 0 || height <= 0 {
      return false;
    }
    if channels != 3 {
      return false;
    }
    ghost var s := data[..];
    ghost var k := 0;
    var y := 0;
    while y < height
      invariant 0 <= y <= height && k == y * width && 0 <= 3 * k <= data.Length
      invariant forall p :: 0 <= p < 3 * k ==> data[p] == 255 - s[p]
      invariant forall p :: 3 * k <= p < data.Length ==> data[p] == s[p]
    {
      var x := 0;
      while x < width
        invariant 0 <= x <= width && k == y * width + x && 0 <= 3 * k <= data.Length
        invariant forall p :: 0 <= p < 3 * k ==> data[p] == 255 - s[p]
        invariant forall p :: 3 * k <= p < data.Length ==> data[p] == s[p]
      {
        var pos := y * bytesperline + x * channels;
        Grid.Scaled(width, height, 3, x, y);
        assert pos == 3 * k;
        data[pos] := 255 - data[pos];
        data[pos + 1] := 255 - data[pos + 1];
        data[pos + 2] := 255 - data[pos + 2];
        x := x + 1;
        k := k + 1;
      }
      Grid.NextRow(width, y);
      y := y + 1;
    }
    Grid.Area(width, height, channels);
    return true;
  }

  /** The first k pixels of d carry channel c of s in all three samples;
      the rest of d is still s. */
  predicate CopiedUpTo(d: seq<byte>, s: seq<byte>, c: int, k: int)
    requires |d| == |s| && |s| % 3 == 0 && 0 <= c < 3 && 0 <= 3 * k <= |s|
  {
    (forall p :: 0 <= p < 3 * k ==> d[p] == s[PixelStart(p) + c]) &&
    (forall p :: 3 * k <= p < |d| ==> d[p] == s[p])
  }

  /** Copying channel c over the two other samples of pixel k extends the
      copied prefix by one pixel. */
  lemma CopyStep(d: seq<byte>, s: seq<byte>, c: int, k: int, pos: int, a: int, b: int)
    requires |d| == |s| && |s| % 3 == 0 && 0 <= c < 3 && 0 <= 3 * k && 3 * k + 3 <= |s|
    requires pos == 3 * k && {a, b, c} == {0, 1, 2}
    requires CopiedUpTo(d, s, c, k)
    ensures CopiedUpTo(d[pos + a := d[pos + c]][pos + b := d[pos + c]], s, c, k + 1)
  {
    PixelStartOf(k, 3 * k);
    PixelStartOf(k, 3 * k + 1);
    PixelStartOf(k, 3 * k + 2);
  }

  /** Once every pixel is copied the buffer is the channel's grey image. */
  lemma CopiedAll(d: seq<byte>, s: seq<byte>, c: int, k: int)
    requires |d| == |s| && |s| % 3 == 0 && 0 <= c < 3 && 3 * k == |s|
    requires CopiedUpTo(d, s, c, k)
    ensures d == ChannelGray(s, c)
  {
  }

  /** The two stores of one pixel: samples a and b receive sample c. */
  method CopyPixel(data: array<byte>, pos: int, a: int, b: int, c: int)
    requires 0 <= pos && pos + 3 <= data.Length && 0 <= a < 3 && 0 <= b < 3 && 0 <= c < 3
    modifies data
    ensures data[..] == old(data[..])[pos + a := old(data[..])[pos + c]][pos + b := old(data[..])[pos + c]]
  {
    data[pos + a] := data[pos + c];
    data[pos + b] := data[pos + c];
  }

  /** The loop shared by vc_rgb_get_red_gray, _green_gray and _blue_gray:
      the two other samples of every pixel, in ascending order, receive
      channel c. */
  method CopyChannel(srcdst: Image, c: int)
    requires srcdst.Valid() && srcdst.channels == 3 && 0 <= c < 3
    modifies srcdst.data
    ensures srcdst.data[..] == ChannelGray(old(srcdst.data[..]), c)
  {
    var data := srcdst.data;
    var width, height := srcdst.width, srcdst.height;
    var bytesperline := srcdst.width * srcdst.channels;
    var channels := srcdst.channels;
    var a := if c == 0 then 1 else 0;
    var b := if c == 2 then 1 else 2;
    ghost var s := data[..];
    ghost var k := 0;
    Grid.Area(width, height, channels);
    var y := 0;
    while y < height
      invariant 0 <= y <= height && k == y * width && 0 <= 3 * k <= data.Length
      invariant CopiedUpTo(data[..], s, c, k)
    {
      var x := 0;
      while x < width
        invariant 0 <= x <= width && k == y * width + x && 0 <= 3 * k <= data.Length
        invariant CopiedUpTo(data[..], s, c, k)
      {
        var pos := y * bytesperline + x * channels;
        Grid.Scaled(width, height, 3, x, y);
        assert pos == 3 * k;
        ghost var d := data[..];
        CopyStep(d, s, c, k, pos, a, b);
        CopyPixel(data, pos, a, b, c);
        x := x + 1;
        k := k + 1;
      }
      Grid.NextRow(width, y);
      y := y + 1;
    }
    CopiedAll(data[..], s, c, k);
  }

  /** vc_rgb_get_red_gray. */
  method RgbGetRedGray(srcdst: Image) returns (ok: bool)
    requires srcdst.Valid()
    modifies srcdst.data
    ensures ok <==> srcdst.width > 0 && srcdst.height > 0 && srcdst.channels == 3
    ensures ok ==> srcdst.data[..] == ChannelGray(old(srcdst.data[..]), 0)
    ensures !ok ==> srcdst.data[..] == old(srcdst.data[..])
  {
    if srcdst.width <= 0 || srcdst.height <= 0 || srcdst.channels != 3 {
      return false;
    }
    CopyChannel(srcdst, 0);
    return true;
  }

  /** vc_rgb_get_green_gray. */
  method RgbGetGreenGray(srcdst: Image) returns (ok: bool)
    requires srcdst.Valid()
    modifies srcdst.data
    ensures ok <==> srcdst.width > 0 && srcdst.height > 0 && srcdst.channels == 3
    ensures ok ==> srcdst.data[..] == ChannelGray(old(srcdst.data[..]), 1)
    ensures !ok ==> srcdst.data[..] == old(srcdst.data[..])
  {
    if srcdst.width <= 0 || srcdst.height <= 0 || srcdst.channels != 3 {
      return false;
    }
    CopyChannel(srcdst, 1);
    return true;
  }

  /** vc_rgb_get_blue_gray. */
  method RgbGetBlueGray(srcdst: Image) returns (ok: bool)
    requires srcdst.Valid()
    modifies srcdst.data
    ensures ok <==> srcdst.width > 0 && srcdst.height > 0 && srcdst.channels == 3
    ensures ok ==> srcdst.data[..] == ChannelGray(old(srcdst.data[..]), 2)
    ensures !ok ==> srcdst.data[..] == old(srcdst.data[..])
  {
    if srcdst.width <= 0 || srcdst.height <= 0 || srcdst.channels != 3 {
      return false;
    }
    CopyChannel(srcdst, 2);
    return true;
  }

  /** vc_subtract: dst = src - src2 sample by sample, wrapping modulo 256.
      Only src's size and the two channel counts are checked; src2 and dst
      are indexed with src's geometry, so they must be at least that large. */
  method Subtract(src: Image, src2: Image, dst: Image) returns (ok: bool)
    requires src.Valid() && src2.Valid() && dst.Valid()
    requires src.width > 0 && src.height > 0 && src.channels == 1 && dst.channels == 1 ==>
      src.data.Length <= src2.data.Length && src.data.Length <= dst.data.Length
    modifies dst.data
    ensures ok <==> src.width > 0 && src.height > 0 && src.channels == 1 && dst.channels == 1
    ensures ok ==>
      dst.data[..src.data.Length] == Diff(old(src.data[..]), old(src2.data[..])) &&
      dst.data[src.data.Length..] == old(dst.data[src.data.Length..])
    ensures !ok ==> dst.data[..] == old(dst.data[..])
  {
    var datasrc := src.data;
    var datadst := dst.data;
    var width, height := src.width, src.height;
    var channels_src := src.channels;
    var channels_dst := dst.channels;
    if src.width <= 0 || src.height <= 0 {
      return false;
    }
    if src.channels != 1 || dst.channels != 1 {
      return false;
    }
    var bytesperline_src := width * channels_src;
    var bytesperline_dst := width * channels_dst;
    ghost var a, b, d := datasrc[..], src2.data[..], datadst[..];
    ghost var n := datasrc.Length;
    ghost var k := 0;
    var y := 0;
    while y < height
      invariant 0 <= y <= height && k == y * width && 0 <= k <= n
      invariant forall p :: 0 <= p < k ==> datadst[p] == ToByte(a[p] as int - b[p] as int)
      invariant forall p :: k <= p < datadst.Length ==> datadst[p] == d[p]
      invariant forall p :: k <= p < n ==> datasrc[p] == a[p] && src2.data[p] == b[p]
    {
      var x := 0;
      while x < width
        invariant 0 <= x <= width && k == y * width + x && 0 <= k <= n
        invariant forall p :: 0 <= p < k ==> datadst[p] == ToByte(a[p] as int - b[p] as int)
        invariant forall p :: k <= p < datadst.Length ==> datadst[p] == d[p]
        invariant forall p :: k <= p < n ==> datasrc[p] == a[p] && src2.data[p] == b[p]
      {
        var pos_src := y * bytesperline_src + x * channels_src;
        var pos_dst := y * bytesperline_dst + x * channels_dst;
        Grid.InRange(width, height, x, y);
        assert pos_src == k && pos_dst == k;
        datadst[pos_dst] := ToByte(datasrc[pos_src] as int - src2.data[pos_src] as int);
        x := x + 1;
        k := k + 1;
      }
      Grid.NextRow(width, y);
      y := y + 1;
    }
    Grid.Area(width, height, channels_src);
    assert datadst[..n] == Diff(a, b);
    return true;
  }

  /** vc_gray_to_binary: 255 where the sample exceeds the threshold. */
  method GrayToBinary(src: Image, dst: Image, threshold: int) returns (ok: bool)
    requires src.Valid() && dst.Valid()
    modifies dst.data
    ensures ok <==> src.width == dst.width && src.height == dst.height && src.channels == 1 && dst.channels == 1
    ensures ok ==> dst.data[..] == Thresholded(old(src.data[..]), threshold)
    ensures !ok ==> dst.data[..] == old(dst.data[..])
  {
    if src.width != dst.width || src.height != dst.height || src.channels != 1 || dst.channels != 1 {
      return false;
    }
    ThresholdInto(src, dst, threshold);
    return true;
  }

  /** The thresholding loop shared by vc_gray_to_binary and
      vc_gray_to_binary_global_mean. */
  method ThresholdInto(src: Image, dst: Image, threshold: int)
    requires src.Valid() && dst.Valid()
    requires src.width == dst.width && src.height == dst.height && src.channels == 1 && dst.channels == 1
    modifies dst.data
    ensures dst.data[..] == Thresholded(old(src.data[..]), threshold)
  {
    var datasrc := src.data;
    var datadst := dst.data;
    var width, height := src.width, src.height;
    ghost var s := datasrc[..];
    ghost var k := 0;
    var y := 0;
    while y < height
      invariant 0 <= y <= height && k == y * width && 0 <= k <= datadst.Length
      invariant forall p :: 0 <= p < k ==> datadst[p] == (if s[p] > threshold then 255 else 0)
      invariant forall p :: k <= p < datasrc.Length ==> datasrc[p] == s[p]
    {
      var x := 0;
      while x < width
        invariant 0 <= x <= width && k == y * width + x && 0 <= k <= datadst.Length
        invariant forall p :: 0 <= p < k ==> datadst[p] == (if s[p] > threshold then 255 else 0)
        invariant forall p :: k <= p < datasrc.Length ==> datasrc[p] == s[p]
      {
        var pos_src := y * width + x;
        var pos_dst := y * width + x;
        Grid.InRange(width, height, x, y);
        assert pos_src == k;
        if datasrc[pos_src] > threshold {
          datadst[pos_dst] := 255;
        } else {
          datadst[pos_dst] := 0;
        }
        x := x + 1;
        k := k + 1;
      }
      Grid.NextRow(width, y);
      y := y + 1;
    }
    Grid.Area(width, height, dst.channels);
  }

  /** vc_gray_to_binary_global_mean: thresholds at the integer mean of all
      samples. The C code divides by width * height and accumulates in an
      `int`, so an empty image or a sum beyond INT_MAX is undefined; the
      model asks the caller to exclude both. */
  method GrayToBinaryGlobalMean(src: Image, dst: Image) returns (ok: bool)
    requires src.Valid() && dst.Valid()
    requires src.width == dst.width && src.height == dst.height && src.channels == 1 && dst.channels == 1 ==>
      src.data.Length > 0 && Sum(src.data[..]) <= 0x7FFF_FFFF
    modifies dst.data
    ensures ok <==> src.width == dst.width && src.height == dst.height && src.channels == 1 && dst.channels == 1
    ensures ok ==> |old(src.data[..])| > 0 && dst.data[..] == Thresholded(old(src.data[..]), Mean(old(src.data[..])))
    ensures !ok ==> dst.data[..] == old(dst.data[..])
  {
    if src.width != dst.width || src.height != dst.height || src.channels != 1 || dst.channels != 1 {
      return false;
    }
    var datasrc := src.data;
    var width, height := src.width, src.height;
    ghost var s := datasrc[..];
    var mean := 0;
    var count := 0;
    ghost var k := 0;
    var y := 0;
    while y < height
      invariant 0 <= y <= height && k == y * width && 0 <= k <= datasrc.Length
      invariant datasrc[..] == s && count == Sum(s[..k])
    {
      var x := 0;
      while x < width
        invariant 0 <= x <= width && k == y * width + x && 0 <= k <= datasrc.Length
        invariant datasrc[..] == s && count == Sum(s[..k])
      {
        var pos_src := y * width + x;
        var pos_dst := y * width + x;
        Grid.InRange(width, height, x, y);
        assert pos_src == k;
        SumSnoc(s, k);
        count := count + datasrc[pos_src];
        x := x + 1;
        k := k + 1;
      }
      Grid.NextRow(width, y);
      y := y + 1;
    }
    Grid.Area(width, height, src.channels);
    assert s[..k] == s;
    mean := count / (width * height);
    assert mean == Mean(s);
    ThresholdInto(src, dst, mean);
    return true;
  }

  /** vc_segmentation_area: the number of non-zero samples; 0 for an image
      that is not single-channel. */
  method SegmentationArea(src: Image) returns (count: int)
    requires src.Valid()
    ensures src.channels != 1 ==> count == 0
    ensures src.channels == 1 ==> count == src.data.Length - CountBelow(src.data[..], 1)
  {
    if src.channels != 1 {
      return 0;
    }
    var data := src.data;
    var width, height := src.width, src.height;
    ghost var s := data[..];
    count := 0;
    ghost var k := 0;
    var y := 0;
    while y < height
      invariant 0 <= y <= height && k == y * width && 0 <= k <= data.Length
      invariant count + CountBelow(s[..k], 1) == k
    {
      var x := 0;
      while x < width
        invariant 0 <= x <= width && k == y * width + x && 0 <= k <= data.Length
        invariant count + CountBelow(s[..k], 1) == k
      {
        var pos := y * width + x;
        Grid.InRange(width, height, x, y);
        assert pos == k;
        CountBelowSnoc(s, k, 1);
        if data[pos] != 0 {
          count := count + 1;
        }
        x := x + 1;
        k := k + 1;
      }
      Grid.NextRow(width, y);
      y := y + 1;
    }
    Grid.Area(width, height, src.channels);
    assert s[..k] == s;
  }

  /** vc_binary_area: the number of samples below 11; 0 for an image that
      is not single-channel. */
  method BinaryArea(src: Image) returns (count: int)
    requires src.Valid()
    ensures src.channels != 1 ==> count == 0
    ensures src.channels == 1 ==> count == CountBelow(src.data[..], 11)
  {
    if src.channels != 1 {
      return 0;
    }
    var data := src.data;
    var width, height := src.width, src.height;
    ghost var s := data[..];
    count := 0;
    ghost var k := 0;
    var y := 0;
    while y < height
      invariant 0 <= y <= height && k == y * width && 0 <= k <= data.Length
      invariant count == CountBelow(s[..k], 11)
    {
      var x := 0;
      while x < width
        invariant 0 <= x <= width && k == y * width + x && 0 <= k <= data.Length
        invariant count == CountBelow(s[..k], 11)
      {
        var pos := y * width + x;
        Grid.InRange(width, height, x, y);
        assert pos == k;
        CountBelowSnoc(s, k, 11);
        if data[pos] < 11 {
          count := count + 1;
        }
        x := x + 1;
        k := k + 1;
      }
      Grid.NextRow(width, y);
      y := y + 1;
    }
    Grid.Area(width, height, src.channels);
    assert s[..k] == s;
  }
}
