/** The window filters of vc.c that are not morphology: the integer window
    mean (vc_gray_lowpass_min_filter), and the local thresholds at the
    window midpoint (vc_gray_to_binary_midpoint) and after Bernsen's contrast
    test (vc_gray_to_binary_bernsen). */
module Filters {

  import opened VcTypes
  import opened Samples
  import opened Window
  import opened WindowOps
  import PixelOps
  import Grid

  /** The checks of the two low-pass filters, in the order they are made:
      a non-empty single-channel source and an odd kernel of at least 3. */
  predicate FilterArgs(src: Image, kernel: int)
  {
    src.width > 0 && src.height > 0 && src.channels == 1 && kernel >= 3 && kernel % 2 == 1
  }

  /** The checks of the two local thresholds: equal geometry, both grey. */
  predicate ThresholdArgs(src: Image, dst: Image)
  {
    src.width == dst.width && src.height == dst.height && src.channels == 1 && dst.channels == 1
  }

  /** `memset(data, 0, n)`. */
  method ZeroFill(data: array<byte>, n: int)
    requires 0 <= n <= data.Length
    modifies data
    ensures forall i :: 0 <= i < n ==> data[i] == 0
    ensures forall i :: n <= i < data.Length ==> data[i] == old(data[i])
  {
    var i := 0;
    while i < n
      invariant 0 <= i <= n
      invariant forall k :: 0 <= k < i ==> data[k] == 0
      invariant forall k :: i <= k < data.Length ==> data[k] == old(data[k])
    {
      data[i] := 0;
      i := i + 1;
    }
  }

  // ---------------------------------------------------------------------
  // The operations

  /** vc_gray_lowpass_min_filter: dst is cleared, then every pixel receives
      the truncated mean of its border-clamped window. dst's own geometry is
      not checked, so it must hold at least as many samples as src. */
  method LowpassMean(src: Image, dst: Image, kernel: int) returns (ok: bool)
    requires src.Valid() && dst.Valid() && src.data != dst.data
    requires FilterArgs(src, kernel) ==> src.data.Length <= dst.data.Length
    modifies dst.data
    ensures ok <==> FilterArgs(src, kernel)
    ensures ok ==> dst.data[..src.data.Length] == Filtered(Mean, src.data[..], src.width, src.height, Offset(kernel))
    ensures ok ==> dst.data[src.data.Length..] == old(dst.data[src.data.Length..])
    ensures !ok ==> dst.data[..] == old(dst.data[..])
  {
    var size := CDiv(kernel - 1, 2);
    if src.width <= 0 || src.height <= 0 {
      return false;
    }
    if src.channels != 1 {
      return false;
    }
    if kernel < 3 {
      return false;
    }
    if kernel % 2 == 0 {
      return false;
    }
    assert src.bytesperline * src.height == src.data.Length;
    ZeroFill(dst.data, src.bytesperline * src.height);
    FilterInto(Mean, src, dst, size);
    return true;
  }

  /** vc_gray_to_binary_midpoint: 255 where the sample exceeds the mean of
      its window's minimum and maximum, 0 elsewhere. */
  method GrayToBinaryMidpoint(src: Image, dst: Image, kernel: int) returns (ok: bool)
    requires src.Valid() && dst.Valid() && src.data != dst.data
    modifies dst.data
    ensures ok <==> ThresholdArgs(src, dst)
    ensures ok ==> dst.data[..] == Filtered(Midpoint, src.data[..], src.width, src.height, Offset(kernel))
    ensures !ok ==> dst.data[..] == old(dst.data[..])
  {
    if src.width != dst.width || src.height != dst.height || src.channels != 1 || dst.channels != 1 {
      return false;
    }
    var offset := CDiv(kernel - 1, 2);
    FilterInto(Midpoint, src, dst, offset);
    assert dst.data[..] == dst.data[..src.data.Length];
    return true;
  }

  /** vc_gray_to_binary_bernsen: as the midpoint threshold, except that a
      window whose contrast `max - min` is at most cMin is thresholded at
      half of src's levels. */
  method GrayToBinaryBernsen(src: Image, dst: Image, kernel: int, cMin: int) returns (ok: bool)
    requires src.Valid() && dst.Valid() && src.data != dst.data
    modifies dst.data
    ensures ok <==> ThresholdArgs(src, dst)
    ensures ok ==> (dst.data[..] ==
      Filtered(Bernsen(cMin, src.levels), src.data[..], src.width, src.height, Offset(kernel)))
    ensures !ok ==> dst.data[..] == old(dst.data[..])
  {
    if src.width != dst.width || src.height != dst.height || src.channels != 1 || dst.channels != 1 {
      return false;
    }
    var offset := CDiv(kernel - 1, 2);
    FilterInto(Bernsen(cMin, src.levels), src, dst, offset);
    assert dst.data[..] == dst.data[..src.data.Length];
    return true;
  }

  // ---------------------------------------------------------------------
  // Properties

  /** A window that is not empty contains its centre. */
  lemma CentreIn(s: seq<byte>, w: int, h: int, x: int, y: int, off: int)
    requires |s| == w * h && InBounds(w, h, x, y) && off >= 0
    ensures At(s, w, h, x, y) in Neighbourhood(s, w, h, x, y, off)
  {
    NeighbourhoodHas(s, w, h, x, y, off, x, y);
  }

  /** The truncated mean lies between the minimum and the maximum. */
  lemma MeanBetween(n: seq<byte>)
    requires n != []
    ensures MinOf(n) <= MeanOf(n) <= MaxOf(n)
  {
    MinOfIsLeast(n);
    MaxOfIsGreatest(n);
    SumBetween(n, MinOf(n), MaxOf(n));
    DivBetween(Sum(n), |n|, MinOf(n), MaxOf(n));
  }

  /** Pixel by pixel, the mean filter lies between grey-level erosion and
      dilation with the same kernel. */
  lemma MeanBetweenErodeDilate(s: seq<byte>, w: int, h: int, off: int)
    requires 0 <= w && |s| == w * h && off >= 0
    ensures forall p :: 0 <= p < |s| ==>
      Filtered(Erosion, s, w, h, off)[p] <= Filtered(Mean, s, w, h, off)[p] <= Filtered(Dilation, s, w, h, off)[p]
  {
    forall p | 0 <= p < |s|
      ensures Filtered(Erosion, s, w, h, off)[p] <= Filtered(Mean, s, w, h, off)[p] <= Filtered(Dilation, s, w, h, off)[p]
    {
      Grid.FromFlat(w, h, p);
      CentreIn(s, w, h, p % w, p / w, off);
      MeanBetween(Neighbourhood(s, w, h, p % w, p / w, off));
    }
  }

  /** Every sample of a window of a flat image is the flat value. */
  lemma FlatWindow(s: seq<byte>, w: int, h: int, x: int, y: int, off: int, c: byte)
    requires |s| == w * h && forall i :: 0 <= i < |s| ==> s[i] == c
    ensures forall i :: 0 <= i < |Neighbourhood(s, w, h, x, y, off)| ==> Neighbourhood(s, w, h, x, y, off)[i] == c
  {
    var n := Neighbourhood(s, w, h, x, y, off);
    forall i | 0 <= i < |n|
      ensures n[i] == c
    {
      var xx, yy := NeighbourhoodFrom(s, w, h, x, y, off, n[i]);
      AtIndex(s, w, h, xx, yy);
    }
  }

  /** The mean filter leaves an image of one flat value unchanged. */
  lemma MeanFlat(s: seq<byte>, w: int, h: int, off: int, c: byte)
    requires 0 <= w && |s| == w * h && off >= 0
    requires forall i :: 0 <= i < |s| ==> s[i] == c
    ensures Filtered(Mean, s, w, h, off) == s
  {
    forall p | 0 <= p < |s|
      ensures Filtered(Mean, s, w, h, off)[p] == s[p]
    {
      Grid.FromFlat(w, h, p);
      var n := Neighbourhood(s, w, h, p % w, p / w, off);
      CentreIn(s, w, h, p % w, p / w, off);
      FlatWindow(s, w, h, p % w, p / w, off, c);
      SumBetween(n, c, c);
      DivBetween(Sum(n), |n|, c, c);
    }
  }

  /** The midpoint threshold sends a window's strict maximum to 255 and its
      minimum to 0 (the window is not empty, so its minimum is at most its
      maximum). */
  lemma MidpointExtremes(s: seq<byte>, w: int, h: int, x: int, y: int, off: int)
    requires |s| == w * h && InBounds(w, h, x, y) && off >= 0
    ensures (At(s, w, h, x, y) == MaxOf(Neighbourhood(s, w, h, x, y, off)) > MinOf(Neighbourhood(s, w, h, x, y, off))
      ==> Apply(Midpoint, s, w, h, x, y, off) == 255)
    ensures At(s, w, h, x, y) == MinOf(Neighbourhood(s, w, h, x, y, off)) ==> Apply(Midpoint, s, w, h, x, y, off) == 0
  {
    CentreIn(s, w, h, x, y, off);
    MaxOfIsGreatest(Neighbourhood(s, w, h, x, y, off));
  }

  /** With enough contrast in the window, Bernsen's threshold is the
      midpoint threshold. */
  lemma BernsenContrast(s: seq<byte>, w: int, h: int, x: int, y: int, off: int, cMin: int, levels: int)
    requires |s| == w * h && InBounds(w, h, x, y)
    requires MaxOf(Neighbourhood(s, w, h, x, y, off)) - MinOf(Neighbourhood(s, w, h, x, y, off)) > cMin
    ensures Apply(Bernsen(cMin, levels), s, w, h, x, y, off) == Apply(Midpoint, s, w, h, x, y, off)
  {
  }

  /** When no window can exceed the contrast bound, Bernsen's threshold is
      the global threshold at half the levels. */
  lemma BernsenFlat(s: seq<byte>, w: int, h: int, off: int, cMin: int, levels: int)
    requires 0 <= w && |s| == w * h && cMin >= 255
    ensures Filtered(Bernsen(cMin, levels), s, w, h, off) == PixelOps.Thresholded(s, levels / 2)
  {
    forall p | 0 <= p < |s|
      ensures Filtered(Bernsen(cMin, levels), s, w, h, off)[p] == PixelOps.Thresholded(s, levels / 2)[p]
    {
      Grid.FromFlat(w, h, p);
      AtIndex(s, w, h, p % w, p / w);
    }
  }

  /** The output of both local thresholds is binary. */
  lemma ThresholdsBinary(s: seq<byte>, w: int, h: int, off: int, cMin: int, levels: int)
    requires 0 <= w && |s| == w * h
    ensures forall p :: 0 <= p < |s| ==> Binary(Filtered(Midpoint, s, w, h, off)[p])
    ensures forall p :: 0 <= p < |s| ==> Binary(Filtered(Bernsen(cMin, levels), s, w, h, off)[p])
  {
    forall p | 0 <= p < |s|
      ensures Binary(Filtered(Midpoint, s, w, h, off)[p])
      ensures Binary(Filtered(Bernsen(cMin, levels), s, w, h, off)[p])
    {
      Grid.FromFlat(w, h, p);
    }
  }
}
