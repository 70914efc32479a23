/** What the morphology operators promise: erosion lies below the image and
    dilation above it, grey-level and binary opening never brighten a pixel
    and closing never darkens one, and erosion is dilation of the negative,
    negated. */
module MorphologyLaws {

  import opened VcTypes
  import opened Samples
  import opened Window
  import opened WindowOps
  import PixelOps
  import Grid

  /** Every sample of a binary image is 0 or 255. */
  predicate BinaryImage(s: seq<byte>)
  {
    forall p :: 0 <= p < |s| ==> Binary(s[p])
  }

  // ---------------------------------------------------------------------
  // Helpers about single samples and windows

  lemma NegatedAt(s: seq<byte>, w: int, h: int, x: int, y: int)
    requires |s| == w * h && InBounds(w, h, x, y)
    ensures At(PixelOps.Negated(s), w, h, x, y) == 255 - At(s, w, h, x, y)
  {
    AtIndex(s, w, h, x, y);
    AtIndex(PixelOps.Negated(s), w, h, x, y);
  }

  /** The window of a binary image holds only 0 and 255. */
  lemma NeighbourhoodBinary(s: seq<byte>, w: int, h: int, x: int, y: int, off: int)
    requires |s| == w * h && BinaryImage(s)
    ensures forall i :: 0 <= i < |Neighbourhood(s, w, h, x, y, off)| ==>
      Binary(Neighbourhood(s, w, h, x, y, off)[i])
  {
    var n := Neighbourhood(s, w, h, x, y, off);
    forall i | 0 <= i < |n|
      ensures Binary(n[i])
    {
      var xx, yy := NeighbourhoodFrom(s, w, h, x, y, off, n[i]);
      AtIndex(s, w, h, xx, yy);
    }
  }

  /** The square relation is symmetric. */
  lemma NearSymmetric(x: int, y: int, off: int, xx: int, yy: int)
    requires Near(x, y, off, xx, yy)
    ensures Near(xx, yy, off, x, y)
  {
  }

  // ---------------------------------------------------------------------
  // Grey-level laws

  /** For a non-negative half-width the window holds the centre, so erosion
      never brightens and dilation never darkens a pixel. */
  lemma ErosionBelowDilation(s: seq<byte>, w: int, h: int, off: int, x: int, y: int)
    requires 0 <= w && |s| == w * h && InBounds(w, h, x, y) && off >= 0
    ensures At(Filtered(Erosion, s, w, h, off), w, h, x, y) <= At(s, w, h, x, y)
    ensures At(s, w, h, x, y) <= At(Filtered(Dilation, s, w, h, off), w, h, x, y)
  {
    FilteredAt(Erosion, s, w, h, off, x, y);
    FilteredAt(Dilation, s, w, h, off, x, y);
    var n := Neighbourhood(s, w, h, x, y, off);
    NeighbourhoodHas(s, w, h, x, y, off, x, y);
    MinOfIsLeast(n);
    MaxOfIsGreatest(n);
  }

  /** Grey-level opening (vc_grayscale_open) is anti-extensive: for any
      kernel, no pixel of the result is brighter than the source pixel. */
  lemma GrayOpenAntiExtensive(s: seq<byte>, w: int, h: int, off: int, x: int, y: int)
    requires 0 <= w && |s| == w * h && InBounds(w, h, x, y)
    ensures At(Filtered(Dilation, Filtered(Erosion, s, w, h, off), w, h, off), w, h, x, y) <= At(s, w, h, x, y)
  {
    var e := Filtered(Erosion, s, w, h, off);
    FilteredAt(Dilation, e, w, h, off, x, y);
    var n := Neighbourhood(e, w, h, x, y, off);
    if n != [] {
      MaxOfIsGreatest(n);
      var xx, yy := NeighbourhoodFrom(e, w, h, x, y, off, MaxOf(n));
      FilteredAt(Erosion, s, w, h, off, xx, yy);
      NearSymmetric(x, y, off, xx, yy);
      NeighbourhoodHas(s, w, h, xx, yy, off, x, y);
      MinOfIsLeast(Neighbourhood(s, w, h, xx, yy, off));
    }
  }

  /** Grey-level closing (vc_grayscale_close) is extensive: for any kernel,
      no pixel of the result is darker than the source pixel. */
  lemma GrayCloseExtensive(s: seq<byte>, w: int, h: int, off: int, x: int, y: int)
    requires 0 <= w && |s| == w * h && InBounds(w, h, x, y)
    ensures At(s, w, h, x, y) <= At(Filtered(Erosion, Filtered(Dilation, s, w, h, off), w, h, off), w, h, x, y)
  {
    var d := Filtered(Dilation, s, w, h, off);
    FilteredAt(Erosion, d, w, h, off, x, y);
    var n := Neighbourhood(d, w, h, x, y, off);
    if n != [] {
      MinOfIsLeast(n);
      var xx, yy := NeighbourhoodFrom(d, w, h, x, y, off, MinOf(n));
      FilteredAt(Dilation, s, w, h, off, xx, yy);
      NearSymmetric(x, y, off, xx, yy);
      NeighbourhoodHas(s, w, h, xx, yy, off, x, y);
      MaxOfIsGreatest(Neighbourhood(s, w, h, xx, yy, off));
    }
  }

  lemma NegatedAppend(a: seq<byte>, b: seq<byte>)
    ensures PixelOps.Negated(a + b) == PixelOps.Negated(a) + PixelOps.Negated(b)
  {
  }

  lemma {:induction false} RowPartNegated(s: seq<byte>, w: int, h: int, x: int, off: int, row: int, j: int)
    requires |s| == w * h
    ensures RowPart(PixelOps.Negated(s), w, h, x, off, row, j) == PixelOps.Negated(RowPart(s, w, h, x, off, row, j))
    decreases j + off
  {
    if j > -off {
      RowPartNegated(s, w, h, x, off, row, j - 1);
      var part := RowPart(s, w, h, x, off, row, j - 1);
      if InBounds(w, h, x + j - 1, row) {
        NegatedAt(s, w, h, x + j - 1, row);
        NegatedAppend(part, [At(s, w, h, x + j - 1, row)]);
      } else {
        NegatedAppend(part, []);
      }
    }
  }

  lemma {:induction false} RowsNegated(s: seq<byte>, w: int, h: int, x: int, y: int, off: int, i: int)
    requires |s| == w * h
    ensures Rows(PixelOps.Negated(s), w, h, x, y, off, i) == PixelOps.Negated(Rows(s, w, h, x, y, off, i))
    decreases i + off
  {
    if i > -off {
      RowsNegated(s, w, h, x, y, off, i - 1);
      RowPartNegated(s, w, h, x, off, y + i - 1, off + 1);
      NegatedAppend(Rows(s, w, h, x, y, off, i - 1), RowPart(s, w, h, x, off, y + i - 1, off + 1));
    }
  }

  /** The running minimum is the negative of the running maximum of the
      negated run (both fold from their initial values 255 and 0). */
  lemma {:induction false} MinOfNegated(q: seq<byte>)
    ensures MinOf(q) == 255 - MaxOf(PixelOps.Negated(q))
  {
    if q != [] {
      var p := q[..|q| - 1];
      MinOfNegated(p);
      assert PixelOps.Negated(q)[..|q| - 1] == PixelOps.Negated(p);
    }
  }

  /** Grey-level duality: eroding an image is dilating its negative
      (vc_gray_negative) and negating the result, for every kernel. */
  lemma GrayDuality(s: seq<byte>, w: int, h: int, off: int)
    requires 0 <= w && |s| == w * h
    ensures Filtered(Erosion, s, w, h, off) ==
      PixelOps.Negated(Filtered(Dilation, PixelOps.Negated(s), w, h, off))
  {
    var ns := PixelOps.Negated(s);
    forall p | 0 <= p < |s|
      ensures Filtered(Erosion, s, w, h, off)[p] ==
        PixelOps.Negated(Filtered(Dilation, ns, w, h, off))[p]
    {
      Grid.FromFlat(w, h, p);
      var x, y := p % w, p / w;
      RowsNegated(s, w, h, x, y, off, off + 1);
      MinOfNegated(Neighbourhood(s, w, h, x, y, off));
    }
  }

  // ---------------------------------------------------------------------
  // Binary laws

  /** Binary dilation of a binary image is binary, and white exactly when
      some sample of the window is white. */
  lemma BinaryDilationBinary(s: seq<byte>, w: int, h: int, off: int, x: int, y: int)
    requires 0 <= w && |s| == w * h && InBounds(w, h, x, y) && BinaryImage(s)
    ensures Binary(At(Filtered(BinDilation, s, w, h, off), w, h, x, y))
    ensures At(Filtered(BinDilation, s, w, h, off), w, h, x, y) == 255 <==>
      exists xx, yy :: Near(x, y, off, xx, yy) && InBounds(w, h, xx, yy) && At(s, w, h, xx, yy) == 255
  {
    FilteredAt(BinDilation, s, w, h, off, x, y);
    NeighbourhoodBinary(s, w, h, x, y, off);
    OrOfBinary(Neighbourhood(s, w, h, x, y, off));
    NeighbourhoodContains(s, w, h, x, y, off, 255);
  }

  /** Binary erosion turns a pixel white exactly when it is white and no
      sample of its window is black. */
  lemma BinaryErosionWhite(s: seq<byte>, w: int, h: int, off: int, x: int, y: int)
    requires 0 <= w && |s| == w * h && InBounds(w, h, x, y)
    ensures Binary(At(Filtered(BinErosion, s, w, h, off), w, h, x, y))
    ensures At(Filtered(BinErosion, s, w, h, off), w, h, x, y) == 255 <==>
      At(s, w, h, x, y) == 255 &&
      forall xx, yy :: Near(x, y, off, xx, yy) && InBounds(w, h, xx, yy) ==> At(s, w, h, xx, yy) != 0
  {
    FilteredAt(BinErosion, s, w, h, off, x, y);
    NeighbourhoodContains(s, w, h, x, y, off, 0);
  }

  /** Binary duality at one pixel. */
  lemma BinaryDualityAt(s: seq<byte>, w: int, h: int, off: int, x: int, y: int)
    requires |s| == w * h && InBounds(w, h, x, y) && BinaryImage(s) && off >= 0
    ensures Apply(BinErosion, s, w, h, x, y, off) ==
      255 - Apply(BinDilation, PixelOps.Negated(s), w, h, x, y, off)
  {
    var ns := PixelOps.Negated(s);
    var m := Neighbourhood(ns, w, h, x, y, off);
    assert BinaryImage(ns) by {
      forall p | 0 <= p < |ns| ensures Binary(ns[p]) {
        assert Binary(s[p]);
      }
    }
    NeighbourhoodBinary(ns, w, h, x, y, off);
    OrOfBinary(m);
    NegatedAt(s, w, h, x, y);
    AtIndex(s, w, h, x, y);
    if At(s, w, h, x, y) == 0 {
      NeighbourhoodHas(ns, w, h, x, y, off, x, y);
    } else {
      var n := Neighbourhood(s, w, h, x, y, off);
      if 0 in n {
        var xx, yy := NeighbourhoodFrom(s, w, h, x, y, off, 0);
        NegatedAt(s, w, h, xx, yy);
        NeighbourhoodHas(ns, w, h, x, y, off, xx, yy);
      }
      if 255 in m {
        var xx, yy := NeighbourhoodFrom(ns, w, h, x, y, off, 255);
        NegatedAt(s, w, h, xx, yy);
        NeighbourhoodHas(s, w, h, x, y, off, xx, yy);
      }
    }
  }

  /** Binary duality: on a binary image and a kernel of at least one pixel,
      erosion is dilation of the negative, negated. */
  lemma BinaryDuality(s: seq<byte>, w: int, h: int, off: int)
    requires 0 <= w && |s| == w * h && BinaryImage(s) && off >= 0
    ensures Filtered(BinErosion, s, w, h, off) ==
      PixelOps.Negated(Filtered(BinDilation, PixelOps.Negated(s), w, h, off))
  {
    forall p | 0 <= p < |s|
      ensures Filtered(BinErosion, s, w, h, off)[p] ==
        PixelOps.Negated(Filtered(BinDilation, PixelOps.Negated(s), w, h, off))[p]
    {
      Grid.FromFlat(w, h, p);
      BinaryDualityAt(s, w, h, off, p % w, p / w);
    }
  }

  /** Binary opening (vc_binary_open) of a binary image is anti-extensive
      when the dilation kernel is no larger than the erosion kernel: a black
      pixel stays black. */
  lemma BinaryOpenAntiExtensive(s: seq<byte>, w: int, h: int, off1: int, off2: int, x: int, y: int)
    requires 0 <= w && |s| == w * h && InBounds(w, h, x, y) && BinaryImage(s)
    requires 0 <= off2 <= off1
    ensures At(Filtered(BinDilation, Filtered(BinErosion, s, w, h, off1), w, h, off2), w, h, x, y) <= At(s, w, h, x, y)
  {
    var e := Filtered(BinErosion, s, w, h, off1);
    FilteredAt(BinDilation, e, w, h, off2, x, y);
    AtIndex(s, w, h, x, y);
    if At(s, w, h, x, y) == 0 {
      var n := Neighbourhood(e, w, h, x, y, off2);
      forall i | 0 <= i < |n|
        ensures n[i] == 0
      {
        var xx, yy := NeighbourhoodFrom(e, w, h, x, y, off2, n[i]);
        FilteredAt(BinErosion, s, w, h, off1, xx, yy);
        if At(s, w, h, xx, yy) == 255 {
          assert Near(xx, yy, off1, x, y);
          NeighbourhoodHas(s, w, h, xx, yy, off1, x, y);
        }
      }
      OrOfBounds(n);
    }
  }

  /** Binary closing (vc_binary_close) of a binary image is extensive when
      the erosion kernel is no larger than the dilation kernel: a white
      pixel stays white. */
  lemma BinaryCloseExtensive(s: seq<byte>, w: int, h: int, off1: int, off2: int, x: int, y: int)
    requires 0 <= w && |s| == w * h && InBounds(w, h, x, y) && BinaryImage(s)
    requires 0 <= off2 <= off1
    ensures At(s, w, h, x, y) <= At(Filtered(BinErosion, Filtered(BinDilation, s, w, h, off1), w, h, off2), w, h, x, y)
  {
    var d := Filtered(BinDilation, s, w, h, off1);
    FilteredAt(BinErosion, d, w, h, off2, x, y);
    AtIndex(s, w, h, x, y);
    if At(s, w, h, x, y) == 255 {
      // Every pixel near (x, y) has (x, y) in its own dilation window.
      forall xx, yy | Near(x, y, off2, xx, yy) && InBounds(w, h, xx, yy)
        ensures At(d, w, h, xx, yy) == 255
      {
        FilteredAt(BinDilation, s, w, h, off1, xx, yy);
        assert Near(xx, yy, off1, x, y);
        NeighbourhoodHas(s, w, h, xx, yy, off1, x, y);
        NeighbourhoodBinary(s, w, h, xx, yy, off1);
        OrOfBinary(Neighbourhood(s, w, h, xx, yy, off1));
      }
      assert Near(x, y, off2, x, y);
      NeighbourhoodContains(d, w, h, x, y, off2, 0);
    }
  }
}
