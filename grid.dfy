/** Row-major flat indexing: pixel (x, y) of a one-channel image of width w
    sits at index y * w + x. */
module Grid {

  lemma ProductNonNegative(a: int, b: int)
    requires a >= 0 && b >= 0
    ensures a * b >= 0
  {
  }

  lemma {:induction false} MulBound(d: int, w: int)
    requires w > 0 && d != 0
    ensures d * w >= w || d * w <= -w
    decreases if d > 0 then d else -d
  {
    if d > 0 {
      assert d * w == (d - 1) * w + w;
      if d > 1 { MulBound(d - 1, w); }
    } else {
      assert d * w == (d + 1) * w - w;
      if d < -1 { MulBound(d + 1, w); }
    }
  }

  /** Multiplying by a non-negative factor keeps the order. */
  lemma MulMono(a: int, b: int, c: int)
    requires a <= b && c >= 0
    ensures a * c <= b * c
  {
    ProductNonNegative(b - a, c);
    assert (b - a) * c == b * c - a * c;
  }

  /** The column and row of a flat index are recovered by % and /. */
  lemma Coord(w: int, x: int, y: int)
    requires w > 0 && 0 <= x < w
    ensures (y * w + x) / w == y && (y * w + x) % w == x
  {
    var q, r := (y * w + x) / w, (y * w + x) % w;
    assert y * w + x == q * w + r;
    assert (y - q) * w == r - x;
    if y != q { MulBound(y - q, w); }
  }

  /** A pixel inside a w-by-h grid has a flat index inside the buffer. */
  lemma InRange(w: int, h: int, x: int, y: int)
    requires 0 <= x < w && 0 <= y < h
    ensures 0 <= y * w + x < w * h
  {
    assert y * w >= 0 by { ProductNonNegative(y, w); }
    assert (h - 1 - y) * w >= 0 by { ProductNonNegative(h - 1 - y, w); }
    assert (h - 1 - y) * w == h * w - y * w - w;
  }

  /** In a buffer of c samples per pixel, `y * bytesperline + x * channels`
      is c times the pixel's flat index, and all c samples of the pixel lie
      inside the buffer. */
  lemma Scaled(w: int, h: int, c: int, x: int, y: int)
    requires 0 <= x < w && 0 <= y < h && c > 0
    ensures y * (w * c) + x * c == (y * w + x) * c
    ensures 0 <= (y * w + x) * c && (y * w + x) * c + c <= w * h * c
  {
    InRange(w, h, x, y);
    var k := y * w + x;
    assert y * (w * c) + x * c == (y * w + x) * c;
    ProductNonNegative(k, c);
    ProductNonNegative(w * h - k - 1, c);
    assert (w * h - k - 1) * c == w * h * c - k * c - c;
  }

  /** Finishing row y of width w reaches the start of row y + 1. */
  lemma NextRow(w: int, y: int)
    ensures y * w + w == (y + 1) * w
  {
  }

  /** A w-by-h buffer of c samples per pixel, scanned row by row, is
      complete after h rows. */
  lemma Area(w: int, h: int, c: int)
    ensures (h * w) * c == w * h * c
    ensures c == 1 ==> h * w == w * h * c
  {
  }

  /** Every flat index of a w-by-h buffer names a pixel of the grid. */
  lemma FromFlat(w: int, h: int, p: int)
    requires w >= 0 && 0 <= p < w * h
    ensures w > 0
    ensures 0 <= p % w < w && 0 <= p / w < h
    ensures p == (p / w) * w + p % w
  {
    if p / w >= h {
      ProductNonNegative(p / w - h, w);
      assert false;
    }
  }

  /** Raster order agrees with flat-index order. */
  lemma Before(w: int, x1: int, y1: int, x2: int, y2: int)
    requires 0 <= x1 < w && 0 <= x2 < w
    requires y1 < y2 || (y1 == y2 && x1 < x2)
    ensures y1 * w + x1 < y2 * w + x2
  {
    if y1 < y2 {
      MulBound(y2 - y1, w);
      assert (y2 - y1) * w == y2 * w - y1 * w;
    }
  }

  /** The pixel is not on row 0, row h-1, column 0 or column w-1. */
  predicate Interior(w: int, h: int, p: int)
    requires w > 0
  {
    0 <= p < w * h && 1 <= p % w < w - 1 && 1 <= p / w < h - 1
  }

  /** The up-left, up, up-right and left neighbours of an interior pixel,
      and the pixel itself, lie inside the buffer, and their flat offsets
      are the geometric neighbours. */
  lemma InteriorNeighbours(w: int, h: int, p: int)
    requires w > 0 && Interior(w, h, p)
    ensures w + 1 <= p && p + w + 1 < w * h
    ensures (p - 1) % w == p % w - 1 && (p - 1) / w == p / w
    ensures (p + 1) % w == p % w + 1 && (p + 1) / w == p / w
    ensures (p - w) % w == p % w && (p - w) / w == p / w - 1
    ensures (p + w) % w == p % w && (p + w) / w == p / w + 1
    ensures (p - w - 1) % w == p % w - 1 && (p - w - 1) / w == p / w - 1
    ensures (p - w + 1) % w == p % w + 1 && (p - w + 1) / w == p / w - 1
  {
    var x, y := p % w, p / w;
    FromFlat(w, h, p);
    assert p == y * w + x;
    Coord(w, x - 1, y);
    Coord(w, x + 1, y);
    assert p - w == (y - 1) * w + x;
    Coord(w, x, y - 1);
    assert p + w == (y + 1) * w + x;
    Coord(w, x, y + 1);
    assert p - w - 1 == (y - 1) * w + (x - 1);
    Coord(w, x - 1, y - 1);
    assert p - w + 1 == (y - 1) * w + (x + 1);
    Coord(w, x + 1, y - 1);
    InRange(w, h, x + 1, y + 1);
    assert (y + 1) * w + x + 1 == p + w + 1;
    InRange(w, h, x - 1, y - 1);
  }
}
