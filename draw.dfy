/** The overlay writers: vc_draw_of_gravity paints a black cross of five
    pixels each way through a blob's centroid, and vc_draw_border_box paints
    the outline of a blob's bounding box in white. Samples are addressed as
    `y * bytesperline + x * channels + c`. */
module Draw {

  import opened VcTypes
  import Grid

  // ---------------------------------------------------------------------
  // Addressing

  /** The column of the pixel that sample q belongs to. */
  function Col(w: int, ch: int, q: int): int
    requires 0 < w && 0 < ch
  {
    (q / ch) % w
  }

  /** The row of the pixel that sample q belongs to. */
  function Row(w: int, ch: int, q: int): int
    requires 0 < w && 0 < ch
  {
    (q / ch) / w
  }

  /** Sample c of pixel (x, y) lies in the buffer, and its column, row and
      channel are recovered from its index. */
  lemma Locate(w: int, h: int, ch: int, x: int, y: int, c: int)
    requires 0 <= x < w && 0 <= y < h && 0 <= c < ch
    ensures var q := y * (w * ch) + x * ch + c;
      0 <= q < w * h * ch && Col(w, ch, q) == x && Row(w, ch, q) == y && q % ch == c
  {
    var k := y * w + x;
    var q := y * (w * ch) + x * ch + c;
    Grid.Scaled(w, h, ch, x, y);
    assert q == k * ch + c;
    Grid.Coord(ch, c, k);
    assert q / ch == k && q % ch == c;
    Grid.Coord(w, x, y);
    assert k / w == y && k % w == x;
  }

  /** A sample is the only one with its column, row and channel. */
  lemma Unique(w: int, h: int, ch: int, q: int, x: int, y: int, c: int)
    requires 0 < w && 0 < ch && 0 <= q && 0 <= x < w && 0 <= c < ch
    requires Col(w, ch, q) == x && Row(w, ch, q) == y && q % ch == c
    ensures q == y * (w * ch) + x * ch + c
  {
    var k := q / ch;
    assert q == k * ch + c;
    assert k == y * w + x;
    assert (y * w + x) * ch == y * (w * ch) + x * ch;
  }

  /** Every sample of pixel (x, y) gets value; every other sample keeps its
      old value. */
  method PaintPixel(img: Image, x: int, y: int, value: byte)
    requires img.Valid() && 1 <= img.channels && 0 <= x < img.width && 0 <= y < img.height
    modifies img.data
    ensures forall q :: 0 <= q < img.data.Length ==>
      img.data[q] == if Col(img.width, img.channels, q) == x && Row(img.width, img.channels, q) == y
                     then value else old(img.data[q])
  {
    ghost var w, h, ch := img.width, img.height, img.channels;
    var c := 0;
    while c < img.channels
      invariant 0 <= c <= ch
      invariant forall q :: 0 <= q < img.data.Length ==>
        img.data[q] == if Col(w, ch, q) == x && Row(w, ch, q) == y && q % ch < c
                       then value else old(img.data[q])
    {
      Locate(w, h, ch, x, y, c);
      var pos := y * img.bytesperline + x * img.channels + c;
      forall q | 0 <= q < img.data.Length && Col(w, ch, q) == x && Row(w, ch, q) == y && q % ch == c
        ensures q == pos
      {
        Unique(w, h, ch, q, x, y, c);
      }
      img.data[pos] := value;
      c := c + 1;
    }
  }

  // ---------------------------------------------------------------------
  // vc_draw_of_gravity

  /** Pixel (x, y) is on the cross: the centroid's column for two rows
      above and below, or the centroid's row for two columns either side. */
  predicate OnCross(b: Blob, x: int, y: int)
  {
    (x == b.xc && b.yc - 2 <= y <= b.yc + 2) || (y == b.yc && b.xc - 2 <= x <= b.xc + 2)
  }

  /** The vertical stroke, drawn up to (not including) row yEnd. */
  predicate Vertical(b: Blob, yEnd: int, x: int, y: int)
  {
    x == b.xc && b.yc - 2 <= y < yEnd
  }

  /** The horizontal stroke, drawn up to (not including) column xEnd. */
  predicate Horizontal(b: Blob, xEnd: int, x: int, y: int)
  {
    y == b.yc && b.xc - 2 <= x < xEnd
  }

  /** The cross lies inside the image. */
  predicate CrossInside(img: Image, b: Blob)
    reads img
  {
    2 <= b.xc && b.xc + 2 < img.width && 2 <= b.yc && b.yc + 2 < img.height
  }

  /** The buffer d after the cross of b is drawn: every sample of a cross
      pixel is 0. */
  function WithCross(d: seq<byte>, w: int, ch: int, b: Blob): (r: seq<byte>)
    requires 0 < w && 0 < ch
    ensures |r| == |d|
  {
    seq(|d|, q requires 0 <= q < |d| => if OnCross(b, Col(w, ch, q), Row(w, ch, q)) then 0 else d[q])
  }

  /** vc_draw_of_gravity. The C code does no bounds check, so the cross
      must fit in the image. Returns 1. */
  method DrawOfGravity(img: Image, b: Blob) returns (r: int)
    requires img.Valid() && 1 <= img.channels && CrossInside(img, b)
    modifies img.data
    ensures r == 1
    ensures img.data[..] == WithCross(old(img.data[..]), img.width, img.channels, b)
  {
    ghost var w, ch := img.width, img.channels;
    ghost var d0 := img.data[..];
    var y := b.yc - 2;
    while y < b.yc + 3
      invariant b.yc - 2 <= y <= b.yc + 3
      invariant forall q :: 0 <= q < img.data.Length ==>
        img.data[q] == if Vertical(b, y, Col(w, ch, q), Row(w, ch, q)) then 0 else d0[q]
    {
      PaintPixel(img, b.xc, y, 0);
      y := y + 1;
    }
    var x := b.xc - 2;
    while x < b.xc + 3
      invariant b.xc - 2 <= x <= b.xc + 3
      invariant forall q :: 0 <= q < img.data.Length ==>
        img.data[q] == if Vertical(b, b.yc + 3, Col(w, ch, q), Row(w, ch, q)) ||
                          Horizontal(b, x, Col(w, ch, q), Row(w, ch, q)) then 0 else d0[q]
    {
      PaintPixel(img, x, b.yc, 0);
      x := x + 1;
    }
    assert img.data[..] == WithCross(d0, w, ch, b);
    return 1;
  }

  /** The cross in C's addressing: for every pixel (x, y) and channel c,
      the sample at `y * bytesperline + x * channels + c` is 0 on the cross
      and unchanged off it. */
  lemma CrossSamples(d: seq<byte>, w: int, h: int, ch: int, b: Blob, x: int, y: int, c: int)
    requires |d| == w * h * ch && 0 <= x < w && 0 <= y < h && 0 <= c < ch
    ensures var q := y * (w * ch) + x * ch + c;
      0 <= q < |d| && WithCross(d, w, ch, b)[q] == if OnCross(b, x, y) then 0 else d[q]
  {
    Locate(w, h, ch, x, y, c);
  }

  /** Drawing the cross twice is drawing it once. */
  lemma CrossIdempotent(d: seq<byte>, w: int, ch: int, b: Blob)
    requires 0 < w && 0 < ch
    ensures WithCross(WithCross(d, w, ch, b), w, ch, b) == WithCross(d, w, ch, b)
  {
    var once := WithCross(d, w, ch, b);
    var twice := WithCross(once, w, ch, b);
    forall q | 0 <= q < |d|
      ensures twice[q] == once[q]
    {
    }
  }

  // ---------------------------------------------------------------------
  // vc_draw_border_box

  /** Pixel (x, y) is on the outline of b's bounding box. */
  predicate OnBorder(b: Blob, x: int, y: int)
  {
    ((x == b.x || x == b.x + b.width - 1) && b.y <= y < b.y + b.height) ||
    ((y == b.y || y == b.y + b.height - 1) && b.x <= x < b.x + b.width)
  }

  /** The left and right sides, drawn up to (not including) row yEnd. */
  predicate Sides(b: Blob, yEnd: int, x: int, y: int)
  {
    (x == b.x || x == b.x + b.width - 1) && b.y <= y < yEnd
  }

  /** The top and bottom sides, drawn up to (not including) column xEnd. */
  predicate Ends(b: Blob, xEnd: int, x: int, y: int)
  {
    (y == b.y || y == b.y + b.height - 1) && b.x <= x < xEnd
  }

  /** The box is not empty and lies inside the image. */
  predicate BoxInside(img: Image, b: Blob)
    reads img
  {
    0 <= b.x && 1 <= b.width && b.x + b.width <= img.width &&
    0 <= b.y && 1 <= b.height && b.y + b.height <= img.height
  }

  /** The buffer d after the outline of b is drawn as vc_draw_border_box
      evidently intends: every sample of an outline pixel is 255. */
  function WithBox(d: seq<byte>, w: int, ch: int, b: Blob): (r: seq<byte>)
    requires 0 < w && 0 < ch
    ensures |r| == |d|
  {
    seq(|d|, q requires 0 <= q < |d| => if OnBorder(b, Col(w, ch, q), Row(w, ch, q)) then 255 else d[q])
  }

  /** The buffer d after vc_draw_border_box as written: only sample 0 of
      each outline pixel is 255. */
  function WithBoxAsWritten(d: seq<byte>, w: int, ch: int, b: Blob): (r: seq<byte>)
    requires 0 < w && 0 < ch
    ensures |r| == |d|
  {
    seq(|d|, q requires 0 <= q < |d| =>
      if q % ch == 0 && OnBorder(b, Col(w, ch, q), Row(w, ch, q)) then 255 else d[q])
  }

  /** One iteration of an outer loop of vc_draw_border_box as written: the
      channel loop stores 255 at `y * bytesperline + x * channels` of two
      pixels, the same two samples on every pass. */
  method MarkPairAsWritten(img: Image, x1: int, y1: int, x2: int, y2: int)
    requires img.Valid() && 1 <= img.channels
    requires 0 <= x1 < img.width && 0 <= y1 < img.height && 0 <= x2 < img.width && 0 <= y2 < img.height
    modifies img.data
    ensures forall q :: 0 <= q < img.data.Length ==>
      img.data[q] == if q % img.channels == 0 &&
                        ((Col(img.width, img.channels, q) == x1 && Row(img.width, img.channels, q) == y1) ||
                         (Col(img.width, img.channels, q) == x2 && Row(img.width, img.channels, q) == y2))
                     then 255 else old(img.data[q])
  {
    ghost var w, h, ch := img.width, img.height, img.channels;
    Locate(w, h, ch, x1, y1, 0);
    Locate(w, h, ch, x2, y2, 0);
    var p1 := y1 * img.bytesperline + x1 * img.channels;
    var p2 := y2 * img.bytesperline + x2 * img.channels;
    forall q | 0 <= q < img.data.Length && q % ch == 0
      ensures (Col(w, ch, q) == x1 && Row(w, ch, q) == y1) ==> q == p1
      ensures (Col(w, ch, q) == x2 && Row(w, ch, q) == y2) ==> q == p2
    {
      if Col(w, ch, q) == x1 && Row(w, ch, q) == y1 {
        Unique(w, h, ch, q, x1, y1, 0);
      }
      if Col(w, ch, q) == x2 && Row(w, ch, q) == y2 {
        Unique(w, h, ch, q, x2, y2, 0);
      }
    }
    var c := 0;
    while c < img.channels
      invariant 0 <= c <= ch
      invariant c == 0 ==> img.data[..] == old(img.data[..])
      invariant c > 0 ==> img.data[..] == old(img.data[..])[p1 := 255][p2 := 255]
    {
      img.data[p1] := 255;
      img.data[p2] := 255;
      c := c + 1;
    }
  }

  /** vc_draw_border_box as written: the sides, then the top and bottom,
      each through MarkPairAsWritten. Only channel 0 of the outline is
      painted. Returns 1. */
  method DrawBorderBoxAsWritten(img: Image, b: Blob) returns (r: int)
    requires img.Valid() && 1 <= img.channels && BoxInside(img, b)
    modifies img.data
    ensures r == 1
    ensures img.data[..] == WithBoxAsWritten(old(img.data[..]), img.width, img.channels, b)
  {
    ghost var w, ch := img.width, img.channels;
    ghost var d0 := img.data[..];
    var y := b.y;
    while y < b.y + b.height
      invariant b.y <= y <= b.y + b.height
      invariant forall q :: 0 <= q < img.data.Length ==>
        img.data[q] == if q % ch == 0 && Sides(b, y, Col(w, ch, q), Row(w, ch, q)) then 255 else d0[q]
    {
      MarkPairAsWritten(img, b.x, y, b.x + b.width - 1, y);
      y := y + 1;
    }
    var x := b.x;
    while x < b.x + b.width
      invariant b.x <= x <= b.x + b.width
      invariant forall q :: 0 <= q < img.data.Length ==>
        img.data[q] == if q % ch == 0 && (Sides(b, b.y + b.height, Col(w, ch, q), Row(w, ch, q)) ||
                                          Ends(b, x, Col(w, ch, q), Row(w, ch, q))) then 255 else d0[q]
    {
      MarkPairAsWritten(img, x, b.y, x, b.y + b.height - 1);
      x := x + 1;
    }
    assert img.data[..] == WithBoxAsWritten(d0, w, ch, b);
    return 1;
  }

  /** vc_draw_border_box corrected: every channel of the outline is
      painted, the sample index being `y * bytesperline + x * channels + c`.
      Returns 1. */
  method DrawBorderBox(img: Image, b: Blob) returns (r: int)
    requires img.Valid() && 1 <= img.channels && BoxInside(img, b)
    modifies img.data
    ensures r == 1
    ensures img.data[..] == WithBox(old(img.data[..]), img.width, img.channels, b)
  {
    ghost var w, ch := img.width, img.channels;
    ghost var d0 := img.data[..];
    var y := b.y;
    while y < b.y + b.height
      invariant b.y <= y <= b.y + b.height
      invariant forall q :: 0 <= q < img.data.Length ==>
        img.data[q] == if Sides(b, y, Col(w, ch, q), Row(w, ch, q)) then 255 else d0[q]
    {
      PaintPixel(img, b.x, y, 255);
      PaintPixel(img, b.x + b.width - 1, y, 255);
      y := y + 1;
    }
    var x := b.x;
    while x < b.x + b.width
      invariant b.x <= x <= b.x + b.width
      invariant forall q :: 0 <= q < img.data.Length ==>
        img.data[q] == if Sides(b, b.y + b.height, Col(w, ch, q), Row(w, ch, q)) ||
                          Ends(b, x, Col(w, ch, q), Row(w, ch, q)) then 255 else d0[q]
    {
      PaintPixel(img, x, b.y, 255);
      PaintPixel(img, x, b.y + b.height - 1, 255);
      x := x + 1;
    }
    assert img.data[..] == WithBox(d0, w, ch, b);
    return 1;
  }

  /** The outline in C's addressing: every channel of an outline pixel is
      255 and every other sample is unchanged, so on a colour image the
      outline is white. */
  lemma BoxSamples(d: seq<byte>, w: int, h: int, ch: int, b: Blob, x: int, y: int, c: int)
    requires |d| == w * h * ch && 0 <= x < w && 0 <= y < h && 0 <= c < ch
    ensures var q := y * (w * ch) + x * ch + c;
      0 <= q < |d| && WithBox(d, w, ch, b)[q] == if OnBorder(b, x, y) then 255 else d[q]
  {
    Locate(w, h, ch, x, y, c);
  }

  /** The discrepancy: as written, only channel 0 of an outline pixel is
      painted; channels 1 and up keep their old values, so on an RGB image
      the outline is drawn in red over whatever was there. */
  lemma BoxAsWrittenSamples(d: seq<byte>, w: int, h: int, ch: int, b: Blob, x: int, y: int, c: int)
    requires |d| == w * h * ch && 0 <= x < w && 0 <= y < h && 0 <= c < ch
    ensures var q := y * (w * ch) + x * ch + c;
      0 <= q < |d| && WithBoxAsWritten(d, w, ch, b)[q] == if c == 0 && OnBorder(b, x, y) then 255 else d[q]
  {
    Locate(w, h, ch, x, y, c);
  }

  /** A concrete witness: a 1 x 1 black RGB image whose box is its one
      pixel. As written the pixel becomes (255, 0, 0); corrected it becomes
      (255, 255, 255). */
  lemma BoxAsWrittenWitness()
    ensures WithBoxAsWritten([0, 0, 0], 1, 3, Blob(0, 0, 1, 1, 1, 0, 0, 0, 1)) == [255, 0, 0]
    ensures WithBox([0, 0, 0], 1, 3, Blob(0, 0, 1, 1, 1, 0, 0, 0, 1)) == [255, 255, 255]
  {
    var b := Blob(0, 0, 1, 1, 1, 0, 0, 0, 1);
    var d: seq<byte> := [0, 0, 0];
    Locate(1, 1, 3, 0, 0, 0);
    Locate(1, 1, 3, 0, 0, 1);
    Locate(1, 1, 3, 0, 0, 2);
    assert WithBoxAsWritten(d, 1, 3, b) == [255, 0, 0];
    assert WithBox(d, 1, 3, b) == [255, 255, 255];
  }

  /** Drawing the outline twice is drawing it once. */
  lemma BoxIdempotent(d: seq<byte>, w: int, ch: int, b: Blob)
    requires 0 < w && 0 < ch
    ensures WithBox(WithBox(d, w, ch, b), w, ch, b) == WithBox(d, w, ch, b)
  {
    var once := WithBox(d, w, ch, b);
    var twice := WithBox(once, w, ch, b);
    forall q | 0 <= q < |d|
      ensures twice[q] == once[q]
    {
    }
  }
}
