/** The image record (IVC), the blob record (OVC) and the MAX_VC / MIN_VC
    macros that the rest of the engine rests on (vc.h), together with the
    flat-buffer index arithmetic every operation uses. */
module VcTypes {

  import Grid

  /** One sample of a pixel buffer: a C `unsigned char`. */
  type byte = x: int | 0 <= x < 256

  /** C conversion of an int to `unsigned char`: reduction modulo 256. */
  function ToByte(v: int): (r: byte)
    ensures 0 <= v < 256 ==> r == v
    ensures (r - v) % 256 == 0
  {
    v % 256
  }

  /** MAX_VC(a, b): `a > b ? a : b`. */
  function Max(a: int, b: int): (r: int)
    ensures r == a || r == b
    ensures r >= a && r >= b
  {
    if a > b then a else b
  }

  /** MIN_VC(a, b): `a < b ? a : b`. */
  function Min(a: int, b: int): (r: int)
    ensures r == a || r == b
    ensures r <= a && r <= b
  {
    if a < b then a else b
  }

  /** C integer division, which truncates toward zero. */
  function CDiv(a: int, b: int): (q: int)
    requires b != 0
    ensures a >= 0 && b > 0 ==> q == a / b
    ensures b > 0 ==> (a >= 0 ==> 0 <= a - q * b < b) && (a < 0 ==> -b < a - q * b <= 0)
  {
    if a >= 0 then (if b > 0 then a / b else -(a / -b))
    else (if b > 0 then -((-a) / b) else (-a) / (-b))
  }

  /** Half-width of a square structuring element: `(kernel - 1) / 2` in C. */
  function Offset(kernel: int): (off: int)
    ensures kernel >= 1 ==> 2 * off <= kernel - 1 < 2 * off + 2
    ensures kernel < 1 ==> 2 * off - 2 < kernel - 1 <= 2 * off
  {
    CDiv(kernel - 1, 2)
  }

  /** IVC. The metadata never changes after allocation; the samples do. */
  class Image {
    const width: int
    const height: int
    const channels: int      // binary and grey = 1, RGB = 3
    const levels: int        // binary = 1, grey and RGB in [1,255]
    const bytesperline: int  // width * channels
    const data: array<byte>

    /** What vc_image_new establishes for every image it returns. */
    predicate Valid()
    {
      0 <= width && 0 <= height && 0 <= channels &&
      bytesperline == width * channels &&
      data.Length == width * height * channels &&
      1 <= levels <= 255
    }

    constructor (width: int, height: int, channels: int, levels: int)
      requires 0 <= width && 0 <= height && 0 <= channels
      requires 1 <= levels <= 255
      ensures Valid() && fresh(data)
      ensures this.width == width && this.height == height
      ensures this.channels == channels && this.levels == levels
      ensures bytesperline == width * channels
    {
      this.width := width;
      this.height := height;
      this.channels := channels;
      this.levels := levels;
      this.bytesperline := width * channels;
      Grid.ProductNonNegative(width * height, channels);
      Grid.ProductNonNegative(width, height);
      this.data := new byte[width * height * channels];
    }
  }

  /** vc_image_new: rejects `levels` outside [1,255]. Any negative
      dimension also yields null here; the C fails only when its `int` size
      product is negative. */
  method ImageNew(width: int, height: int, channels: int, levels: int) returns (image: Image?)
    ensures image == null <==>
      !(1 <= levels <= 255) || width < 0 || height < 0 || channels < 0
    ensures image != null ==>
      fresh(image) && fresh(image.data) && image.Valid() &&
      image.width == width && image.height == height &&
      image.channels == channels && image.levels == levels &&
      image.bytesperline == width * channels
  {
    if levels <= 0 || levels > 255 {
      return null;
    }
    if width < 0 || height < 0 || channels < 0 {
      return null;
    }
    image := new Image(width, height, channels, levels);
  }

  /** OVC, restricted to the fields the engine reads or writes. */
  datatype Blob = Blob(
    x: int, y: int, width: int, height: int,
    area: int, xc: int, yc: int, perimeter: int, lbl: int)

  /** A blob as calloc leaves it, with only its label filled in. */
  function FreshBlob(lbl: int): (b: Blob)
    ensures b.lbl == lbl
    ensures b.area == 0 && b.perimeter == 0
  {
    Blob(0, 0, 0, 0, 0, 0, 0, 0, lbl)
  }
}
