/** unsigned_char_to_bit and bit_to_unsigned_char: the raster of a PBM
    file. Each row of `width` one-byte pixels becomes `ceil(width / 8)`
    bytes, eight pixels per byte with the first pixel in the most
    significant bit; the unused low bits of a row's last byte are 0. The
    polarity is inverted: a zero (black) pixel is stored as bit 1, which
    is black in PBM, and on reading a set bit becomes pixel 0 and a clear
    bit pixel 1. */
module BitPack {

  import opened VcTypes
  import Grid

  /** Bytes per packed row: `ceil(width / 8)`. */
  function RowBytes(w: int): (r: int)
    requires 0 <= w
    ensures 0 <= r && w <= 8 * r && 8 * r < w + 8
  {
    (w + 7) / 8
  }

  /** The bit a pixel is stored as. */
  function Bit(v: byte): bv8
  {
    if v == 0 then 1 else 0
  }

  /** The mask of bit i of a byte, counting from the most significant. */
  function Mask(i: int): bv8
    requires 0 <= i < 8
  {
    match i
    case 0 => 0x80
    case 1 => 0x40
    case 2 => 0x20
    case 3 => 0x10
    case 4 => 0x08
    case 5 => 0x04
    case 6 => 0x02
    case 7 => 0x01
  }

  /** Bit i of b, counting from the most significant, is set. */
  predicate BitAt(b: bv8, i: int)
    requires 0 <= i < 8
  {
    b & Mask(i) != 0
  }

  /** `*p |= (v == 0) << (8 - countbits)`: the bit of pixel v ORed into
      position `countbits` of b, counting from 1 at the most significant. */
  function SetBit(b: bv8, v: byte, countbits: int): bv8
    requires 1 <= countbits <= 8
  {
    if v == 0 then b | Mask(countbits - 1) else b
  }

  /** `*p & (1 << (8 - countbits))`: position `countbits` of b, counting
      from 1 at the most significant, is set. */
  predicate TestBit(b: bv8, countbits: int)
    requires 1 <= countbits <= 8
  {
    BitAt(b, countbits - 1)
  }

  /** The table of masks is the shift the C code computes. */
  lemma MaskShift(i: int)
    requires 0 <= i < 8
    ensures Mask(i) == (1 as bv8) << (7 - i)
  {
  }

  /** SetBit is the C statement's OR of a shifted bit. */
  lemma SetBitShift(b: bv8, v: byte, countbits: int)
    requires 1 <= countbits <= 8
    ensures SetBit(b, v, countbits) == b | (Bit(v) << (8 - countbits))
  {
    MaskShift(countbits - 1);
  }

  /** The byte holding the n pixels from index start on, as the packing
      loop ORs them in one at a time. */
  function PackBits(s: seq<byte>, start: int, n: int): bv8
    requires 0 <= n <= 8 && 0 <= start && start + n <= |s|
  {
    if n == 0 then 0 else SetBit(PackBits(s, start, n - 1), s[start + n - 1], n)
  }

  /** ORing in the bit of pixel v at position `countbits` sets that bit
      when v is zero, and leaves every other bit as it was. */
  lemma SetBitAt(b: bv8, v: byte, countbits: int, i: int)
    requires 1 <= countbits <= 8 && 0 <= i < 8
    ensures BitAt(SetBit(b, v, countbits), i) <==> BitAt(b, i) || (v == 0 && i == countbits - 1)
  {
  }

  /** Bit i of a packed byte is set exactly when pixel i of its group is
      present and zero. */
  lemma {:induction false} PackBitsAt(s: seq<byte>, start: int, n: int, i: int)
    requires 0 <= n <= 8 && 0 <= start && start + n <= |s| && 0 <= i < 8
    ensures BitAt(PackBits(s, start, n), i) <==> i < n && s[start + i] == 0
  {
    if n > 0 {
      PackBitsAt(s, start, n - 1, i);
      SetBitAt(PackBits(s, start, n - 1), s[start + n - 1], n, i);
    }
  }

  /** Packed byte j of row y. */
  function PackedByte(s: seq<byte>, w: int, h: int, y: int, j: int): bv8
    requires 0 <= w && 0 <= y < h && w * h <= |s| && 0 <= j < RowBytes(w)
  {
    Grid.MulMono(y + 1, h, w);
    Grid.NextRow(w, y);
    Grid.ProductNonNegative(y, w);
    PackBits(s, y * w + 8 * j, Min(8, w - 8 * j))
  }

  /** The packed raster of a width x height image. */
  function Packed(s: seq<byte>, w: int, h: int): (r: seq<bv8>)
    requires 0 <= w && 0 <= h && w * h <= |s|
    ensures |r| == h * RowBytes(w)
  {
    var n := RowBytes(w);
    seq(h * n, i requires 0 <= i < h * n =>
      Grid.FromFlat(n, h, i);
      PackedByte(s, w, h, i / n, i % n))
  }

  /** Pixel x of row y as read back from a packed raster. */
  function UnpackedPixel(b: seq<bv8>, w: int, h: int, y: int, x: int): byte
    requires 0 <= y < h && 0 <= x < w && h * RowBytes(w) <= |b|
  {
    Grid.InRange(RowBytes(w), h, x / 8, y);
    if BitAt(b[y * RowBytes(w) + x / 8], x % 8) then 0 else 1
  }

  /** The image read back from a packed raster. */
  function Unpacked(b: seq<bv8>, w: int, h: int): (r: seq<byte>)
    requires 0 <= w && 0 <= h && h * RowBytes(w) <= |b|
    ensures |r| == w * h
  {
    seq(w * h, pos requires 0 <= pos < w * h =>
      Grid.FromFlat(w, h, pos);
      UnpackedPixel(b, w, h, pos / w, pos % w))
  }

  /** The round trip at pixel x of row y. */
  lemma RoundTripAt(s: seq<byte>, w: int, h: int, y: int, x: int)
    requires 0 <= y < h && 0 <= x < w && w * h <= |s|
    ensures 0 <= y * w + x < w * h
    ensures UnpackedPixel(Packed(s, w, h), w, h, y, x) == if s[y * w + x] == 0 then 0 else 1
  {
    var j := x / 8;
    PackedAt(s, w, h, y, j);
    Grid.InRange(w, h, x, y);
    Grid.MulMono(y + 1, h, w);
    Grid.NextRow(w, y);
    Grid.ProductNonNegative(y, w);
    PackBitsAt(s, y * w + 8 * j, Min(8, w - 8 * j), x % 8);
  }

  /** Reading back what was packed gives 0 where the image was 0 and 1
      elsewhere: the round trip keeps a binary image's foreground and
      background, with the foreground normalised to 1. */
  lemma RoundTrip(s: seq<byte>, w: int, h: int)
    requires 0 <= w && 0 <= h && w * h <= |s|
    ensures var u := Unpacked(Packed(s, w, h), w, h);
      forall pos :: 0 <= pos < w * h ==> u[pos] == if s[pos] == 0 then 0 else 1
  {
    var b := Packed(s, w, h);
    var u := Unpacked(b, w, h);
    forall pos | 0 <= pos < w * h
      ensures u[pos] == if s[pos] == 0 then 0 else 1
    {
      Grid.FromFlat(w, h, pos);
      var y, x := pos / w, pos % w;
      UnpackedAt(b, w, h, y, x);
      RoundTripAt(s, w, h, y, x);
    }
  }

  /** A byte is flushed after its eighth pixel or the last pixel of the
      row; it is then complete, and the row ends exactly when its last
      byte is flushed. */
  lemma Flush(s: seq<byte>, w: int, h: int, y: int, j: int, m: int)
    requires 0 <= w && 0 <= y < h && w * h <= |s| && 0 <= j && 0 <= m < 8
    requires 8 * j + m < w && (m == 7 || 8 * j + m == w - 1)
    requires 0 <= y * w && y * w + w <= |s|
    ensures 0 <= y * RowBytes(w) + j < h * RowBytes(w)
    ensures Packed(s, w, h)[y * RowBytes(w) + j] == PackBits(s, y * w + 8 * j, m + 1)
    ensures 8 * j + m + 1 == w ==> j + 1 == RowBytes(w)
  {
    PackedAt(s, w, h, y, j);
  }

  /** Where byte j of row y sits in the packed raster. */
  lemma PackedAt(s: seq<byte>, w: int, h: int, y: int, j: int)
    requires 0 <= w && 0 <= y < h && w * h <= |s| && 0 <= j < RowBytes(w)
    ensures 0 <= y * RowBytes(w) + j < h * RowBytes(w)
    ensures Packed(s, w, h)[y * RowBytes(w) + j] == PackedByte(s, w, h, y, j)
  {
    Grid.InRange(RowBytes(w), h, j, y);
    Grid.Coord(RowBytes(w), j, y);
  }

  /** Where pixel x of row y sits in the unpacked image. */
  lemma UnpackedAt(b: seq<bv8>, w: int, h: int, y: int, x: int)
    requires 0 <= y < h && 0 <= x < w && h * RowBytes(w) <= |b|
    ensures 0 <= y * w + x < w * h
    ensures Unpacked(b, w, h)[y * w + x] == UnpackedPixel(b, w, h, y, x)
  {
    Grid.InRange(w, h, x, y);
    Grid.Coord(w, x, y);
  }

  /** The row arithmetic the row loops rest on: row y starts at sample
      `y * w` and at packed byte `y * RowBytes(w)`, and both rows lie
      inside their buffers. */
  lemma RowPlace(w: int, h: int, y: int)
    requires 0 <= w && 0 <= y < h
    ensures 0 <= y * w && y * w + w <= w * h
    ensures 0 <= y * RowBytes(w) && y * RowBytes(w) + RowBytes(w) <= h * RowBytes(w)
    ensures y * RowBytes(w) + RowBytes(w) == (y + 1) * RowBytes(w)
  {
    Grid.ProductNonNegative(y, w);
    Grid.ProductNonNegative(y, RowBytes(w));
    Grid.MulMono(y + 1, h, w);
    Grid.MulMono(y + 1, h, RowBytes(w));
    Grid.NextRow(w, y);
    Grid.NextRow(RowBytes(w), y);
  }

  // ---------------------------------------------------------------------
  // unsigned_char_to_bit

  /** The body of the packing loop for one pixel v: its bit is ORed into
      the current byte, and after the eighth bit or the last pixel of a row
      the pointer moves on, the next byte is cleared and counted. */
  method PackPixel(databit: array<bv8>, p0: int, countbits0: int, total0: int, v: byte, last: bool)
    returns (p: int, countbits: int, total: int)
    requires 0 <= p0 && p0 + 1 < databit.Length && 1 <= countbits0 <= 8
    modifies databit
    ensures !(countbits0 == 8 || last) ==>
      (p == p0 && countbits == countbits0 + 1 && total == total0 &&
       databit[..] == old(databit[..])[p0 := SetBit(old(databit[p0]), v, countbits0)])
    ensures (countbits0 == 8 || last) ==>
      (p == p0 + 1 && countbits == 1 && total == total0 + 1 &&
       databit[..] == old(databit[..])[p0 := SetBit(old(databit[p0]), v, countbits0)][p0 + 1 := 0])
  {
    p, countbits, total := p0, countbits0, total0;
    if countbits <= 8 {
      databit[p] := SetBit(databit[p], v, countbits);
      countbits := countbits + 1;
    }
    if countbits > 8 || last {
      p := p + 1;
      databit[p] := 0;
      countbits := 1;
      total := total + 1;
    }
  }

  /** One row of the packing loop, `pos = width * y + x`, from packed byte
      p0. `countbits` is 1 at the start of every row, because the last
      pixel of a row always flushes its byte. */
  method PackRow(datauchar: array<byte>, databit: array<bv8>, width: int, height: int, y: int,
                 p0: int, total0: int, ghost s: seq<byte>, ghost b: seq<bv8>) returns (p: int, total: int)
    requires datauchar[..] == s && 0 <= width && 0 <= y < height && width * height <= |s|
    requires datauchar as object != databit as object
    requires b == Packed(s, width, height) && |b| < databit.Length
    requires p0 == y * RowBytes(width) && 0 <= p0 && p0 + RowBytes(width) <= |b|
    requires 0 <= y * width && y * width + width <= |s|
    requires total0 == p0 && databit[p0] == 0
    requires forall i :: 0 <= i < p0 ==> databit[i] == b[i]
    modifies databit
    ensures p == p0 + RowBytes(width) && total == p && databit[p] == 0
    ensures forall i :: 0 <= i < p ==> databit[i] == b[i]
    ensures forall i :: p < i < databit.Length ==> databit[i] == old(databit[i])
  {
    ghost var n := RowBytes(width);
    ghost var start := y * width;
    p, total := p0, total0;
    var countbits := 1;
    ghost var j, m := 0, 0;
    var x := 0;
    while x < width
      invariant 0 <= x <= width && 0 <= j <= n && 0 <= m < 8 && countbits == m + 1
      invariant p == p0 + j && total == p
      invariant x < width ==> x == 8 * j + m
      invariant x == width ==> j == n && m == 0
      invariant x < width ==> databit[p] == PackBits(s, start + 8 * j, m)
      invariant x == width ==> databit[p] == 0
      invariant forall i :: 0 <= i < databit.Length && i != p ==> databit[i] == if i < p then b[i] else old(databit[i])
    {
      var pos := width * y + x;
      assert pos == start + 8 * j + m && datauchar[pos] == s[pos];
      assert PackBits(s, start + 8 * j, m + 1) == SetBit(PackBits(s, start + 8 * j, m), s[pos], m + 1);
      if m == 7 || x == width - 1 {
        Flush(s, width, height, y, j, m);
      }
      p, countbits, total := PackPixel(databit, p, countbits, total, datauchar[pos], x == width - 1);
      if m == 7 || x == width - 1 {
        j, m := j + 1, 0;
      } else {
        m := m + 1;
      }
      x := x + 1;
    }
  }

  /** unsigned_char_to_bit: packs a width x height image, writes a zero
      byte just past the packed raster, and returns the raster's length,
      `height * ceil(width / 8)`. */
  method Pack(datauchar: array<byte>, databit: array<bv8>, width: int, height: int)
    returns (counttotalbytes: int)
    requires 0 <= width && 0 <= height && width * height <= datauchar.Length
    requires height * RowBytes(width) < databit.Length && datauchar as object != databit as object
    modifies databit
    ensures counttotalbytes == height * RowBytes(width)
    ensures databit[..counttotalbytes] == Packed(datauchar[..], width, height)
    ensures databit[counttotalbytes] == 0
    ensures databit[counttotalbytes + 1..] == old(databit[counttotalbytes + 1..])
  {
    ghost var s := datauchar[..];
    ghost var b := Packed(s, width, height);
    ghost var n := RowBytes(width);
    var p := 0;
    databit[p] := 0;
    counttotalbytes := 0;
    var y := 0;
    while y < height
      invariant 0 <= y <= height && p == y * n && counttotalbytes == p
      invariant 0 <= p <= |b| && databit[p] == 0
      invariant forall i :: 0 <= i < p ==> databit[i] == b[i]
      invariant forall i :: p < i < databit.Length ==> databit[i] == old(databit[i])
    {
      RowPlace(width, height, y);
      p, counttotalbytes := PackRow(datauchar, databit, width, height, y, p, counttotalbytes, s, b);
      y := y + 1;
    }
    Grid.Area(n, height, 1);
    assert databit[..p] == b;
  }

  // ---------------------------------------------------------------------
  // bit_to_unsigned_char

  /** One row of the unpacking loop, `pos = width * y + x`, from packed
      byte p0. */
  method UnpackRow(databit: array<bv8>, datauchar: array<byte>, width: int, height: int, y: int,
                   p0: int, ghost b: seq<bv8>, ghost u: seq<byte>) returns (p: int)
    requires databit[..] == b && 0 <= width && 0 <= y < height && height * RowBytes(width) <= |b|
    requires datauchar as object != databit as object
    requires u == Unpacked(b, width, height) && |u| <= datauchar.Length
    requires p0 == y * RowBytes(width) && 0 <= p0 && p0 + RowBytes(width) <= |b|
    requires 0 <= y * width && y * width + width <= |u|
    requires forall q :: 0 <= q < y * width ==> datauchar[q] == u[q]
    modifies datauchar
    ensures p == p0 + RowBytes(width)
    ensures forall q :: 0 <= q < y * width + width ==> datauchar[q] == u[q]
    ensures forall q :: y * width + width <= q < datauchar.Length ==> datauchar[q] == old(datauchar[q])
  {
    ghost var n := RowBytes(width);
    ghost var start := y * width;
    p := p0;
    var countbits := 1;
    ghost var j, m := 0, 0;
    var x := 0;
    while x < width
      invariant 0 <= x <= width && 0 <= j <= n && 0 <= m < 8 && countbits == m + 1
      invariant p == p0 + j
      invariant x < width ==> x == 8 * j + m
      invariant x == width ==> j == n && m == 0
      invariant forall q :: 0 <= q < start + x ==> datauchar[q] == u[q]
      invariant forall q :: start + x <= q < datauchar.Length ==> datauchar[q] == old(datauchar[q])
    {
      var pos := width * y + x;
      if countbits <= 8 {
        UnpackedAt(b, width, height, y, x);
        Grid.Coord(8, m, j);
        assert u[pos] == if BitAt(b[p], m) then 0 else 1;
        datauchar[pos] := if TestBit(databit[p], countbits) then 0 else 1;
        countbits := countbits + 1;
      }
      if countbits > 8 || x == width - 1 {
        p := p + 1;
        countbits := 1;
        j, m := j + 1, 0;
      } else {
        m := m + 1;
      }
      x := x + 1;
    }
  }

  /** bit_to_unsigned_char: unpacks a packed raster into a width x height
      image. */
  method Unpack(databit: array<bv8>, datauchar: array<byte>, width: int, height: int)
    requires 0 <= width && 0 <= height
    requires height * RowBytes(width) <= databit.Length && width * height <= datauchar.Length
    requires datauchar as object != databit as object
    modifies datauchar
    ensures datauchar[..width * height] == Unpacked(databit[..], width, height)
    ensures datauchar[width * height..] == old(datauchar[width * height..])
  {
    ghost var b := databit[..];
    ghost var u := Unpacked(b, width, height);
    ghost var n := RowBytes(width);
    var p := 0;
    var y := 0;
    while y < height
      invariant 0 <= y <= height && p == y * n && 0 <= y * width <= |u|
      invariant forall q :: 0 <= q < y * width ==> datauchar[q] == u[q]
      invariant forall q :: y * width <= q < datauchar.Length ==> datauchar[q] == old(datauchar[q])
    {
      RowPlace(width, height, y);
      p := UnpackRow(databit, datauchar, width, height, y, p, b, u);
      Grid.NextRow(width, y);
      y := y + 1;
    }
    Grid.Area(width, height, 1);
    assert datauchar[..width * height] == u;
  }
}
