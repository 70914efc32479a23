/** Grey-level and binary erosion and dilation over a square structuring
    element of half-width `offset = (kernel - 1) / 2`, and the openings and
    closings built from them. */
module Morphology {

  import opened VcTypes
  import opened WindowOps

  /** The checks shared by the four operators: a non-empty single-channel
      source and a single-channel destination. */
  predicate MorphArgs(src: Image, dst: Image)
  {
    src.width > 0 && src.height > 0 && src.channels == 1 && dst.channels == 1
  }

  // ---------------------------------------------------------------------
  // The operators

  /** vc_grayscale_erode. dst is indexed with src's geometry and is not
      checked, so it must hold at least as many samples as src. */
  method GrayErode(src: Image, dst: Image, kernel: int) returns (ok: bool)
    requires src.Valid() && dst.Valid() && src.data != dst.data
    requires MorphArgs(src, dst) ==> src.data.Length <= dst.data.Length
    modifies dst.data
    ensures ok <==> MorphArgs(src, dst)
    ensures ok ==> dst.data[..src.data.Length] == Filtered(Erosion, src.data[..], src.width, src.height, Offset(kernel))
    ensures ok ==> dst.data[src.data.Length..] == old(dst.data[src.data.Length..])
    ensures !ok ==> dst.data[..] == old(dst.data[..])
  {
    var offset := CDiv(kernel - 1, 2);
    if src.width <= 0 || src.height <= 0 {
      return false;
    }
    if src.channels != 1 || dst.channels != 1 {
      return false;
    }
    FilterInto(Erosion, src, dst, offset);
    return true;
  }

  /** vc_grayscale_dilate. */
  method GrayDilate(src: Image, dst: Image, kernel: int) returns (ok: bool)
    requires src.Valid() && dst.Valid() && src.data != dst.data
    requires MorphArgs(src, dst) ==> src.data.Length <= dst.data.Length
    modifies dst.data
    ensures ok <==> MorphArgs(src, dst)
    ensures ok ==> dst.data[..src.data.Length] == Filtered(Dilation, src.data[..], src.width, src.height, Offset(kernel))
    ensures ok ==> dst.data[src.data.Length..] == old(dst.data[src.data.Length..])
    ensures !ok ==> dst.data[..] == old(dst.data[..])
  {
    var offset := CDiv(kernel - 1, 2);
    if src.width <= 0 || src.height <= 0 {
      return false;
    }
    if src.channels != 1 || dst.channels != 1 {
      return false;
    }
    FilterInto(Dilation, src, dst, offset);
    return true;
  }

  /** vc_binary_erode. */
  method BinaryErode(src: Image, dst: Image, kernel: int) returns (ok: bool)
    requires src.Valid() && dst.Valid() && src.data != dst.data
    requires MorphArgs(src, dst) ==> src.data.Length <= dst.data.Length
    modifies dst.data
    ensures ok <==> MorphArgs(src, dst)
    ensures ok ==> dst.data[..src.data.Length] == Filtered(BinErosion, src.data[..], src.width, src.height, Offset(kernel))
    ensures ok ==> dst.data[src.data.Length..] == old(dst.data[src.data.Length..])
    ensures !ok ==> dst.data[..] == old(dst.data[..])
  {
    if src.width <= 0 || src.height <= 0 {
      return false;
    }
    if src.channels != 1 || dst.channels != 1 {
      return false;
    }
    var offset := CDiv(kernel - 1, 2);
    FilterInto(BinErosion, src, dst, offset);
    return true;
  }

  /** vc_binary_dilate. */
  method BinaryDilate(src: Image, dst: Image, kernel: int) returns (ok: bool)
    requires src.Valid() && dst.Valid() && src.data != dst.data
    requires MorphArgs(src, dst) ==> src.data.Length <= dst.data.Length
    modifies dst.data
    ensures ok <==> MorphArgs(src, dst)
    ensures ok ==> dst.data[..src.data.Length] == Filtered(BinDilation, src.data[..], src.width, src.height, Offset(kernel))
    ensures ok ==> dst.data[src.data.Length..] == old(dst.data[src.data.Length..])
    ensures !ok ==> dst.data[..] == old(dst.data[..])
  {
    var offset := CDiv(kernel - 1, 2);
    if src.width <= 0 || src.height <= 0 {
      return false;
    }
    if src.channels != 1 || dst.channels != 1 {
      return false;
    }
    FilterInto(BinDilation, src, dst, offset);
    return true;
  }

  /** vc_grayscale_open: erosion into a temporary image, then dilation into
      dst, with the same kernel. */
  method GrayOpen(src: Image, dst: Image, kernel: int) returns (ok: bool)
    requires src.Valid() && dst.Valid() && src.data != dst.data
    requires MorphArgs(src, dst) ==> src.data.Length <= dst.data.Length
    modifies dst.data
    ensures ok <==> MorphArgs(src, dst)
    ensures ok ==> (dst.data[..src.data.Length] ==
      Filtered(Dilation, Filtered(Erosion, src.data[..], src.width, src.height, Offset(kernel)),
              src.width, src.height, Offset(kernel)))
    ensures ok ==> dst.data[src.data.Length..] == old(dst.data[src.data.Length..])
    ensures !ok ==> dst.data[..] == old(dst.data[..])
  {
    var temp := ImageNew(src.width, src.height, 1, 255);
    assert temp != null;
    var eroded := GrayErode(src, temp, kernel);
    if !eroded {
      return false;
    }
    assert temp.data[..] == temp.data[..src.data.Length];
    var dilated := GrayDilate(temp, dst, kernel);
    if !dilated {
      return false;
    }
    return true;
  }

  /** vc_grayscale_close: dilation into a temporary image, then erosion into
      dst, with the same kernel. */
  method GrayClose(src: Image, dst: Image, kernel: int) returns (ok: bool)
    requires src.Valid() && dst.Valid() && src.data != dst.data
    requires MorphArgs(src, dst) ==> src.data.Length <= dst.data.Length
    modifies dst.data
    ensures ok <==> MorphArgs(src, dst)
    ensures ok ==> (dst.data[..src.data.Length] ==
      Filtered(Erosion, Filtered(Dilation, src.data[..], src.width, src.height, Offset(kernel)),
              src.width, src.height, Offset(kernel)))
    ensures ok ==> dst.data[src.data.Length..] == old(dst.data[src.data.Length..])
    ensures !ok ==> dst.data[..] == old(dst.data[..])
  {
    var temp := ImageNew(src.width, src.height, 1, 255);
    assert temp != null;
    var dilated := GrayDilate(src, temp, kernel);
    if !dilated {
      return false;
    }
    assert temp.data[..] == temp.data[..src.data.Length];
    var eroded := GrayErode(temp, dst, kernel);
    if !eroded {
      return false;
    }
    return true;
  }

  /** vc_binary_open: erosion with `kernel` into an auxiliary image, then
      dilation with `kernel2` into dst. Neither result is checked and 1 is
      always returned; when the erosion refuses src the auxiliary image is
      dilated uninitialised, so only the well-formed case has a defined
      result. */
  method BinaryOpen(src: Image, dst: Image, kernel: int, kernel2: int) returns (ok: bool)
    requires src.Valid() && dst.Valid() && src.data != dst.data
    requires src.width > 0 && src.height > 0 && dst.channels == 1 ==>
      src.width * src.height <= dst.data.Length
    modifies dst.data
    ensures ok
    ensures MorphArgs(src, dst) ==> (dst.data[..src.data.Length] ==
      Filtered(BinDilation, Filtered(BinErosion, src.data[..], src.width, src.height, Offset(kernel)),
              src.width, src.height, Offset(kernel2)))
    ensures src.width > 0 && src.height > 0 && dst.channels == 1 ==>
      dst.data[src.width * src.height..] == old(dst.data[src.width * src.height..])
    ensures !(src.width > 0 && src.height > 0 && dst.channels == 1) ==> dst.data[..] == old(dst.data[..])
  {
    var aux := ImageNew(src.width, src.height, 1, 255);
    assert aux != null;
    var eroded := BinaryErode(src, aux, kernel);
    if eroded {
      assert aux.data[..] == aux.data[..src.data.Length];
    }
    var _ := BinaryDilate(aux, dst, kernel2);
    return true;
  }

  /** vc_binary_close: dilation with `kernel`, then erosion with `kernel2`. */
  method BinaryClose(src: Image, dst: Image, kernel: int, kernel2: int) returns (ok: bool)
    requires src.Valid() && dst.Valid() && src.data != dst.data
    requires src.width > 0 && src.height > 0 && dst.channels == 1 ==>
      src.width * src.height <= dst.data.Length
    modifies dst.data
    ensures ok
    ensures MorphArgs(src, dst) ==> (dst.data[..src.data.Length] ==
      Filtered(BinErosion, Filtered(BinDilation, src.data[..], src.width, src.height, Offset(kernel)),
              src.width, src.height, Offset(kernel2)))
    ensures src.width > 0 && src.height > 0 && dst.channels == 1 ==>
      dst.data[src.width * src.height..] == old(dst.data[src.width * src.height..])
    ensures !(src.width > 0 && src.height > 0 && dst.channels == 1) ==> dst.data[..] == old(dst.data[..])
  {
    var aux := ImageNew(src.width, src.height, 1, 255);
    assert aux != null;
    var dilated := BinaryDilate(src, aux, kernel);
    if dilated {
      assert aux.data[..] == aux.data[..src.data.Length];
    }
    var _ := BinaryErode(aux, dst, kernel2);
    return true;
  }
}
