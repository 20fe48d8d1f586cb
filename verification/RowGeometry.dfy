/** Rows of pixels: sizes and offsets (SkImageInfo.h, SkImageInfoPriv.h) and the row stride that
    decodeFrame asks of the decoder (avifImageJvm.cpp). */
module RowGeometry {
  import opened Words

  datatype ColorType =
    | Unknown | Alpha8 | Rgb565 | Argb4444 | Rgba8888 | Rgb888x | Bgra8888 | Rgba1010102 | Bgra1010102
    | Rgb101010x | Bgr101010x | Gray8 | RgbaF16Norm | RgbaF16 | RgbaF32 | R8G8Unorm | A16Float | R16G16Float
    | A16Unorm | R16G16Unorm | R16G16B16A16Unorm | Srgba8888 | R8Unorm

  const INT32_MAX: nat := 0x7FFF_FFFF
  const SIZE_MAX: nat := 0xFFFF_FFFF_FFFF_FFFF

  /** `SkColorTypeShiftPerPixel`.  At most 3, as `SkImageInfo::shiftPerPixel` documents, for every type but
      32-bit floats. */
  function ShiftPerPixel(ct: ColorType): (shift: nat)
    ensures shift <= 4 && (shift <= 3 <==> !ct.RgbaF32?)
  {
    match ct
    case Unknown => 0 case Alpha8 => 0 case Rgb565 => 1 case Argb4444 => 1 case Rgba8888 => 2
    case Rgb888x => 2 case Bgra8888 => 2 case Rgba1010102 => 2 case Rgb101010x => 2 case Bgra1010102 => 2
    case Bgr101010x => 2 case Gray8 => 0 case RgbaF16Norm => 3 case RgbaF16 => 3 case RgbaF32 => 4
    case R8G8Unorm => 1 case A16Unorm => 1 case R16G16Unorm => 2 case A16Float => 1 case R16G16Float => 2
    case R16G16B16A16Unorm => 3 case Srgba8888 => 2 case R8Unorm => 0
  }

  // ----- What a pixel of each type holds

  datatype Channel = Red | Green | Blue | Alpha | Gray | Padding

  /** The channels of a pixel with their widths in bits, and whether they are floating point. */
  datatype PixelFormat = PixelFormat(channels: seq<(Channel, nat)>, isFloat: bool)

  function Rgba(bits: nat, alphaBits: nat): seq<(Channel, nat)> {
    [(Red, bits), (Green, bits), (Blue, bits), (Alpha, alphaBits)]
  }

  function Bgra(bits: nat, alphaBits: nat): seq<(Channel, nat)> {
    [(Blue, bits), (Green, bits), (Red, bits), (Alpha, alphaBits)]
  }

  function Padded(channels: seq<(Channel, nat)>): seq<(Channel, nat)>
    requires |channels| == 4
  {
    channels[3 := (Padding, channels[3].1)]
  }

  /** The comments of the enumeration `SkColorType`. */
  function Documented(ct: ColorType): PixelFormat {
    match ct
    case Unknown => PixelFormat([], false)
    case Alpha8 => PixelFormat([(Alpha, 8)], false)
    case Rgb565 => PixelFormat([(Red, 5), (Green, 6), (Blue, 5)], false)
    case Argb4444 => PixelFormat([(Alpha, 4), (Red, 4), (Green, 4), (Blue, 4)], false)
    case Rgba8888 => PixelFormat(Rgba(8, 8), false)
    case Rgb888x => PixelFormat(Padded(Rgba(8, 8)), false)
    case Bgra8888 => PixelFormat(Bgra(8, 8), false)
    case Rgba1010102 => PixelFormat(Rgba(10, 2), false)
    case Bgra1010102 => PixelFormat(Bgra(10, 2), false)
    case Rgb101010x => PixelFormat(Padded(Rgba(10, 2)), false)
    case Bgr101010x => PixelFormat(Padded(Bgra(10, 2)), false)
    case Gray8 => PixelFormat([(Gray, 8)], false)
    case RgbaF16Norm => PixelFormat(Rgba(16, 16), true)
    case RgbaF16 => PixelFormat(Rgba(16, 16), true)
    case RgbaF32 => PixelFormat(Rgba(32, 32), true)
    case R8G8Unorm => PixelFormat([(Red, 8), (Green, 8)], false)
    case A16Float => PixelFormat([(Alpha, 16)], true)
    case R16G16Float => PixelFormat([(Red, 16), (Green, 16)], true)
    case A16Unorm => PixelFormat([(Alpha, 16)], false)
    case R16G16Unorm => PixelFormat([(Red, 16), (Green, 16)], false)
    case R16G16B16A16Unorm => PixelFormat(Rgba(16, 16), false)
    case Srgba8888 => PixelFormat(Rgba(8, 8), false)
    case R8Unorm => PixelFormat([(Red, 8)], false)
  }

  function TotalBits(channels: seq<(Channel, nat)>): nat {
    if |channels| == 0 then 0 else channels[0].1 + TotalBits(channels[1..])
  }

  /** The bytes of a pixel hold exactly the documented channels, padding included. */
  lemma BytesHoldChannels(ct: ColorType)
    ensures TotalBits(Documented(ct).channels) == 8 * BytesPerPixel(ct)
    ensures ct.Unknown? ==> ShiftPerPixel(ct) == 0
  {
    SmallPowers();
    hide TotalBits, Pow2;
    SumBits(Documented(ct).channels);
  }

  lemma SmallPowers()
    ensures Pow2(0) == 1 && Pow2(1) == 2 && Pow2(2) == 4 && Pow2(3) == 8 && Pow2(4) == 16
  {
  }

  lemma SumBits(channels: seq<(Channel, nat)>)
    ensures |channels| == 0 ==> TotalBits(channels) == 0
    ensures |channels| == 1 ==> TotalBits(channels) == channels[0].1
    ensures |channels| == 2 ==> TotalBits(channels) == channels[0].1 + channels[1].1
    ensures |channels| == 3 ==> TotalBits(channels) == channels[0].1 + channels[1].1 + channels[2].1
    ensures |channels| == 4 ==> TotalBits(channels) == channels[0].1 + channels[1].1 + channels[2].1 + channels[3].1
  {
    if |channels| > 0 {
      SumBits(channels[1..]);
    }
  }

  /** Bytes of a pixel as documented: none for the unknown type, else two to the shift. */
  function BytesPerPixel(ct: ColorType): nat {
    if ct.Unknown? then 0 else Pow2(ShiftPerPixel(ct))
  }

  /** An `int`. */
  type Int32 = n: int | -0x8000_0000 <= n <= 0x7FFF_FFFF

  /** A `size_t` or `uint64_t`. */
  type Size = n: nat | n <= 0xFFFF_FFFF_FFFF_FFFF

  datatype ImageInfo = ImageInfo(colorType: ColorType, width: Int32, height: Int32)

  /** `minRowBytes64`: a signed 64-bit product read as unsigned. */
  function MinRowBytes64(info: ImageInfo): Size {
    Wrap64(info.width * BytesPerPixel(info.colorType))
  }

  /** `minRowBytes`: zero when the row does not fit 31 bits. */
  function MinRowBytes(info: ImageInfo): Size {
    if MinRowBytes64(info) > INT32_MAX then 0 else MinRowBytes64(info)
  }

  /** `validRowBytes`. */
  function ValidRowBytes(info: ImageInfo, rowBytes: Size): bool {
    if rowBytes < MinRowBytes64(info) then false
    else
      var shift := ShiftPerPixel(info.colorType);
      Wrap64(Shr(rowBytes, shift) * Pow2(shift)) == rowBytes
  }

  /** `SkColorTypeComputeOffset`: 0 for the unknown type, whose pixels take no bytes. */
  function ComputeOffset(info: ImageInfo, x: Int32, y: Int32, rowBytes: Size): (offset: Size)
    requires 0 <= x && 0 <= y
    ensures BytesPerPixel(info.colorType) == 0 ==> offset == 0
  {
    if info.colorType.Unknown? then 0
    else Wrap64(Wrap64(y * rowBytes) + Wrap64(x * Pow2(ShiftPerPixel(info.colorType))))
  }

  /** `computeByteSize` as documented. */
  function ComputeByteSize(info: ImageInfo, rowBytes: Size): Size {
    if info.height == 0 then 0
    else
      var size := (info.height - 1) * rowBytes + info.width * BytesPerPixel(info.colorType);
      if 0 <= size < SIZE_MAX then size else SIZE_MAX
  }

  predicate Sensible(info: ImageInfo) { info.width >= 0 && info.height >= 0 && !info.colorType.Unknown? }

  lemma PixelSizes(ct: ColorType)
    ensures Pow2(ShiftPerPixel(ct)) in {1, 2, 4, 8, 16}
  {
    assert Pow2(0) == 1 && Pow2(1) == 2 && Pow2(2) == 4 && Pow2(3) == 8 && Pow2(4) == 16;
  }

  /** The 64-bit row size is exact for every width an image may have, and a negative width never looks like
      a row that fits 31 bits. */
  lemma MinRowBytesExact(info: ImageInfo)
    ensures info.width >= 0 ==> MinRowBytes64(info) == info.width * BytesPerPixel(info.colorType)
    ensures info.width < 0 && !info.colorType.Unknown? ==> MinRowBytes64(info) > INT32_MAX && MinRowBytes(info) == 0
  {
    PixelSizes(info.colorType);
    hide Pow2, ShiftPerPixel;
  }

  /** `validRowBytes` accepts exactly the sizes that are a whole number of pixels and no smaller than
      `minRowBytes64`: for images with a width, those that hold a row. */
  lemma ValidRowBytesIff(info: ImageInfo, rowBytes: Size)
    ensures ValidRowBytes(info, rowBytes)
       <==> && MinRowBytes64(info) <= rowBytes
            && exists pixels: nat :: rowBytes == pixels * Pow2(ShiftPerPixel(info.colorType))
    ensures Sensible(info) ==>
              (ValidRowBytes(info, rowBytes)
               <==> exists pixels: nat :: pixels >= info.width && rowBytes == pixels * BytesPerPixel(info.colorType))
  {
    PixelSizes(info.colorType);
    hide Pow2, ShiftPerPixel, MinRowBytes64, BytesPerPixel, Wrap64, Shr;
    RoundTripIff(rowBytes, ShiftPerPixel(info.colorType));
    if Sensible(info) {
      SensibleRow(info);
      hide ValidRowBytes;
      WholePixels(rowBytes, BytesPerPixel(info.colorType), info.width);
      WholePixels(rowBytes, BytesPerPixel(info.colorType), 0);
    }
  }

  /** Shifting down and up again keeps exactly the whole numbers of pixels. */
  lemma RoundTripIff(rowBytes: Size, shift: nat)
    requires Pow2(shift) in {1, 2, 4, 8, 16}
    ensures Wrap64(Shr(rowBytes, shift) * Pow2(shift)) == rowBytes
       <==> exists pixels: nat :: rowBytes == pixels * Pow2(shift)
  {
    hide Pow2;
    WholePixels(rowBytes, Pow2(shift), 0);
  }

  lemma SensibleRow(info: ImageInfo)
    requires Sensible(info)
    ensures BytesPerPixel(info.colorType) == Pow2(ShiftPerPixel(info.colorType))
    ensures MinRowBytes64(info) == info.width * BytesPerPixel(info.colorType)
  {
    hide Pow2, ShiftPerPixel;
    PixelSizes(info.colorType);
    MinRowBytesExact(info);
  }

  lemma WholePixels(rowBytes: Size, bpp: nat, width: nat)
    requires bpp in {1, 2, 4, 8, 16}
    ensures rowBytes / bpp * bpp <= rowBytes
    ensures (rowBytes >= width * bpp && rowBytes / bpp * bpp == rowBytes)
       <==> exists pixels: nat :: pixels >= width && rowBytes == pixels * bpp
  {
    var pixels := rowBytes / bpp;
    if n: nat :| n >= width && rowBytes == n * bpp {
      DivModUnique(rowBytes, bpp, n, 0);
    }
    if pixels * bpp == rowBytes && rowBytes >= width * bpp {
      assert pixels >= width;
    }
  }

  /** `minRowBytes` is itself valid exactly when a row has a size and fits 31 bits. */
  lemma MinRowBytesValidIff(info: ImageInfo)
    ensures ValidRowBytes(info, MinRowBytes(info)) <==> 0 <= info.width * BytesPerPixel(info.colorType) <= INT32_MAX
  {
    MinRowBytesExact(info);
    ValidRowBytesIff(info, MinRowBytes(info));
    PixelSizes(info.colorType);
    hide Pow2, ShiftPerPixel, ValidRowBytes;
    var row, unit := info.width * BytesPerPixel(info.colorType), Pow2(ShiftPerPixel(info.colorType));
    if info.colorType.Unknown? {
      assert MinRowBytes64(info) == 0 == 0 * unit;
    } else if info.width >= 0 {
      assert row == info.width * unit;
    }
  }

  /** The documented storage, exactly: the last byte of the last pixel is the last byte, no rows need none,
      and what exceeds a `size_t` is reported as the largest one. */
  lemma ByteSizeExact(info: ImageInfo, rowBytes: Size)
    requires Sensible(info)
    ensures var size := (info.height - 1) * rowBytes + info.width * BytesPerPixel(info.colorType);
            ComputeByteSize(info, rowBytes)
            == if info.height == 0 then 0 else if size > SIZE_MAX then SIZE_MAX else size
    ensures Fits(info, rowBytes) && info.width > 0 && info.height > 0
            ==> ComputeByteSize(info, rowBytes)
                == ComputeOffset(info, info.width - 1, info.height - 1, rowBytes) + BytesPerPixel(info.colorType)
  {
    hide Pow2, ShiftPerPixel, BytesPerPixel, ComputeOffset;
    Product(info.width, BytesPerPixel(info.colorType));
    if info.height > 0 {
      Product(info.height - 1, rowBytes);
    }
    if Fits(info, rowBytes) && info.width > 0 && info.height > 0 {
      OffsetExact(info, info.width - 1, info.height - 1, rowBytes);
    }
  }

  // ----- Where pixels are

  /** The bytes of one pixel. */
  predicate InPixel(info: ImageInfo, x: Int32, y: Int32, rowBytes: Size, b: int)
    requires 0 <= x && 0 <= y
  {
    var start := ComputeOffset(info, x, y, rowBytes);
    start <= b < start + BytesPerPixel(info.colorType)
  }

  /** Rows at least as long as `minRowBytes64` and a buffer size that does not overflow. */
  predicate Fits(info: ImageInfo, rowBytes: Size) {
    && Sensible(info)
    && info.width * BytesPerPixel(info.colorType) <= rowBytes
    && ComputeByteSize(info, rowBytes) < SIZE_MAX
  }

  /** Offsets of pixels in range are exact: nothing wraps, and every pixel lies inside the buffer. */
  lemma OffsetExact(info: ImageInfo, x: Int32, y: Int32, rowBytes: Size)
    requires Fits(info, rowBytes) && 0 <= x < info.width && 0 <= y < info.height
    ensures var bpp := BytesPerPixel(info.colorType);
            && ComputeOffset(info, x, y, rowBytes) == y * rowBytes + x * bpp
            && 0 <= x * bpp <= x * bpp + bpp <= rowBytes
            && y * rowBytes + x * bpp + bpp <= ComputeByteSize(info, rowBytes)
  {
    var bpp := BytesPerPixel(info.colorType);
    PixelSizes(info.colorType);
    hide Pow2, ShiftPerPixel, Wrap64;
    assert 0 <= x * bpp <= x * bpp + bpp <= info.width * bpp by { InRow(x, info.width, bpp); }
    RowsBelow(y, info.height - 1, rowBytes);
    var row, last := y * rowBytes, (info.height - 1) * rowBytes;
    assert row + x * bpp + bpp <= last + info.width * bpp == ComputeByteSize(info, rowBytes);
    Wrap64Small(row);
    Wrap64Small(x * bpp);
    Wrap64Small(row + x * bpp);
  }

  lemma InRow(x: nat, width: nat, bpp: nat)
    requires x < width && bpp in {1, 2, 4, 8, 16}
    ensures 0 <= x * bpp <= x * bpp + bpp <= width * bpp
  {
  }

  lemma RowsBelow(y: nat, last: int, rowBytes: nat)
    requires y <= last
    ensures 0 <= y * rowBytes <= last * rowBytes
    ensures y < last ==> y * rowBytes + rowBytes <= last * rowBytes
  {
    var between := last - y;
    assert last * rowBytes == y * rowBytes + between * rowBytes;
    Product(y, rowBytes);
    Product(between, rowBytes);
  }

  /** Different pixels share no byte. */
  lemma PixelsDisjoint(info: ImageInfo, x: Int32, y: Int32, x': Int32, y': Int32, rowBytes: Size, b: int)
    requires Fits(info, rowBytes) && 0 <= x < info.width && 0 <= y < info.height
    requires 0 <= x' < info.width && 0 <= y' < info.height
    requires InPixel(info, x, y, rowBytes, b) && InPixel(info, x', y', rowBytes, b)
    ensures x == x' && y == y'
  {
    OffsetExact(info, x, y, rowBytes);
    OffsetExact(info, x', y', rowBytes);
    PixelSizes(info.colorType);
    var bpp := BytesPerPixel(info.colorType);
    hide Pow2, ShiftPerPixel, ComputeOffset, ComputeByteSize, BytesPerPixel;
    SameRow(y, y', rowBytes, b - y * rowBytes, b - y' * rowBytes);
    SameColumn(x, x', bpp, b - y * rowBytes);
  }

  lemma SameRow(y: nat, y': nat, rowBytes: nat, o: int, o': int)
    requires 0 <= o < rowBytes && 0 <= o' < rowBytes && y * rowBytes + o == y' * rowBytes + o'
    ensures y == y'
  {
    DivModUnique(y * rowBytes + o, rowBytes, y, o);
    DivModUnique(y' * rowBytes + o', rowBytes, y', o');
  }

  lemma SameColumn(x: nat, x': nat, bpp: nat, o: int)
    requires bpp in {1, 2, 4, 8, 16} && x * bpp <= o < x * bpp + bpp && x' * bpp <= o < x' * bpp + bpp
    ensures x == x'
  {
  }

  // ----- The stride decodeFrame asks for

  datatype RgbFormat = FormatRgba | FormatRgb565 | OtherFormat

  /** The fields of `avifRGBImage` that decodeFrame sets. */
  datatype RgbSettings = RgbSettings(format: RgbFormat, depth: nat, isFloat: bool)

  /** The pixels libavif writes for these fields. */
  function Written(s: RgbSettings): PixelFormat {
    match s.format
    case FormatRgba => PixelFormat(Rgba(s.depth, s.depth), s.isFloat)
    case FormatRgb565 => PixelFormat([(Red, 5), (Green, 6), (Blue, 5)], s.isFloat)
    case OtherFormat => PixelFormat([], s.isFloat)
  }

  datatype Outcome = Decoding | UnsupportedColorType

  /** libavif's pixel size, which the source calls: four channels, or one 16-bit word for 565. */
  ghost predicate PixelSizeContract(pixelSize: RgbSettings -> nat) {
    forall s: RgbSettings ::
      && (s.format.FormatRgba? && s.depth == 8 ==> pixelSize(s) == 4)
      && (s.format.FormatRgba? && s.depth == 16 ==> pixelSize(s) == 8)
      && (s.format.FormatRgb565? && s.depth == 8 ==> pixelSize(s) == 2)
  }

  predicate Accepted(ct: ColorType) { ct.Rgba8888? || ct.Rgb565? || ct.RgbaF16? }

  class AvifRGBImage {
    var settings: RgbSettings
    var rowBytes: nat

    constructor (defaults: RgbSettings)
      ensures settings == defaults
    {
      settings, rowBytes := defaults, 0;
    }

    /** `decodeFrame` up to the call of the decoder; `settings` hold libavif's defaults on entry. */
    method Prepare(colorType: ColorType, imageWidth: nat, pixelSize: RgbSettings -> nat) returns (outcome: Outcome)
      requires PixelSizeContract(pixelSize) && settings.format.FormatRgba? && imageWidth < W32
      modifies this
      ensures outcome == if Accepted(colorType) then Decoding else UnsupportedColorType
      ensures !Accepted(colorType) ==> settings == old(settings) && rowBytes == old(rowBytes)
      ensures Accepted(colorType) ==> Written(settings).channels == Documented(colorType).channels
                                      && settings.isFloat == (Documented(colorType).isFloat || old(settings).isFloat)
                                      && settings.depth == if colorType.RgbaF16? then 16 else 8
      ensures Accepted(colorType) ==> pixelSize(settings) == BytesPerPixel(colorType)
                                      && rowBytes == FrameStride(colorType, imageWidth)
    {
      if !colorType.Rgba8888? && !colorType.Rgb565? && !colorType.RgbaF16? {
        return UnsupportedColorType;
      }
      if colorType.RgbaF16? {
        settings := settings.(depth := 16);
        settings := settings.(isFloat := true);
      } else if colorType.Rgb565? {
        settings := settings.(format := FormatRgb565);
        settings := settings.(depth := 8);
      } else {
        settings := settings.(format := FormatRgba);
        settings := settings.(depth := 8);
      }
      AcceptedSizes(colorType);
      rowBytes := Wrap32(imageWidth * pixelSize(settings));
      return Decoding;
    }
  }

  lemma AcceptedSizes(ct: ColorType)
    requires Accepted(ct)
    ensures BytesPerPixel(ct) == if ct.RgbaF16? then 8 else if ct.Rgb565? then 2 else 4
  {
    assert Pow2(1) == 2 && Pow2(2) == 4 && Pow2(3) == 8;
  }

  /** The stride that `Prepare` stores: the frame's row in a 32-bit register. */
  function FrameStride(ct: ColorType, frameWidth: nat): nat { Wrap32(frameWidth * BytesPerPixel(ct)) }

  /** The decoder's stride is the bitmap's minimal row when the frame has the bitmap's width and the row fits
      31 bits. */
  lemma StrideIsMinRowBytes(info: ImageInfo)
    requires Sensible(info) && info.width * BytesPerPixel(info.colorType) <= INT32_MAX
    ensures FrameStride(info.colorType, info.width) == MinRowBytes(info)
  {
    MinRowBytesExact(info);
    hide Pow2, BytesPerPixel;
  }

  /** A frame of any size, decoded with the stride of its own width. */
  datatype Frame = Frame(ct: ColorType, width: nat, height: nat)
  {
    predicate Ok() { Accepted(ct) && width < W32 && height < W32 }

    predicate Has(x: int, y: int) { 0 <= x < width && 0 <= y < height }

    /** Where the decoder writes a pixel. */
    function Offset(x: int, y: int): int { y * FrameStride(ct, width) + x * BytesPerPixel(ct) }

    /** One past the last byte of the last pixel; 0 when there is no pixel. */
    function End(): int {
      if width == 0 || height == 0 then 0
      else (height - 1) * FrameStride(ct, width) + width * BytesPerPixel(ct)
    }
  }

  /** The bytes the decoder writes for one pixel. */
  predicate Writes(f: Frame, x: int, y: int, b: int) {
    f.Has(x, y) && f.Offset(x, y) <= b < f.Offset(x, y) + BytesPerPixel(f.ct)
  }

  /** The last byte written bounds all of them: the decoder stays inside a buffer exactly when the frame's
      end does. */
  lemma WritesInsideIff(f: Frame, size: nat)
    requires f.Ok()
    ensures (forall x, y, b :: Writes(f, x, y, b) ==> 0 <= b < size) <==> f.End() <= size
  {
    AcceptedSizes(f.ct);
    hide FrameStride, BytesPerPixel;
    var stride, bpp := FrameStride(f.ct, f.width), BytesPerPixel(f.ct);
    forall x, y, b | Writes(f, x, y, b)
      ensures 0 <= b < f.End()
    {
      InRow(x, f.width, bpp);
      RowsBelow(y, f.height - 1, stride);
    }
    if f.width > 0 && f.height > 0 {
      Product(f.height - 1, stride);
      assert (f.width - 1) * bpp + bpp == f.width * bpp;
      assert Writes(f, f.width - 1, f.height - 1, f.End() - 1);
    }
  }

  /** Nothing in decodeFrame compares the frame with the bitmap.  The decoder writes every pixel the two
      have in common where the bitmap reads it exactly when the bitmap's rows are as long as the stride, or
      at most one row, or no column, is common. */
  lemma DecodedPixelsInPlaceIff(f: Frame, info: ImageInfo, rowBytes: Size)
    requires f.Ok() && f.ct == info.colorType && Fits(info, rowBytes)
    ensures (forall x: Int32, y: Int32 :: f.Has(x, y) && x < info.width && y < info.height
               ==> ComputeOffset(info, x, y, rowBytes) == f.Offset(x, y))
       <==> || rowBytes == FrameStride(f.ct, f.width)
            || info.height <= 1 || f.height <= 1 || info.width == 0 || f.width == 0
  {
    var bpp, stride := BytesPerPixel(info.colorType), FrameStride(f.ct, f.width);
    forall x: Int32, y: Int32 | f.Has(x, y) && x < info.width && y < info.height
      ensures ComputeOffset(info, x, y, rowBytes) == y * rowBytes + x * bpp
    {
      OffsetExact(info, x, y, rowBytes);
    }
    hide ComputeOffset, Fits, BytesPerPixel, FrameStride;
    if info.height > 1 && info.width > 0 && f.height > 1 && f.width > 0 {
      assert ComputeOffset(info, 0, 1, rowBytes) == 1 * rowBytes + 0 * bpp;
      assert f.Offset(0, 1) == 1 * stride + 0 * bpp;
    }
  }

  /** For a bitmap of the frame's own size: everything written is inside the bitmap, and in place exactly
      when the bitmap is tightly packed in 32 bits, or has at most one row, or no column. */
  lemma SameSizeInPlaceIff(info: ImageInfo, rowBytes: Size)
    requires Accepted(info.colorType) && Fits(info, rowBytes)
    ensures var f := Frame(info.colorType, info.width, info.height);
            && f.End() <= ComputeByteSize(info, rowBytes)
            && ((forall x: Int32, y: Int32 :: f.Has(x, y) ==> ComputeOffset(info, x, y, rowBytes) == f.Offset(x, y))
                <==> || rowBytes == Wrap32(info.width * BytesPerPixel(info.colorType))
                     || info.height <= 1 || info.width == 0)
  {
    SameSizeInside(info, rowBytes);
    DecodedPixelsInPlaceIff(Frame(info.colorType, info.width, info.height), info, rowBytes);
    hide ComputeOffset, ComputeByteSize, BytesPerPixel;
  }

  lemma SameSizeInside(info: ImageInfo, rowBytes: Size)
    requires Accepted(info.colorType) && Fits(info, rowBytes)
    ensures Frame(info.colorType, info.width, info.height).End() <= ComputeByteSize(info, rowBytes)
  {
    var stride, row := FrameStride(info.colorType, info.width), info.width * BytesPerPixel(info.colorType);
    AcceptedSizes(info.colorType);
    hide BytesPerPixel;
    assert stride <= row <= rowBytes;
    if info.height > 0 {
      MulOrder(stride, rowBytes, info.height - 1);
    }
  }

  /** The same for the row sizes an `SkBitmap` accepts, which fit 31 bits: there the stride cannot wrap, and
      in place means tightly packed. */
  lemma BitmapInPlaceIff(info: ImageInfo, rowBytes: Size)
    requires Accepted(info.colorType) && Fits(info, rowBytes) && rowBytes <= INT32_MAX
    ensures FrameStride(info.colorType, info.width) == MinRowBytes(info) == info.width * BytesPerPixel(info.colorType)
    ensures var f := Frame(info.colorType, info.width, info.height);
            (forall x: Int32, y: Int32 :: f.Has(x, y) ==> ComputeOffset(info, x, y, rowBytes) == f.Offset(x, y))
            <==> rowBytes == MinRowBytes(info) || info.height <= 1 || info.width == 0
  {
    StrideIsMinRowBytes(info);
    SameSizeInPlaceIff(info, rowBytes);
    MinRowBytesExact(info);
    AcceptedSizes(info.colorType);
    hide BytesPerPixel, ComputeOffset, MinRowBytes64, ComputeByteSize;
  }

  /** A padded bitmap of the frame's size: a valid row size of 8 for one pixel of 4 bytes.  The bitmap reads
      the second row at 8, the decoder writes it at 4. */
  lemma PaddedBitmapCounterExample(f: Frame, info: ImageInfo)
    requires f == Frame(Rgba8888, 1, 2) && info == ImageInfo(Rgba8888, 1, 2)
    ensures Fits(info, 8) && ValidRowBytes(info, 8)
    ensures ComputeOffset(info, 0, 1, 8) == 8 && f.Offset(0, 1) == 4
  {
    ValidRowBytesIff(info, 8);
    AcceptedSizes(info.colorType);
    hide ValidRowBytes, BytesPerPixel, Pow2;
    assert 8 == 2 * BytesPerPixel(info.colorType);
  }

  /** A frame wider than the bitmap: the decoder writes 8 bytes into a bitmap of 4. */
  lemma LargeFrameCounterExample(f: Frame, info: ImageInfo)
    requires f == Frame(Rgba8888, 2, 1) && info == ImageInfo(Rgba8888, 1, 1)
    ensures Fits(info, 4) && ComputeByteSize(info, 4) == 4 && f.End() == 8 && Writes(f, 1, 0, 7)
  {
    assert Pow2(2) == 4;
  }

  /** The stride keeps the frame's own pixels apart exactly when its row fits 32 bits, or there is at most
      one row. */
  lemma FramePixelsApartIff(f: Frame)
    requires f.Ok()
    ensures (forall x, y, x', y', b :: Writes(f, x, y, b) && Writes(f, x', y', b) ==> x == x' && y == y')
       <==> f.width * BytesPerPixel(f.ct) < W32 || f.height <= 1
  {
    AcceptedSizes(f.ct);
    var bpp, stride := BytesPerPixel(f.ct), FrameStride(f.ct, f.width);
    if f.width * bpp < W32 || f.height <= 1 {
      forall x, y, x', y', b | Writes(f, x, y, b) && Writes(f, x', y', b)
        ensures x == x' && y == y'
      {
        SharedByte(f, x, y, x', y', b);
      }
    } else {
      WrappedRow(f.width, bpp);
      hide FrameStride, BytesPerPixel;
      assert f.Offset(stride / bpp, 0) == stride == f.Offset(0, 1);
      assert Writes(f, stride / bpp, 0, stride) && Writes(f, 0, 1, stride);
    }
  }

  /** A row that does not fit 32 bits wraps to a shorter one, still a whole number of pixels. */
  lemma WrappedRow(width: nat, bpp: nat)
    requires bpp in {2, 4, 8} && W32 <= width * bpp
    ensures var stride := Wrap32(width * bpp);
            0 <= stride / bpp < width && stride / bpp * bpp == stride
  {
    if bpp == 2 {
      WrappedPixels(width, 2, W32 / 2);
    } else if bpp == 4 {
      WrappedPixels(width, 4, W32 / 4);
    } else {
      WrappedPixels(width, 8, W32 / 8);
    }
  }

  lemma WrappedPixels(width: nat, bpp: nat, lap: nat)
    requires bpp > 0 && lap > 0 && lap * bpp == W32 && lap <= width
    ensures var stride := Wrap32(width * bpp);
            0 <= stride / bpp < width && stride / bpp * bpp == stride
  {
    var rest, laps := width % lap, width / lap;
    assert width == laps * lap + rest;
    assert width * bpp == laps * W32 + rest * bpp by { Regroup(laps, lap, bpp); }
    MulOrder(rest, lap - 1, bpp);
    Product(rest, bpp);
    DivModUnique(width * bpp, W32, laps, rest * bpp);
    DivModUnique(rest * bpp, bpp, rest, 0);
  }

  lemma Regroup(laps: nat, lap: nat, bpp: nat)
    ensures (laps * lap) * bpp == laps * (lap * bpp)
  {
  }

  lemma SharedByte(f: Frame, x: int, y: int, x': int, y': int, b: int)
    requires f.Ok() && Writes(f, x, y, b) && Writes(f, x', y', b)
    requires f.width * BytesPerPixel(f.ct) < W32 || f.height <= 1
    ensures x == x' && y == y'
  {
    AcceptedSizes(f.ct);
    var bpp, stride := BytesPerPixel(f.ct), FrameStride(f.ct, f.width);
    InRow(x, f.width, bpp);
    InRow(x', f.width, bpp);
    assert f.height > 1 ==> stride == f.width * bpp;
    hide FrameStride, BytesPerPixel;
    if f.height > 1 {
      SameRow(y, y', stride, b - y * stride, b - y' * stride);
    }
    SameColumn(x, x', bpp, b - y * stride);
  }
}
