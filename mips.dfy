/**
 * The mip-level arithmetic of DDSUnsplitter.cs: the byte size of one mip level by the legacy FourCC rules or
 * the DXGI format of a DX10 record, the offsets at which the separately stored mips sit in a combined file,
 * the "already valid" test built on them, and the table of mip dimensions.
 */
module MipLayout {
  import opened Wrappers
  import opened Bytes
  import opened Exceptions
  import opened DdsConstants
  import opened DdsHeaderModel

  /** `HeaderInfo`: the header, the DX10 record when there is one, and the bytes that follow the headers. */
  datatype HeaderInfo = HeaderInfo(header: DdsHeader, dxt10Header: Option<Dxt10Header>, postHeaderData: Option<seq<byte>>)

  /** The `DxgiFormat` values the size table names (Microsoft's DXGI_FORMAT numbering), and every other code. */
  datatype DxgiFormat =
    | R8G8Unorm | R8Unorm
    | Bc1Unorm | Bc1UnormSrgb | Bc2Unorm | Bc2UnormSrgb | Bc3Unorm | Bc3UnormSrgb
    | Bc4Unorm | Bc5Unorm | Bc5Snorm | Bc6hUf16 | Bc7Unorm | Bc7UnormSrgb
    | Unlisted(code: u32)

  /** The enum value the 32-bit DXGI code of a DX10 record denotes. */
  function DxgiName(code: u32): DxgiFormat {
    match code
    case 49 => R8G8Unorm
    case 61 => R8Unorm
    case 71 => Bc1Unorm
    case 72 => Bc1UnormSrgb
    case 74 => Bc2Unorm
    case 75 => Bc2UnormSrgb
    case 77 => Bc3Unorm
    case 78 => Bc3UnormSrgb
    case 80 => Bc4Unorm
    case 83 => Bc5Unorm
    case 84 => Bc5Snorm
    case 95 => Bc6hUf16
    case 98 => Bc7Unorm
    case 99 => Bc7UnormSrgb
    case _ => Unlisted(code)
  }

  /** The code a named format has in a DX10 record. */
  function DxgiCode(f: DxgiFormat): u32 {
    match f
    case R8G8Unorm => 49
    case R8Unorm => 61
    case Bc1Unorm => 71
    case Bc1UnormSrgb => 72
    case Bc2Unorm => 74
    case Bc2UnormSrgb => 75
    case Bc3Unorm => 77
    case Bc3UnormSrgb => 78
    case Bc4Unorm => 80
    case Bc5Unorm => 83
    case Bc5Snorm => 84
    case Bc6hUf16 => 95
    case Bc7Unorm => 98
    case Bc7UnormSrgb => 99
    case Unlisted(code) => code
  }

  /** Names and codes are one-to-one: every code reads back as the format it was written for. */
  lemma DxgiCodeRoundTrip(code: u32)
    ensures DxgiCode(DxgiName(code)) == code
    ensures DxgiName(code).Unlisted? ==> DxgiName(code).code == code
  {
  }

  // ---------------------------------------------------------------------------
  // 32-bit integer operations

  /** C#'s integer `/`, which rounds toward zero. */
  function Quot(a: int, b: nat): int
    requires b > 0
  {
    if a >= 0 then a / b else -((-a) / b)
  }

  function Pow2(i: nat): (r: nat)
    ensures r >= 1
  {
    if i == 0 then 1 else 2 * Pow2(i - 1)
  }

  /** `x >> i` on `int`: the shift count is taken modulo 32 and the shift rounds toward minus infinity. */
  function ShiftRight(x: int, i: nat): int {
    x / Pow2(i % 32)
  }

  /** `(x + 3) & ~3`: `x` rounded up to a multiple of four. */
  function Align4(x: int): (r: int)
    ensures r % 4 == 0
    ensures x <= r < x + 4
  {
    (x + 3) - (x + 3) % 4
  }

  // ---------------------------------------------------------------------------
  // CalculateMipSize

  /** Width times height of 4x4 blocks, each `blockSize` bytes: `((w + 3) / 4) * ((h + 3) / 4) * blockSize`. */
  function BlockCompressedSize(width: int, height: int, blockSize: nat): int {
    Quot(width + 3, 4) * Quot(height + 3, 4) * blockSize
  }

  /** `CalculateMipSizeDX10`. */
  function CalculateMipSizeDx10(width: int, height: int, format: DxgiFormat): Result<int, Exception> {
    match format
    case Bc1Unorm | Bc1UnormSrgb | Bc4Unorm => Success(BlockCompressedSize(width, height, 8))
    case Bc2Unorm | Bc2UnormSrgb | Bc3Unorm | Bc3UnormSrgb | Bc5Snorm | Bc5Unorm | Bc6hUf16 | Bc7Unorm | Bc7UnormSrgb =>
      Success(BlockCompressedSize(width, height, 16))
    case R8Unorm => Success(width * height)
    case R8G8Unorm => Success(width * height * 2)
    case Unlisted(_) => Failure(NotSupported)
  }

  /** `CalculateMipSizeLegacy`. The FourCC is compared as a 4-character string, so its "BC5_SNORM" case,
      nine characters long, never matches. */
  function CalculateMipSizeLegacy(width: int, height: int, pixelFormat: PixelFormat): Result<int, Exception> {
    if HasFlag(pixelFormat.flags, PixelFormatFourCC) then
      var fourCC: string := pixelFormat.fourCC;
      if fourCC == "DXT1" then Success(BlockCompressedSize(width, height, 8))
      else if fourCC == "DXT3" || fourCC == "DXT5" || fourCC == "ATI2" || fourCC == "BC5_SNORM" then
        Success(BlockCompressedSize(width, height, 16))
      else Failure(NotSupported)
    else
      var bpp := AsSigned(pixelFormat.rgbBitCount);
      Success(Quot(width * height * bpp + 7, 8))
  }

  /** `CalculateMipSize`: the DX10 record, when present, alone decides the format. */
  function CalculateMipSize(width: int, height: int, info: HeaderInfo): Result<int, Exception> {
    if info.dxt10Header.Some? then CalculateMipSizeDx10(width, height, DxgiName(info.dxt10Header.value.dxgiFormat))
    else CalculateMipSizeLegacy(width, height, info.header.pixelFormat)
  }

  /** The bytes of one 4x4 block when the texture is block-compressed, by the BC1-BC7 rules. */
  function BlockBytes(info: HeaderInfo): Option<nat> {
    if info.dxt10Header.Some? then
      match DxgiName(info.dxt10Header.value.dxgiFormat)
      case Bc1Unorm | Bc1UnormSrgb | Bc4Unorm => Some(8)
      case Bc2Unorm | Bc2UnormSrgb | Bc3Unorm | Bc3UnormSrgb | Bc5Snorm | Bc5Unorm | Bc6hUf16 | Bc7Unorm | Bc7UnormSrgb => Some(16)
      case _ => None
    else if HasFlag(info.header.pixelFormat.flags, PixelFormatFourCC) then
      var fourCC := info.header.pixelFormat.fourCC;
      if fourCC == "DXT1" then Some(8)
      else if fourCC == "DXT3" || fourCC == "DXT5" || fourCC == "ATI2" then Some(16)
      else None
    else None
  }

  /** Bytes per pixel of the uncompressed formats the DXGI table knows. */
  function DxgiPixelBytes(info: HeaderInfo): Option<nat> {
    if info.dxt10Header.Some? then
      match DxgiName(info.dxt10Header.value.dxgiFormat)
      case R8Unorm => Some(1)
      case R8G8Unorm => Some(2)
      case _ => None
    else None
  }

  /** The formats with a size rule: a listed DXGI format, a known FourCC, or an uncompressed legacy format. */
  predicate FormatSupported(info: HeaderInfo) {
    BlockBytes(info).Some? || DxgiPixelBytes(info).Some?
      || (info.dxt10Header.None? && !HasFlag(info.header.pixelFormat.flags, PixelFormatFourCC))
  }

  /** The size of a mip level is its number of 4x4 blocks (the least that cover it) times the bytes of a block,
      its pixel count times the bytes of a pixel, or its bit count rounded up to whole bytes; and
      `NotSupportedException` exactly for the other formats, whatever the dimensions. */
  lemma MipSizeRule(width: int, height: int, info: HeaderInfo)
    requires width >= 1 && height >= 1
    ensures CalculateMipSize(width, height, info).Success? <==> FormatSupported(info)
    ensures CalculateMipSize(width, height, info).Failure? ==> CalculateMipSize(width, height, info).error == NotSupported
    ensures BlockBytes(info).Some? ==>
      var size, bw, bh := CalculateMipSize(width, height, info).value, BlocksCovering(width), BlocksCovering(height);
      size == bw * bh * BlockBytes(info).value && 4 * bw - 4 < width <= 4 * bw && 4 * bh - 4 < height <= 4 * bh
    ensures DxgiPixelBytes(info).Some? ==> CalculateMipSize(width, height, info).value == width * height * DxgiPixelBytes(info).value
    ensures info.dxt10Header.None? && !HasFlag(info.header.pixelFormat.flags, PixelFormatFourCC) ==>
      var bits, size := width * height * AsSigned(info.header.pixelFormat.rgbBitCount), CalculateMipSize(width, height, info).value;
      bits >= 0 ==> 8 * size - 8 < bits <= 8 * size
  {
    BlocksCover(width);
    BlocksCover(height);
    if info.dxt10Header.None? && !HasFlag(info.header.pixelFormat.flags, PixelFormatFourCC) {
      var bits := width * height * AsSigned(info.header.pixelFormat.rgbBitCount);
      if bits >= 0 {
        assert Quot(bits + 7, 8) == (bits + 7) / 8;
      }
    }
  }

  /** The 4-wide blocks that `(x + 3) / 4` counts: the fewest that cover `x` pixels. */
  function BlocksCovering(x: int): int {
    Quot(x + 3, 4)
  }

  lemma BlocksCover(x: int)
    requires x >= 1
    ensures 4 * BlocksCovering(x) - 4 < x <= 4 * BlocksCovering(x)
  {
  }

  /** A block-compressed or DXGI-table level of at least one pixel takes at least one byte, and so does an
      uncompressed one with a positive bit count. */
  lemma MipSizePositive(width: int, height: int, info: HeaderInfo)
    requires width >= 1 && height >= 1 && FormatSupported(info)
    requires info.dxt10Header.None? && !HasFlag(info.header.pixelFormat.flags, PixelFormatFourCC) ==>
      AsSigned(info.header.pixelFormat.rgbBitCount) >= 1
    ensures CalculateMipSize(width, height, info).Success? && CalculateMipSize(width, height, info).value >= 1
  {
    MipSizeRule(width, height, info);
    if BlockBytes(info).Some? {
      var bw, bh := BlocksCovering(width), BlocksCovering(height);
      assert bw >= 1 && bh >= 1;
      assert bw * bh >= 1 by { MulPositive(bw, bh); }
      MulPositive(bw * bh, BlockBytes(info).value);
    } else if DxgiPixelBytes(info).Some? {
      MulPositive(width, height);
      MulPositive(width * height, DxgiPixelBytes(info).value);
    } else {
      var bpp := AsSigned(info.header.pixelFormat.rgbBitCount);
      MulPositive(width, height);
      MulPositive(width * height, bpp);
    }
  }

  lemma MulPositive(a: int, b: int)
    requires a >= 1 && b >= 1
    ensures a * b >= 1
  {
  }

  // ---------------------------------------------------------------------------
  // GetInitialOffset and CalculateMipmapOffsets

  /** The mips whose sizes the source assumes are kept in the header file. */
  const SmallMipsInHeader: int := 3

  /** `GetInitialOffset`: the 128-byte header, the DX10 record if any, and the post-header data if any. */
  function GetInitialOffset(info: HeaderInfo): (offset: int)
    ensures offset >= DdsHeaderSize
  {
    var offset := DdsHeaderSize;
    var offset := if info.dxt10Header.Some? then offset + Dxt10HeaderSize else offset;
    if info.postHeaderData.Some? then offset + |info.postHeaderData.value| else offset
  }

  /** The number of offsets `CalculateMipmapOffsets` produces: the loop runs `MipMapCount - 3` times, that
      difference taken as an `int`, so that it wraps for the three lowest counts. */
  function SeparateMipCount(info: HeaderInfo): nat {
    var n := Wrap32(info.header.mipMapCount - SmallMipsInHeader);
    if n < 0 then 0 else n
  }

  /** The separate mips: `MipMapCount - 3` above three, none from `int.MinValue + 3` to three, and about 2^31 for the three
      counts nearest `int.MinValue`, where the subtraction wraps. */
  lemma SeparateMipCountIs(info: HeaderInfo)
    ensures var m := info.header.mipMapCount;
      SeparateMipCount(info) ==
        if m > SmallMipsInHeader then m - SmallMipsInHeader
        else if m < -0x8000_0000 + SmallMipsInHeader then m - SmallMipsInHeader + 0x1_0000_0000
        else 0
  {
    var x := info.header.mipMapCount - SmallMipsInHeader;
    if x < -0x8000_0000 {
      assert x % 0x1_0000_0000 == x + 0x1_0000_0000;
    }
  }

  /** `Math.Max(1, x >> i)`. */
  function ShiftedDimension(x: int, i: nat): (r: int)
    ensures r >= 1
  {
    var s := ShiftRight(x, i);
    if s < 1 then 1 else s
  }

  /** The size of mip `i`, as `CalculateMipSize` computes it from the shifted dimensions. */
  function LevelSize(info: HeaderInfo, i: nat): Result<int, Exception> {
    CalculateMipSize(ShiftedDimension(info.header.width, i), ShiftedDimension(info.header.height, i), info)
  }

  lemma LevelSizeRule(info: HeaderInfo, i: nat)
    ensures LevelSize(info, i).Success? <==> FormatSupported(info)
    ensures LevelSize(info, i).Failure? ==> LevelSize(info, i).error == NotSupported
  {
    MipSizeRule(ShiftedDimension(info.header.width, i), ShiftedDimension(info.header.height, i), info);
  }

  /** The aligned space mip `i` takes in the offset table (nothing when its format has no size rule). */
  function LevelSpan(info: HeaderInfo, i: nat): (r: int)
    ensures r % 4 == 0
  {
    var size := LevelSize(info, i);
    if size.Success? then Align4(size.value) else 0
  }

  /** The space of mips `0 .. n-1`. */
  function SpanSum(info: HeaderInfo, n: nat): (r: int)
  {
    if n == 0 then 0 else SpanSum(info, n - 1) + LevelSpan(info, n - 1)
  }

  /** Where mip `i` starts: after the headers, the post-header data and the aligned mips before it. */
  function OffsetOf(info: HeaderInfo, i: nat): int {
    GetInitialOffset(info) + SpanSum(info, i)
  }

  /** The list `CalculateMipmapOffsets` returns, or the exception its first size computation throws. */
  function MipmapOffsets(info: HeaderInfo): Result<seq<int>, Exception> {
    var n := SeparateMipCount(info);
    if n == 0 then Success([])
    else if !FormatSupported(info) then Failure(NotSupported)
    else Success(seq(n, i requires 0 <= i < n => OffsetOf(info, i)))
  }

  /** `CalculateMipmapOffsets`: appends the running offset, then advances it by the aligned size of the mip. */
  method CalculateMipmapOffsets(info: HeaderInfo) returns (r: Result<seq<int>, Exception>)
    ensures r == MipmapOffsets(info)
  {
    var width := info.header.width;
    var height := info.header.height;
    var separateMipCount := Wrap32(info.header.mipMapCount - SmallMipsInHeader);
    var offsets: seq<int> := [];
    var currentOffset := GetInitialOffset(info);
    var i := 0;
    while i < separateMipCount
      invariant 0 <= i <= SeparateMipCount(info)
      invariant i > 0 ==> FormatSupported(info)
      invariant currentOffset == OffsetOf(info, i)
      invariant |offsets| == i && forall k | 0 <= k < i :: offsets[k] == OffsetOf(info, k)
    {
      offsets := offsets + [currentOffset];
      var mipWidth := ShiftedDimension(width, i);
      var mipHeight := ShiftedDimension(height, i);
      var mipSize := CalculateMipSize(mipWidth, mipHeight, info);
      LevelSizeRule(info, i);
      if mipSize.Failure? {
        OffsetsFailIff(info);
        return Failure(mipSize.error);
      }
      var aligned := Align4(mipSize.value);
      assert aligned == LevelSpan(info, i);
      OffsetStep(info, i);
      currentOffset := currentOffset + aligned;
      i := i + 1;
    }
    assert i == SeparateMipCount(info);
    if i == 0 {
      return Success([]);
    }
    OffsetsListed(info, offsets);
    return Success(offsets);
  }

  lemma OffsetStep(info: HeaderInfo, i: nat)
    ensures OffsetOf(info, i + 1) == OffsetOf(info, i) + LevelSpan(info, i)
  {
  }

  lemma OffsetsListed(info: HeaderInfo, offsets: seq<int>)
    requires |offsets| == SeparateMipCount(info) > 0 && FormatSupported(info)
    requires forall k | 0 <= k < |offsets| :: offsets[k] == OffsetOf(info, k)
    ensures MipmapOffsets(info) == Success(offsets)
  {
    var n := SeparateMipCount(info);
    assert offsets == seq(n, k requires 0 <= k < n => OffsetOf(info, k));
  }

  /** The offset list: `MipMapCount - 3` entries above three, none from `int.MinValue + 3` to three, and `MipMapCount - 3 + 2^32`
      for the three lowest counts, where the `int` subtraction wraps; the first right after the header file's
      contents: the 128 header bytes, the 20-byte DX10 record when there is one, and the post-header data. */
  lemma OffsetsShape(info: HeaderInfo)
    requires MipmapOffsets(info).Success?
    ensures var o := MipmapOffsets(info).value; var m := info.header.mipMapCount;
      |o| == (if m > 3 then m - 3 else if m < -0x8000_0000 + 3 then m - 3 + 0x1_0000_0000 else 0) &&
      (|o| > 0 ==> o[0] == DdsHeaderSize + (if info.dxt10Header.Some? then Dxt10HeaderSize else 0)
                             + (if info.postHeaderData.Some? then |info.postHeaderData.value| else 0))
  {
    OffsetsAre(info);
    SeparateMipCountIs(info);
  }

  /** Each offset is the previous plus that mip's size rounded up to four bytes (a multiple of four, by `LevelSpan`'s contract). */
  lemma OffsetsAdvance(info: HeaderInfo)
    requires MipmapOffsets(info).Success?
    ensures var o := MipmapOffsets(info).value;
      forall i | 0 <= i < |o| - 1 :: o[i + 1] - o[i] == LevelSpan(info, i)
  {
    var o := MipmapOffsets(info).value;
    forall i | 0 <= i < |o| - 1
      ensures o[i + 1] - o[i] == LevelSpan(info, i)
    {
      OffsetAdvances(info, i);
    }
  }

  lemma OffsetAdvances(info: HeaderInfo, i: nat)
    requires MipmapOffsets(info).Success? && i + 1 < |MipmapOffsets(info).value|
    ensures MipmapOffsets(info).value[i + 1] == MipmapOffsets(info).value[i] + LevelSpan(info, i)
  {
    OffsetsAre(info);
    OffsetStep(info, i);
  }

  lemma OffsetsAre(info: HeaderInfo)
    requires MipmapOffsets(info).Success?
    ensures |MipmapOffsets(info).value| == SeparateMipCount(info)
    ensures forall i | 0 <= i < SeparateMipCount(info) :: MipmapOffsets(info).value[i] == OffsetOf(info, i)
  {
  }

  /** Offsets only fail when at least one mip is separate and the format has no size rule: a count above three,
      or one of the three lowest counts, whose wrapped difference is positive; the exception is then NotSupported. */
  lemma OffsetsFailIff(info: HeaderInfo)
    ensures MipmapOffsets(info).Failure? <==> SeparateMipCount(info) > 0 && !FormatSupported(info)
    ensures var m := info.header.mipMapCount;
      MipmapOffsets(info).Failure? <==> (m > 3 || m < -0x8000_0000 + 3) && !FormatSupported(info)
    ensures MipmapOffsets(info).Failure? ==> MipmapOffsets(info).error == NotSupported
  {
    SeparateMipCountIs(info);
  }

  /** Every offset keeps the alignment of the initial offset. */
  lemma {:induction false} SpanSumAligned(info: HeaderInfo, n: nat)
    ensures SpanSum(info, n) % 4 == 0
  {
    if n > 0 {
      SpanSumAligned(info, n - 1);
      AlignedSum(SpanSum(info, n - 1), LevelSpan(info, n - 1));
    }
  }

  lemma AlignedSum(a: int, b: int)
    requires a % 4 == 0 && b % 4 == 0
    ensures (a + b) % 4 == 0
  {
  }

  /** With mip sizes of at least one byte, the offsets increase strictly, by at least four per mip. */
  lemma {:induction false} SpanSumGrows(info: HeaderInfo, i: nat, j: nat)
    requires FormatSupported(info) && i <= j
    requires info.dxt10Header.None? && !HasFlag(info.header.pixelFormat.flags, PixelFormatFourCC) ==>
      AsSigned(info.header.pixelFormat.rgbBitCount) >= 1
    ensures SpanSum(info, j) - SpanSum(info, i) >= 4 * (j - i)
  {
    if i < j {
      SpanSumGrows(info, i, j - 1);
      LevelSpanPositive(info, j - 1);
      var before, last := SpanSum(info, j - 1), LevelSpan(info, j - 1);
      assert SpanSum(info, j) == before + last;
      assert before - SpanSum(info, i) >= 4 * (j - 1 - i) && last >= 4;
      assert 4 * (j - i) == 4 * (j - 1 - i) + 4;
    }
  }

  lemma LevelSpanPositive(info: HeaderInfo, i: nat)
    requires FormatSupported(info)
    requires info.dxt10Header.None? && !HasFlag(info.header.pixelFormat.flags, PixelFormatFourCC) ==>
      AsSigned(info.header.pixelFormat.rgbBitCount) >= 1
    ensures LevelSpan(info, i) >= 4
  {
    MipSizePositive(ShiftedDimension(info.header.width, i), ShiftedDimension(info.header.height, i), info);
  }

  lemma OffsetsApart(info: HeaderInfo, i: nat, j: nat)
    requires FormatSupported(info) && i < j
    requires info.dxt10Header.None? && !HasFlag(info.header.pixelFormat.flags, PixelFormatFourCC) ==>
      AsSigned(info.header.pixelFormat.rgbBitCount) >= 1
    ensures OffsetOf(info, i) + 4 <= OffsetOf(info, j) && OffsetOf(info, i) % 4 == OffsetOf(info, j) % 4
  {
    SpanSumGrows(info, i, j);
    SpanSumAligned(info, i);
    SpanSumAligned(info, j);
    var a, b, c := GetInitialOffset(info), SpanSum(info, i), SpanSum(info, j);
    assert (a + b) % 4 == a % 4 && (a + c) % 4 == a % 4 by {
      AlignedShift(a, b);
      AlignedShift(a, c);
    }
  }

  lemma AlignedShift(a: int, b: int)
    requires b % 4 == 0
    ensures (a + b) % 4 == a % 4
  {
  }

  lemma OffsetsIncrease(info: HeaderInfo)
    requires MipmapOffsets(info).Success?
    requires info.dxt10Header.None? && !HasFlag(info.header.pixelFormat.flags, PixelFormatFourCC) ==>
      AsSigned(info.header.pixelFormat.rgbBitCount) >= 1
    ensures var o := MipmapOffsets(info).value;
      forall i, j | 0 <= i < j < |o| :: o[i] + 4 <= o[j] && o[i] % 4 == o[j] % 4
  {
    var o := MipmapOffsets(info).value;
    forall i, j | 0 <= i < j < |o| ensures o[i] + 4 <= o[j] && o[i] % 4 == o[j] % 4 {
      OffsetsApart(info, i, j);
    }
  }

  // ---------------------------------------------------------------------------
  // IsAlreadyValidDDSFile

  /** `IsAlreadyValidDDSFile(headerInfo, file)`, given the file's length. */
  function IsAlreadyValidDdsFile(info: HeaderInfo, fileLength: int): Result<bool, Exception> {
    var offsets :- MipmapOffsets(info);
    Success(|offsets| == 0 || fileLength > offsets[|offsets| - 1])
  }

  /** A file is already combined when no mip is stored separately, or when it reaches past the place where the
      last separate mip would start. */
  lemma AlreadyValidIff(info: HeaderInfo, fileLength: int)
    requires IsAlreadyValidDdsFile(info, fileLength).Success?
    ensures IsAlreadyValidDdsFile(info, fileLength).value <==>
      SeparateMipCount(info) == 0 || fileLength > OffsetOf(info, SeparateMipCount(info) - 1)
  {
  }

  lemma AlreadyValidFailsIff(info: HeaderInfo, fileLength: int)
    ensures IsAlreadyValidDdsFile(info, fileLength).Failure? <==> SeparateMipCount(info) > 0 && !FormatSupported(info)
  {
  }

  // ---------------------------------------------------------------------------
  // GetMipMapSizes

  /** `Math.Max((int)(x / Math.Pow(2, i)), 1)`: the division of the double rounds toward zero. */
  function MipDimension(x: int, i: nat): (r: int)
    ensures r >= 1
  {
    var q := Quot(x, Pow2(i));
    if q < 1 then 1 else q
  }

  /** `GetMipMapSizes`: a new array of `MipMapCount` (width, height) pairs, one per level. */
  method GetMipMapSizes(header: DdsHeader) returns (r: Result<seq<(int, int)>, Exception>)
    ensures r.Success? <==> header.mipMapCount >= 0
    ensures r.Failure? ==> r.error == Overflow
    ensures r.Success? ==> (|r.value| == header.mipMapCount &&
      forall i | 0 <= i < |r.value| :: r.value[i] == (MipDimension(header.width, i), MipDimension(header.height, i)))
  {
    if header.mipMapCount < 0 {
      return Failure(Overflow);
    }
    var mipMapSizes := new (int, int)[header.mipMapCount];
    for i := 0 to header.mipMapCount
      invariant forall k | 0 <= k < i :: mipMapSizes[k] == (MipDimension(header.width, k), MipDimension(header.height, k))
    {
      var width := MipDimension(header.width, i);
      var height := MipDimension(header.height, i);
      mipMapSizes[i] := (width, height);
    }
    return Success(mipMapSizes[..]);
  }

  /** Each level halves the previous one, rounding down and never going below one pixel. */
  lemma MipDimensionHalves(x: int, i: nat)
    ensures MipDimension(x, i + 1) == (var d := MipDimension(x, i) / 2; if d < 1 then 1 else d)
  {
    if x >= 0 {
      DivDiv(x, Pow2(i), 2);
      assert Pow2(i + 1) == Pow2(i) * 2;
    } else {
      QuotNonPositive(x, Pow2(i));
      QuotNonPositive(x, Pow2(i + 1));
    }
  }

  lemma DivDiv(x: nat, a: nat, b: nat)
    requires a >= 1 && b >= 1
    ensures x / a / b == x / (a * b)
  {
    var q, r := x / a, x % a;
    var q2, r2 := q / b, q % b;
    RegroupQuotient(x, a, b, q, r, q2, r2);
    RemainderBound(a, b, r, r2);
    DivUnique(x, a * b, q2, r2 * a + r);
  }

  /** Dividing by `a`, then the quotient by `b`, writes `x` as a multiple of `a * b` plus a rest. */
  lemma RegroupQuotient(x: int, a: int, b: int, q: int, r: int, q2: int, r2: int)
    requires x == q * a + r && q == q2 * b + r2
    ensures x == q2 * (a * b) + (r2 * a + r)
  {
    calc {
      x;
      (q2 * b + r2) * a + r;
      { MulDistributes(q2 * b, r2, a); }
      q2 * b * a + r2 * a + r;
      { assert q2 * b * a == q2 * (a * b); }
      q2 * (a * b) + (r2 * a + r);
    }
  }

  /** The rest left by the two divisions is below `a * b`. */
  lemma RemainderBound(a: nat, b: nat, r: int, r2: int)
    requires a >= 1 && b >= 1 && 0 <= r < a && 0 <= r2 < b
    ensures 0 <= r2 * a + r < a * b
  {
    MulMonotone(r2, b - 1, a);
    assert (b - 1) * a == a * b - a;
  }

  lemma MulDistributes(u: int, v: int, w: int)
    ensures (u + v) * w == u * w + v * w
  {
  }

  lemma MulMonotone(u: nat, v: nat, w: nat)
    requires u <= v
    ensures u * w <= v * w
  {
  }

  lemma DivUnique(x: int, d: nat, q: int, rest: int)
    requires d >= 1 && 0 <= rest < d && x == q * d + rest
    ensures x / d == q
  {
    var q', r' := x / d, x % d;
    assert (q - q') * d == r' - rest;
    if q - q' >= 1 {
      MulMonotone(1, q - q', d);
    } else if q' - q >= 1 {
      MulMonotone(1, q' - q, d);
    }
  }

  lemma QuotNonPositive(x: int, d: nat)
    requires x < 0 && d >= 1
    ensures Quot(x, d) <= 0 && x / d < 0
  {
  }

  /** For the levels below 32, the table of GetMipMapSizes agrees with the shifts of CalculateMipmapOffsets. */
  lemma DimensionsAgree(x: int, i: nat)
    requires i < 32
    ensures MipDimension(x, i) == ShiftedDimension(x, i)
  {
    if x < 0 {
      QuotNonPositive(x, Pow2(i));
    }
  }
}
