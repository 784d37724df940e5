/**
 * The DdsHeader record of Models/DdsHeader.cs (Microsoft's DDS_HEADER with its
 * DDS_PIXELFORMAT), the DDS_HEADER_DXT10 record, and the header encoder `Serialize`.
 */
module DdsHeaderModel {
  import opened Bytes
  import opened DdsConstants
  import opened Streams

  /** A four-character code. Only ASCII codes are modelled: they are one byte per character in UTF-8. */
  type FourCC = s: seq<char> | |s| == 4 && forall k | 0 <= k < 4 :: IsAscii(s[k]) witness "DXT1"

  datatype PixelFormat = PixelFormat(
    size: u32,
    flags: u32,
    fourCC: FourCC,
    rgbBitCount: u32,
    rBitMask: u32,
    gBitMask: u32,
    bBitMask: u32,
    aBitMask: u32)

  /** The record; the DDSCaps* enums (all `uint`) are kept as their 32-bit patterns. */
  datatype DdsHeader = DdsHeader(
    size: i32,
    flags: i32,
    height: i32,
    width: i32,
    pitchOrLinearSize: i32,
    depth: i32,
    mipMapCount: i32,
    reserved1: seq<i32>,
    pixelFormat: PixelFormat,
    caps: u32,
    caps2: u32,
    caps3: u32,
    caps4: u32,
    reserved2: i32)

  /** DDS_HEADER_DXT10; the DXGI format is kept as the number the enum cast keeps. */
  datatype Dxt10Header = Dxt10Header(
    dxgiFormat: u32,
    resourceDimension: u32,
    miscFlag: u32,
    arraySize: u32,
    miscFlags2: u32)

  // ---------------------------------------------------------------------------
  // The encoding, as a function of the record

  function EncodeLeading(h: DdsHeader): (r: seq<byte>)
    ensures |r| == 28
  {
    LeI32(h.size) + LeI32(h.flags) + LeI32(h.height) + LeI32(h.width)
      + LeI32(h.pitchOrLinearSize) + LeI32(h.depth) + LeI32(h.mipMapCount)
  }

  function EncodeReserved1(r: seq<i32>): (e: seq<byte>)
    ensures |e| == 4 * |r|
  {
    if r == [] then [] else EncodeReserved1(r[..|r| - 1]) + LeI32(r[|r| - 1])
  }

  function EncodePixelFormat(pf: PixelFormat): (r: seq<byte>)
    ensures |r| == 32
  {
    LeU32(pf.size) + LeU32(pf.flags) + AsciiEncode(pf.fourCC) + LeU32(pf.rgbBitCount)
      + LeU32(pf.rBitMask) + LeU32(pf.gBitMask) + LeU32(pf.bBitMask) + LeU32(pf.aBitMask)
  }

  function EncodeTrailing(h: DdsHeader): (r: seq<byte>)
    ensures |r| == 20
  {
    LeU32(h.caps) + LeU32(h.caps2) + LeU32(h.caps3) + LeU32(h.caps4) + LeI32(h.reserved2)
  }

  /** What `Serialize` returns: the header without the "DDS " magic. */
  function EncodeHeader(h: DdsHeader): seq<byte> {
    EncodeLeading(h) + EncodeReserved1(h.reserved1) + EncodePixelFormat(h.pixelFormat) + EncodeTrailing(h)
  }

  /** Offset of the pixel-format block in the encoding. */
  function PixelFormatOffset(h: DdsHeader): nat {
    28 + 4 * |h.reserved1|
  }

  /** The 20 bytes of DDS_HEADER_DXT10, five little-endian `uint`s in declaration order. */
  function EncodeDxt10(d: Dxt10Header): (r: seq<byte>)
    ensures |r| == Dxt10HeaderSize
  {
    LeU32(d.dxgiFormat) + LeU32(d.resourceDimension) + LeU32(d.miscFlag) + LeU32(d.arraySize) + LeU32(d.miscFlags2)
  }

  // ---------------------------------------------------------------------------
  // The encoder as the source runs it: field by field through a BinaryWriter

  method WriteReserved1(writer: OutputStream, reserved1: seq<i32>)
    modifies writer
    ensures writer.data == old(writer.data) + EncodeReserved1(reserved1)
  {
    for k := 0 to |reserved1|
      invariant writer.data == old(writer.data) + EncodeReserved1(reserved1[..k])
    {
      assert reserved1[..k + 1][..k] == reserved1[..k];
      writer.WriteInt32(reserved1[k]);
    }
    assert reserved1[..|reserved1|] == reserved1;
  }

  method WritePixelFormat(writer: OutputStream, pf: PixelFormat)
    modifies writer
    ensures writer.data == old(writer.data) + EncodePixelFormat(pf)
  {
    ghost var before := writer.data;
    writer.WriteUInt32(pf.size);
    writer.WriteUInt32(pf.flags);
    writer.WriteChars(pf.fourCC);
    writer.WriteUInt32(pf.rgbBitCount);
    assert writer.data == before + (LeU32(pf.size) + LeU32(pf.flags) + AsciiEncode(pf.fourCC) + LeU32(pf.rgbBitCount));
    ghost var mid := writer.data;
    writer.WriteUInt32(pf.rBitMask);
    writer.WriteUInt32(pf.gBitMask);
    writer.WriteUInt32(pf.bBitMask);
    writer.WriteUInt32(pf.aBitMask);
    assert writer.data == mid + (LeU32(pf.rBitMask) + LeU32(pf.gBitMask) + LeU32(pf.bBitMask) + LeU32(pf.aBitMask));
  }

  /** `DdsHeader.Serialize`: a fresh MemoryStream, the fields in order, then `ToArray()`. */
  method Serialize(h: DdsHeader) returns (bytes: seq<byte>)
    ensures bytes == EncodeHeader(h)
    ensures |bytes| == 80 + 4 * |h.reserved1|
  {
    var stream := new OutputStream();
    WriteLeading(stream, h);
    assert stream.data == EncodeLeading(h);
    WriteReserved1(stream, h.reserved1);
    WritePixelFormat(stream, h.pixelFormat);
    ghost var withFormat := stream.data;
    WriteTrailing(stream, h);
    assert stream.data == withFormat + EncodeTrailing(h);
    bytes := stream.data;
  }

  /** The seven `int` fields before `Reserved1`. */
  method WriteLeading(writer: OutputStream, h: DdsHeader)
    modifies writer
    ensures writer.data == old(writer.data) + EncodeLeading(h)
  {
    ghost var before := writer.data;
    writer.WriteInt32(h.size);
    writer.WriteInt32(h.flags);
    writer.WriteInt32(h.height);
    writer.WriteInt32(h.width);
    writer.WriteInt32(h.pitchOrLinearSize);
    writer.WriteInt32(h.depth);
    writer.WriteInt32(h.mipMapCount);
    assert writer.data == before + EncodeLeading(h);
  }

  /** The four Caps words and `Reserved2`, after the pixel format. */
  method WriteTrailing(writer: OutputStream, h: DdsHeader)
    modifies writer
    ensures writer.data == old(writer.data) + EncodeTrailing(h)
  {
    ghost var before := writer.data;
    writer.WriteUInt32(h.caps);
    writer.WriteUInt32(h.caps2);
    writer.WriteUInt32(h.caps3);
    writer.WriteUInt32(h.caps4);
    writer.WriteInt32(h.reserved2);
    assert writer.data == before + EncodeTrailing(h);
  }

  // ---------------------------------------------------------------------------
  // The layout the encoding has

  /** A 4-byte read inside one part of a concatenation reads that part. */
  lemma U32AtInPart(pre: seq<byte>, part: seq<byte>, post: seq<byte>, o: nat)
    requires o + 4 <= |part|
    ensures U32At(pre + part + post, |pre| + o) == U32At(part, o)
  {
    var e := pre + part + post;
    assert e[|pre| + o..|pre| + o + 4] == part[o..o + 4];
    U32AtSlice(e, |pre| + o, part, o);
  }

  lemma {:induction false} Reserved1Layout(r: seq<i32>, k: nat)
    requires k < |r|
    ensures U32At(EncodeReserved1(r), 4 * k) == AsUnsigned(r[k])
  {
    var init := EncodeReserved1(r[..|r| - 1]);
    if k == |r| - 1 {
      U32AtInPart(init, LeI32(r[k]), [], 0);
      assert init + LeI32(r[k]) + [] == EncodeReserved1(r);
      LeU32RoundTrip(AsUnsigned(r[k]));
    } else {
      Reserved1Layout(r[..|r| - 1], k);
      assert init == [] + init + [];
      U32AtInPart([], init, LeI32(r[|r| - 1]), 4 * k);
    }
  }

  lemma LeadingLayout(h: DdsHeader)
    ensures U32At(EncodeLeading(h), 0) == AsUnsigned(h.size)
    ensures U32At(EncodeLeading(h), 4) == AsUnsigned(h.flags)
    ensures U32At(EncodeLeading(h), 8) == AsUnsigned(h.height)
    ensures U32At(EncodeLeading(h), 12) == AsUnsigned(h.width)
    ensures U32At(EncodeLeading(h), 16) == AsUnsigned(h.pitchOrLinearSize)
    ensures U32At(EncodeLeading(h), 20) == AsUnsigned(h.depth)
    ensures U32At(EncodeLeading(h), 24) == AsUnsigned(h.mipMapCount)
  {
    var a, b, c, d := LeI32(h.size), LeI32(h.flags), LeI32(h.height), LeI32(h.width);
    var e, f, g := LeI32(h.pitchOrLinearSize), LeI32(h.depth), LeI32(h.mipMapCount);
    var p2 := a + b;
    var p3 := p2 + c;
    var p4 := p3 + d;
    var p5 := p4 + e;
    var p6 := p5 + f;
    assert EncodeLeading(h) == p6 + g;
    LeU32RoundTrip(AsUnsigned(h.size));
    LeU32RoundTrip(AsUnsigned(h.flags));
    LeU32RoundTrip(AsUnsigned(h.height));
    LeU32RoundTrip(AsUnsigned(h.width));
    LeU32RoundTrip(AsUnsigned(h.pitchOrLinearSize));
    LeU32RoundTrip(AsUnsigned(h.depth));
    LeU32RoundTrip(AsUnsigned(h.mipMapCount));
    // Each word is read where it was appended, then the read is carried through the later appends.
    ReadBefore(a, b, 0); ReadAfter(a, b);
    ReadBefore(p2, c, 0); ReadBefore(p2, c, 4); ReadAfter(p2, c);
    ReadBefore(p3, d, 0); ReadBefore(p3, d, 4); ReadBefore(p3, d, 8); ReadAfter(p3, d);
    ReadBefore(p4, e, 0); ReadBefore(p4, e, 4); ReadBefore(p4, e, 8); ReadBefore(p4, e, 12); ReadAfter(p4, e);
    ReadBefore(p5, f, 0); ReadBefore(p5, f, 4); ReadBefore(p5, f, 8); ReadBefore(p5, f, 12); ReadBefore(p5, f, 16);
    ReadAfter(p5, f);
    ReadBefore(p6, g, 0); ReadBefore(p6, g, 4); ReadBefore(p6, g, 8); ReadBefore(p6, g, 12); ReadBefore(p6, g, 16);
    ReadBefore(p6, g, 20); ReadAfter(p6, g);
  }

  /** A read inside the first part of a concatenation reads that part. */
  lemma ReadBefore(s: seq<byte>, t: seq<byte>, i: nat)
    requires i + 4 <= |s|
    ensures U32At(s + t, i) == U32At(s, i)
  {
    assert (s + t)[i..i + 4] == s[i..i + 4];
    U32AtSlice(s + t, i, s, i);
  }

  /** A read where the second part of a concatenation starts reads that part. */
  lemma ReadAfter(s: seq<byte>, t: seq<byte>)
    requires |t| >= 4
    ensures U32At(s + t, |s|) == U32At(t, 0)
  {
    assert (s + t)[|s|..|s| + 4] == t[0..4];
    U32AtSlice(s + t, |s|, t, 0);
  }

  lemma PixelFormatLayout(pf: PixelFormat)
    ensures U32At(EncodePixelFormat(pf), 0) == pf.size
    ensures U32At(EncodePixelFormat(pf), 4) == pf.flags
    ensures EncodePixelFormat(pf)[8..12] == AsciiEncode(pf.fourCC)
    ensures U32At(EncodePixelFormat(pf), 12) == pf.rgbBitCount
    ensures U32At(EncodePixelFormat(pf), 16) == pf.rBitMask
    ensures U32At(EncodePixelFormat(pf), 20) == pf.gBitMask
    ensures U32At(EncodePixelFormat(pf), 24) == pf.bBitMask
    ensures U32At(EncodePixelFormat(pf), 28) == pf.aBitMask
  {
    var a, b, cc, d := LeU32(pf.size), LeU32(pf.flags), AsciiEncode(pf.fourCC), LeU32(pf.rgbBitCount);
    var e, f, g, k := LeU32(pf.rBitMask), LeU32(pf.gBitMask), LeU32(pf.bBitMask), LeU32(pf.aBitMask);
    var p2 := a + b;
    var p3 := p2 + cc;
    var p4 := p3 + d;
    var p5 := p4 + e;
    var p6 := p5 + f;
    var p7 := p6 + g;
    assert EncodePixelFormat(pf) == p7 + k;
    LeU32RoundTrip(pf.size);
    LeU32RoundTrip(pf.flags);
    LeU32RoundTrip(pf.rgbBitCount);
    LeU32RoundTrip(pf.rBitMask);
    LeU32RoundTrip(pf.gBitMask);
    LeU32RoundTrip(pf.bBitMask);
    LeU32RoundTrip(pf.aBitMask);
    // The FourCC bytes stay in place as the later words are appended.
    assert p3[8..12] == cc;
    assert (p7 + k)[8..12] == p3[8..12];
    // Each word is read where it was appended, then the read is carried through the later appends.
    ReadBefore(a, b, 0); ReadAfter(a, b);
    ReadBefore(p2, cc, 0); ReadBefore(p2, cc, 4);
    ReadBefore(p3, d, 0); ReadBefore(p3, d, 4); ReadAfter(p3, d);
    ReadBefore(p4, e, 0); ReadBefore(p4, e, 4); ReadBefore(p4, e, 12); ReadAfter(p4, e);
    ReadBefore(p5, f, 0); ReadBefore(p5, f, 4); ReadBefore(p5, f, 12); ReadBefore(p5, f, 16); ReadAfter(p5, f);
    ReadBefore(p6, g, 0); ReadBefore(p6, g, 4); ReadBefore(p6, g, 12); ReadBefore(p6, g, 16); ReadBefore(p6, g, 20);
    ReadAfter(p6, g);
    ReadBefore(p7, k, 0); ReadBefore(p7, k, 4); ReadBefore(p7, k, 12); ReadBefore(p7, k, 16); ReadBefore(p7, k, 20);
    ReadBefore(p7, k, 24); ReadAfter(p7, k);
  }

  lemma TrailingLayout(h: DdsHeader)
    ensures U32At(EncodeTrailing(h), 0) == h.caps
    ensures U32At(EncodeTrailing(h), 4) == h.caps2
    ensures U32At(EncodeTrailing(h), 8) == h.caps3
    ensures U32At(EncodeTrailing(h), 12) == h.caps4
    ensures U32At(EncodeTrailing(h), 16) == AsUnsigned(h.reserved2)
  {
    var e := EncodeTrailing(h);
    var words := [h.caps, h.caps2, h.caps3, h.caps4, AsUnsigned(h.reserved2)];
    forall k | 0 <= k < 5 ensures U32At(e, 4 * k) == words[k] {
      assert e[4 * k..4 * k + 4] == LeU32(words[k]);
      U32AtWritten(e, 4 * k, words[k]);
    }
  }

  /**
   * The byte-exact layout of `Serialize`: 80 + 4·|Reserved1| bytes, the leading fields
   * (Height at 8 before Width at 12), each Reserved1 entry, the 32-byte pixel format at
   * 28 + 4·|Reserved1|, then Caps..Caps4 as raw bit patterns and Reserved2.
   */
  lemma HeaderLayout(h: DdsHeader)
    ensures |EncodeHeader(h)| == 80 + 4 * |h.reserved1|
    ensures U32At(EncodeHeader(h), 0) == AsUnsigned(h.size)
    ensures U32At(EncodeHeader(h), 4) == AsUnsigned(h.flags)
    ensures U32At(EncodeHeader(h), 8) == AsUnsigned(h.height)
    ensures U32At(EncodeHeader(h), 12) == AsUnsigned(h.width)
    ensures U32At(EncodeHeader(h), 16) == AsUnsigned(h.pitchOrLinearSize)
    ensures U32At(EncodeHeader(h), 20) == AsUnsigned(h.depth)
    ensures U32At(EncodeHeader(h), 24) == AsUnsigned(h.mipMapCount)
    ensures forall k | 0 <= k < |h.reserved1| :: U32At(EncodeHeader(h), 28 + 4 * k) == AsUnsigned(h.reserved1[k])
    ensures EncodeHeader(h)[PixelFormatOffset(h)..PixelFormatOffset(h) + 32] == EncodePixelFormat(h.pixelFormat)
    ensures U32At(EncodeHeader(h), PixelFormatOffset(h) + 32) == h.caps
    ensures U32At(EncodeHeader(h), PixelFormatOffset(h) + 36) == h.caps2
    ensures U32At(EncodeHeader(h), PixelFormatOffset(h) + 40) == h.caps3
    ensures U32At(EncodeHeader(h), PixelFormatOffset(h) + 44) == h.caps4
    ensures U32At(EncodeHeader(h), PixelFormatOffset(h) + 48) == AsUnsigned(h.reserved2)
  {
    var l, r, p, t := EncodeLeading(h), EncodeReserved1(h.reserved1), EncodePixelFormat(h.pixelFormat), EncodeTrailing(h);
    LeadingInHeader(h);
    Reserved1InHeader(h);
    TrailingInHeader(h);
    var e := EncodeHeader(h);
    assert e == (l + r) + p + t;
  }

  lemma LeadingInHeader(h: DdsHeader)
    ensures U32At(EncodeHeader(h), 0) == AsUnsigned(h.size)
    ensures U32At(EncodeHeader(h), 4) == AsUnsigned(h.flags)
    ensures U32At(EncodeHeader(h), 8) == AsUnsigned(h.height)
    ensures U32At(EncodeHeader(h), 12) == AsUnsigned(h.width)
    ensures U32At(EncodeHeader(h), 16) == AsUnsigned(h.pitchOrLinearSize)
    ensures U32At(EncodeHeader(h), 20) == AsUnsigned(h.depth)
    ensures U32At(EncodeHeader(h), 24) == AsUnsigned(h.mipMapCount)
  {
    var l, rest := EncodeLeading(h), EncodeReserved1(h.reserved1) + EncodePixelFormat(h.pixelFormat) + EncodeTrailing(h);
    assert EncodeHeader(h) == [] + l + rest;
    LeadingLayout(h);
    U32AtInPart([], l, rest, 0);
    U32AtInPart([], l, rest, 4);
    U32AtInPart([], l, rest, 8);
    U32AtInPart([], l, rest, 12);
    U32AtInPart([], l, rest, 16);
    U32AtInPart([], l, rest, 20);
    U32AtInPart([], l, rest, 24);
  }

  lemma Reserved1InHeader(h: DdsHeader)
    ensures forall k | 0 <= k < |h.reserved1| :: U32At(EncodeHeader(h), 28 + 4 * k) == AsUnsigned(h.reserved1[k])
  {
    var l, r, rest := EncodeLeading(h), EncodeReserved1(h.reserved1), EncodePixelFormat(h.pixelFormat) + EncodeTrailing(h);
    assert EncodeHeader(h) == l + r + rest;
    forall k | 0 <= k < |h.reserved1| ensures U32At(EncodeHeader(h), 28 + 4 * k) == AsUnsigned(h.reserved1[k]) {
      U32AtInPart(l, r, rest, 4 * k);
      Reserved1Layout(h.reserved1, k);
    }
  }

  lemma TrailingInHeader(h: DdsHeader)
    ensures U32At(EncodeHeader(h), PixelFormatOffset(h) + 32) == h.caps
    ensures U32At(EncodeHeader(h), PixelFormatOffset(h) + 36) == h.caps2
    ensures U32At(EncodeHeader(h), PixelFormatOffset(h) + 40) == h.caps3
    ensures U32At(EncodeHeader(h), PixelFormatOffset(h) + 44) == h.caps4
    ensures U32At(EncodeHeader(h), PixelFormatOffset(h) + 48) == AsUnsigned(h.reserved2)
  {
    var pre, t := EncodeLeading(h) + EncodeReserved1(h.reserved1) + EncodePixelFormat(h.pixelFormat), EncodeTrailing(h);
    assert EncodeHeader(h) == pre + t + [];
    assert |pre| == PixelFormatOffset(h) + 32;
    TrailingLayout(h);
    U32AtInPart(pre, t, [], 0);
    U32AtInPart(pre, t, [], 4);
    U32AtInPart(pre, t, [], 8);
    U32AtInPart(pre, t, [], 12);
    U32AtInPart(pre, t, [], 16);
  }

  /** The codes of DDS_HEADER_DXT10 sit at 0, 4, 8, 12 and 16. */
  lemma Dxt10Layout(d: Dxt10Header)
    ensures U32At(EncodeDxt10(d), 0) == d.dxgiFormat
    ensures U32At(EncodeDxt10(d), 4) == d.resourceDimension
    ensures U32At(EncodeDxt10(d), 8) == d.miscFlag
    ensures U32At(EncodeDxt10(d), 12) == d.arraySize
    ensures U32At(EncodeDxt10(d), 16) == d.miscFlags2
  {
    var e := EncodeDxt10(d);
    var words := [d.dxgiFormat, d.resourceDimension, d.miscFlag, d.arraySize, d.miscFlags2];
    forall k | 0 <= k < 5 ensures U32At(e, 4 * k) == words[k] {
      assert e[4 * k..4 * k + 4] == LeU32(words[k]);
      U32AtWritten(e, 4 * k, words[k]);
    }
  }
}
