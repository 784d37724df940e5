/**
 * DdsHeaderDeserializer.cs: decoding a DDS header (and, when the FourCC says "DX10" and
 * the bytes are there, the DX10 extension) from the start of a byte buffer.
 */
module HeaderDeserializer {
  import opened Wrappers
  import opened Bytes
  import opened DdsConstants
  import opened DdsHeaderModel
  import opened Streams

  /** The one exception the decoder raises on a non-null buffer. */
  datatype DecodeError = ArgumentException(length: nat)

  /** Offset of the header: 4 after a "DDS " magic, else 0. */
  function HeaderStart(content: seq<byte>): (start: nat)
    requires |content| >= 4
    ensures start == 4 || start == 0
  {
    if content[..4] == DdsMagicBytes then 4 else 0
  }

  /**
   * The FourCC bytes of the header are ASCII, so that `ReadChars(4)` consumes exactly
   * four bytes (the decoder is modelled for such buffers only).
   */
  predicate FourCCIsAscii(content: seq<byte>) {
    |content| >= DdsHeaderSize ==>
      AsciiBytes(content[HeaderStart(content) + 80..HeaderStart(content) + 84])
  }

  // ---------------------------------------------------------------------------
  // Decoding, as a function of the buffer

  function Reserved1At(s: seq<byte>, i: nat, n: nat): (r: seq<i32>)
    requires i + 4 * n <= |s|
    ensures |r| == n
  {
    seq(n, k requires 0 <= k < n => I32At(s, i + 4 * k))
  }

  function PixelFormatAt(s: seq<byte>, i: nat): PixelFormat
    requires i + 32 <= |s| && AsciiBytes(s[i + 8..i + 12])
  {
    PixelFormat(
      U32At(s, i), U32At(s, i + 4), AsciiDecode(s[i + 8..i + 12]), U32At(s, i + 12),
      U32At(s, i + 16), U32At(s, i + 20), U32At(s, i + 24), U32At(s, i + 28))
  }

  /** The 124-byte header read from offset `i`, fields in the reader's order. */
  function HeaderAt(s: seq<byte>, i: nat): DdsHeader
    requires i + 124 <= |s| && AsciiBytes(s[i + 80..i + 84])
  {
    DdsHeader(
      I32At(s, i), I32At(s, i + 4), I32At(s, i + 8), I32At(s, i + 12),
      I32At(s, i + 16), I32At(s, i + 20), I32At(s, i + 24),
      Reserved1At(s, i + 28, Reserved1Size),
      PixelFormatAt(s, i + 72),
      U32At(s, i + 104), U32At(s, i + 108), U32At(s, i + 112), U32At(s, i + 116),
      I32At(s, i + 120))
  }

  function Dxt10At(s: seq<byte>, i: nat): Dxt10Header
    requires i + Dxt10HeaderSize <= |s|
  {
    Dxt10Header(U32At(s, i), U32At(s, i + 4), U32At(s, i + 8), U32At(s, i + 12), U32At(s, i + 16))
  }

  /** `ValidateHeaderContent`: the buffer must hold at least 128 bytes. */
  function ValidateHeaderContent(content: seq<byte>): (r: Option<DecodeError>)
    ensures r.None? <==> |content| >= DdsHeaderSize
  {
    if |content| < DdsHeaderSize then Some(ArgumentException(|content|)) else None
  }

  function IsDxt10Format(h: DdsHeader): bool {
    h.pixelFormat.fourCC == Dx10FourCC
  }

  /** `Deserialize`, as a function of the buffer. */
  function Decode(content: seq<byte>): Result<(DdsHeader, Option<Dxt10Header>), DecodeError>
    requires FourCCIsAscii(content)
  {
    match ValidateHeaderContent(content)
    case Some(e) => Failure(e)
    case None =>
      var start := HeaderStart(content);
      var header := HeaderAt(content, start);
      var dxt10 :=
        if IsDxt10Format(header) && start + 124 + Dxt10HeaderSize <= |content|
        then Some(Dxt10At(content, start + 124)) else None;
      Success((header, dxt10))
  }

  // ---------------------------------------------------------------------------
  // Decoding as the source runs it: a BinaryReader advancing through a MemoryStream

  method SkipMagicNumberIfPresent(reader: BinaryReader)
    requires reader.position + 4 <= |reader.buffer|
    modifies reader
    ensures reader.position == old(reader.position) +
      (if reader.buffer[old(reader.position)..old(reader.position) + 4] == DdsMagicBytes then 4 else 0)
  {
    var originalPosition := reader.position;
    // A UTF-8 decoder yields "DDS " from exactly these four bytes, so comparing bytes is the same test.
    var magic := reader.buffer[reader.position..reader.position + 4];
    reader.position := reader.position + 4;
    if magic != DdsMagicBytes {
      reader.position := originalPosition;
    }
  }

  method ReadReserved1(reader: BinaryReader) returns (r: seq<i32>)
    requires reader.position + 4 * Reserved1Size <= |reader.buffer|
    modifies reader
    ensures r == Reserved1At(reader.buffer, old(reader.position), Reserved1Size)
    ensures reader.position == old(reader.position) + 4 * Reserved1Size
  {
    var start := reader.position;
    r := [];
    for k := 0 to Reserved1Size
      invariant reader.position == start + 4 * k
      invariant r == Reserved1At(reader.buffer, start, k)
    {
      var v := reader.ReadInt32();
      r := r + [v];
    }
  }

  method ReadPixelFormat(reader: BinaryReader) returns (pf: PixelFormat)
    requires reader.position + 32 <= |reader.buffer|
    requires AsciiBytes(reader.buffer[reader.position + 8..reader.position + 12])
    modifies reader
    ensures pf == PixelFormatAt(reader.buffer, old(reader.position))
    ensures reader.position == old(reader.position) + 32
  {
    var size := reader.ReadUInt32();
    var flags := reader.ReadUInt32();
    var fourCC := reader.ReadChars(4);
    var rgbBitCount := reader.ReadUInt32();
    var rBitMask := reader.ReadUInt32();
    var gBitMask := reader.ReadUInt32();
    var bBitMask := reader.ReadUInt32();
    var aBitMask := reader.ReadUInt32();
    pf := PixelFormat(size, flags, fourCC, rgbBitCount, rBitMask, gBitMask, bBitMask, aBitMask);
  }

  method ReadDxt10Header(reader: BinaryReader) returns (d: Dxt10Header)
    requires reader.position + Dxt10HeaderSize <= |reader.buffer|
    modifies reader
    ensures d == Dxt10At(reader.buffer, old(reader.position))
    ensures reader.position == old(reader.position) + Dxt10HeaderSize
  {
    var dxgiFormat := reader.ReadUInt32();
    var resourceDimension := reader.ReadUInt32();
    var miscFlag := reader.ReadUInt32();
    var arraySize := reader.ReadUInt32();
    var miscFlags2 := reader.ReadUInt32();
    d := Dxt10Header(dxgiFormat, resourceDimension, miscFlag, arraySize, miscFlags2);
  }

  method ReadHeaderFields(reader: BinaryReader) returns (h: DdsHeader)
    requires reader.position + 124 <= |reader.buffer|
    requires AsciiBytes(reader.buffer[reader.position + 80..reader.position + 84])
    modifies reader
    ensures h == HeaderAt(reader.buffer, old(reader.position))
    ensures reader.position == old(reader.position) + 124
  {
    ghost var p := reader.position;
    var size, flags, height, width, pitchOrLinearSize, depth, mipMapCount := ReadLeadingFields(reader);
    var reserved1 := ReadReserved1(reader);
    var pixelFormat := ReadPixelFormat(reader);
    var caps, caps2, caps3, caps4, reserved2 := ReadTrailingFields(reader);
    h := DdsHeader(size, flags, height, width, pitchOrLinearSize, depth, mipMapCount, reserved1, pixelFormat,
                   caps, caps2, caps3, caps4, reserved2);
  }

  /** The seven `int` fields at offsets 0 to 24 of the header. */
  method ReadLeadingFields(reader: BinaryReader)
    returns (size: i32, flags: i32, height: i32, width: i32, pitchOrLinearSize: i32, depth: i32, mipMapCount: i32)
    requires reader.position + 28 <= |reader.buffer|
    modifies reader
    ensures size == I32At(reader.buffer, old(reader.position))
    ensures flags == I32At(reader.buffer, old(reader.position) + 4)
    ensures height == I32At(reader.buffer, old(reader.position) + 8)
    ensures width == I32At(reader.buffer, old(reader.position) + 12)
    ensures pitchOrLinearSize == I32At(reader.buffer, old(reader.position) + 16)
    ensures depth == I32At(reader.buffer, old(reader.position) + 20)
    ensures mipMapCount == I32At(reader.buffer, old(reader.position) + 24)
    ensures reader.position == old(reader.position) + 28
  {
    size := reader.ReadInt32();
    flags := reader.ReadInt32();
    height := reader.ReadInt32();
    width := reader.ReadInt32();
    pitchOrLinearSize := reader.ReadInt32();
    depth := reader.ReadInt32();
    mipMapCount := reader.ReadInt32();
  }

  /** The four Caps words and `Reserved2`, at offsets 104 to 120 of the header. The Caps properties are
      `uint` enums read with `ReadInt32`: the value keeps its bit pattern. */
  method ReadTrailingFields(reader: BinaryReader) returns (caps: u32, caps2: u32, caps3: u32, caps4: u32, reserved2: i32)
    requires reader.position + 20 <= |reader.buffer|
    modifies reader
    ensures caps == U32At(reader.buffer, old(reader.position))
    ensures caps2 == U32At(reader.buffer, old(reader.position) + 4)
    ensures caps3 == U32At(reader.buffer, old(reader.position) + 8)
    ensures caps4 == U32At(reader.buffer, old(reader.position) + 12)
    ensures reserved2 == I32At(reader.buffer, old(reader.position) + 16)
    ensures reader.position == old(reader.position) + 20
  {
    var c := reader.ReadInt32();
    caps := AsUnsigned(c);
    c := reader.ReadInt32();
    caps2 := AsUnsigned(c);
    c := reader.ReadInt32();
    caps3 := AsUnsigned(c);
    c := reader.ReadInt32();
    caps4 := AsUnsigned(c);
    reserved2 := reader.ReadInt32();
  }

  /** `DdsHeaderDeserializer.Deserialize`. */
  method Deserialize(content: seq<byte>) returns (r: Result<(DdsHeader, Option<Dxt10Header>), DecodeError>)
    requires FourCCIsAscii(content)
    ensures r == Decode(content)
  {
    var invalid := ValidateHeaderContent(content);
    if invalid.Some? {
      return Failure(invalid.value);
    }
    var reader := new BinaryReader(content);
    SkipMagicNumberIfPresent(reader);
    assert reader.position == HeaderStart(content);
    var header := ReadHeaderFields(reader);
    var dxt10Header: Option<Dxt10Header> := None;
    if IsDxt10Format(header) && reader.position + Dxt10HeaderSize <= |content| {
      var d := ReadDxt10Header(reader);
      dxt10Header := Some(d);
    }
    return Success((header, dxt10Header));
  }

  // ---------------------------------------------------------------------------
  // Properties of the decoder

  /** Failure exactly for a buffer shorter than 128 bytes, before any field is read. */
  lemma DecodeFailsIffShort(content: seq<byte>)
    requires FourCCIsAscii(content)
    ensures Decode(content).Failure? <==> |content| < DdsHeaderSize
    ensures Decode(content).Failure? ==> Decode(content).error == ArgumentException(|content|)
  {
  }

  /**
   * The DX10 record is decoded exactly when the FourCC is "DX10" and the 20 bytes after the
   * 124-byte header lie inside the buffer; a missing record is no error.
   */
  lemma Dxt10Presence(content: seq<byte>)
    requires FourCCIsAscii(content) && |content| >= DdsHeaderSize
    ensures var (h, d) := Decode(content).value;
      && (d.Some? <==> h.pixelFormat.fourCC == Dx10FourCC && HeaderStart(content) + 144 <= |content|)
      && (d.Some? ==> d.value == Dxt10At(content, HeaderStart(content) + 124))
  {
  }

  /** A 128-byte buffer that starts with the magic never carries a DX10 record. */
  lemma MagicAnd128BytesMeansNoDxt10(content: seq<byte>)
    requires FourCCIsAscii(content) && |content| == DdsHeaderSize
    requires content[..4] == DdsMagicBytes
    ensures Decode(content).Success? && Decode(content).value.1 == None
  {
  }

  /**
   * The result depends only on the first 144 bytes after the header start (so on bytes
   * [0, 148)) and on whether the buffer reaches that far: later bytes are never read.
   */
  lemma DecodeReadsOnlyPrefix(c1: seq<byte>, c2: seq<byte>)
    requires |c1| >= DdsHeaderSize && |c2| >= DdsHeaderSize
    requires c1[..DdsHeaderSize] == c2[..DdsHeaderSize]
    requires FourCCIsAscii(c1)
    requires (HeaderStart(c1) + 144 <= |c1|) == (HeaderStart(c1) + 144 <= |c2|)
    requires HeaderStart(c1) + 144 <= |c1| ==> c1[..HeaderStart(c1) + 144] == c2[..HeaderStart(c1) + 144]
    ensures FourCCIsAscii(c2) && Decode(c1) == Decode(c2)
  {
    var start := HeaderStart(c1);
    assert c1[..4] == c1[..DdsHeaderSize][..4] == c2[..DdsHeaderSize][..4] == c2[..4];
    assert HeaderStart(c2) == start;
    SameReads(c1, c2, start, 124, DdsHeaderSize);
    assert c1[start + 80..start + 84] == c2[start + 80..start + 84] by {
      SubSlice(c1, 0, DdsHeaderSize, start + 80, start + 84);
      SubSlice(c2, 0, DdsHeaderSize, start + 80, start + 84);
    }
    HeaderAtSame(c1, c2, start);
    if start + 144 <= |c1| {
      SameReads(c1, c2, start + 124, 20, start + 144);
      assert Dxt10At(c1, start + 124) == Dxt10At(c2, start + 124);
    }
  }

  /** Two buffers whose 32-bit reads and FourCC bytes agree at `i` decode the same header there. */
  lemma HeaderAtSame(c1: seq<byte>, c2: seq<byte>, i: nat)
    requires i + 124 <= |c1| && i + 124 <= |c2|
    requires forall j | i <= j && j + 4 <= i + 124 :: U32At(c1, j) == U32At(c2, j)
    requires c1[i + 80..i + 84] == c2[i + 80..i + 84] && AsciiBytes(c1[i + 80..i + 84])
    ensures HeaderAt(c1, i) == HeaderAt(c2, i)
  {
    assert Reserved1At(c1, i + 28, Reserved1Size) == Reserved1At(c2, i + 28, Reserved1Size);
    assert PixelFormatAt(c1, i + 72) == PixelFormatAt(c2, i + 72);
  }

  /** Two buffers that agree below `bound` read the same 32-bit values in [i, i + n). */
  lemma SameReads(c1: seq<byte>, c2: seq<byte>, i: nat, n: nat, bound: nat)
    requires i + n <= bound <= |c1| && bound <= |c2| && c1[..bound] == c2[..bound]
    ensures forall j | i <= j && j + 4 <= i + n :: U32At(c1, j) == U32At(c2, j)
  {
    forall j | i <= j && j + 4 <= i + n ensures U32At(c1, j) == U32At(c2, j) {
      assert c1[j..j + 4] == c1[..bound][j..j + 4];
      assert c2[j..j + 4] == c2[..bound][j..j + 4];
      U32AtSlice(c1, j, c2, j);
    }
  }

  /** Reads inside a copy of `e` at offset `i` read what they read in `e`. */
  lemma ReadsOfCopy(s: seq<byte>, i: nat, e: seq<byte>)
    requires i + |e| <= |s| && s[i..i + |e|] == e
    ensures forall o | 0 <= o && o + 4 <= |e| :: U32At(s, i + o) == U32At(e, o)
  {
    forall o | 0 <= o && o + 4 <= |e| ensures U32At(s, i + o) == U32At(e, o) {
      SubSlice(s, i, i + |e|, o, o + 4);
      U32AtSlice(s, i + o, e, o);
    }
  }

  lemma PixelFormatAtEncoded(s: seq<byte>, j: nat, pf: PixelFormat)
    requires j + 32 <= |s| && s[j..j + 32] == EncodePixelFormat(pf)
    ensures AsciiBytes(s[j + 8..j + 12]) && PixelFormatAt(s, j) == pf
  {
    var e := EncodePixelFormat(pf);
    PixelFormatLayout(pf);
    ReadsOfCopy(s, j, e);
    SubSlice(s, j, j + 32, 8, 12);
    AsciiRoundTrip(pf.fourCC);
  }

  lemma Reserved1AtIndex(s: seq<byte>, i: nat, n: nat, k: nat)
    requires i + 4 * n <= |s| && k < n
    ensures Reserved1At(s, i, n)[k] == AsSigned(U32At(s, i + 4 * k))
  {
  }

  lemma Reserved1EntryEncoded(s: seq<byte>, j: nat, r: seq<i32>, k: nat)
    requires j + 4 * |r| <= |s| && s[j..j + 4 * |r|] == EncodeReserved1(r) && k < |r|
    ensures AsSigned(U32At(s, j + 4 * k)) == r[k]
  {
    var e := EncodeReserved1(r);
    var o := 4 * k;
    assert s[j + o] == e[o] && s[j + o + 1] == e[o + 1];
    assert s[j + o + 2] == e[o + 2] && s[j + o + 3] == e[o + 3];
    assert U32At(s, j + o) == U32At(e, o);
    Reserved1Layout(r, k);
  }

  lemma Reserved1AtEncoded(s: seq<byte>, j: nat, r: seq<i32>)
    requires j + 4 * |r| <= |s| && s[j..j + 4 * |r|] == EncodeReserved1(r)
    ensures Reserved1At(s, j, |r|) == r
  {
    var e := EncodeReserved1(r);
    var d := Reserved1At(s, j, |r|);
    forall k | 0 <= k < |r| ensures d[k] == r[k] {
      Reserved1EntryEncoded(s, j, r, k);
      Reserved1AtIndex(s, j, |r|, k);
    }
    assert |d| == |r|;
  }

  /** An encoded header with 11 Reserved1 entries, found at offset `i`, decodes to itself. */
  lemma HeaderAtEncoded(s: seq<byte>, i: nat, h: DdsHeader)
    requires |h.reserved1| == Reserved1Size
    requires i + 124 <= |s| && s[i..i + 124] == EncodeHeader(h)
    ensures AsciiBytes(s[i + 80..i + 84]) && HeaderAt(s, i) == h
  {
    var l, r, p, t := EncodeLeading(h), EncodeReserved1(h.reserved1), EncodePixelFormat(h.pixelFormat), EncodeTrailing(h);
    var e := EncodeHeader(h);
    assert e == l + r + p + t;
    assert e[28..72] == r && e[72..104] == p;
    SubSlice(s, i, i + 124, 28, 72);
    SubSlice(s, i, i + 124, 72, 104);
    Reserved1AtEncoded(s, i + 28, h.reserved1);
    PixelFormatAtEncoded(s, i + 72, h.pixelFormat);
    SubSlice(s, i + 72, i + 104, 8, 12);
    LeadingInHeader(h);
    TrailingInHeader(h);
    ReadsOfCopy(s, i, e);
  }

  /** The DX10 record written by `EncodeDxt10` reads back unchanged. */
  lemma Dxt10AtEncoded(s: seq<byte>, i: nat, d: Dxt10Header)
    requires i + Dxt10HeaderSize <= |s| && s[i..i + Dxt10HeaderSize] == EncodeDxt10(d)
    ensures Dxt10At(s, i) == d
  {
    var e := EncodeDxt10(d);
    Dxt10Layout(d);
    forall o | o in [0, 4, 8, 12, 16] ensures U32At(s, i + o) == U32At(e, o) {
      SubSlice(s, i, i + Dxt10HeaderSize, o, o + 4);
      U32AtSlice(s, i + o, e, o);
    }
  }

  // ---------------------------------------------------------------------------
  // The converse round trip: what was read, written back

  /** Writing back a word that was read gives the four bytes it was read from, as `uint` and as `int`. */
  lemma WordEncodesBack(s: seq<byte>, j: nat)
    requires j + 4 <= |s|
    ensures LeU32(U32At(s, j)) == s[j..j + 4]
    ensures LeI32(I32At(s, j)) == s[j..j + 4]
  {
    U32AtEncodes(s, j);
    SignedRoundTrip(U32At(s, j));
  }

  lemma SliceJoin(s: seq<byte>, a: nat, b: nat, c: nat)
    requires a <= b <= c <= |s|
    ensures s[a..b] + s[b..c] == s[a..c]
  {
  }

  lemma LeadingEncodesBack(s: seq<byte>, i: nat)
    requires i + 28 <= |s|
    ensures LeI32(I32At(s, i)) + LeI32(I32At(s, i + 4)) + LeI32(I32At(s, i + 8)) + LeI32(I32At(s, i + 12))
      + LeI32(I32At(s, i + 16)) + LeI32(I32At(s, i + 20)) + LeI32(I32At(s, i + 24)) == s[i..i + 28]
  {
    WordEncodesBack(s, i); WordEncodesBack(s, i + 4); WordEncodesBack(s, i + 8); WordEncodesBack(s, i + 12);
    WordEncodesBack(s, i + 16); WordEncodesBack(s, i + 20); WordEncodesBack(s, i + 24);
    SliceJoin(s, i, i + 4, i + 8); SliceJoin(s, i, i + 8, i + 12); SliceJoin(s, i, i + 12, i + 16);
    SliceJoin(s, i, i + 16, i + 20); SliceJoin(s, i, i + 20, i + 24); SliceJoin(s, i, i + 24, i + 28);
  }

  lemma {:induction false} Reserved1EncodesBack(s: seq<byte>, i: nat, n: nat)
    requires i + 4 * n <= |s|
    ensures EncodeReserved1(Reserved1At(s, i, n)) == s[i..i + 4 * n]
  {
    if n > 0 {
      var r := Reserved1At(s, i, n);
      assert r[..n - 1] == Reserved1At(s, i, n - 1);
      Reserved1EncodesBack(s, i, n - 1);
      WordEncodesBack(s, i + 4 * (n - 1));
      SliceJoin(s, i, i + 4 * (n - 1), i + 4 * n);
    }
  }

  lemma PixelFormatEncodesBack(s: seq<byte>, j: nat)
    requires j + 32 <= |s| && AsciiBytes(s[j + 8..j + 12])
    ensures EncodePixelFormat(PixelFormatAt(s, j)) == s[j..j + 32]
  {
    WordEncodesBack(s, j); WordEncodesBack(s, j + 4); WordEncodesBack(s, j + 12); WordEncodesBack(s, j + 16);
    WordEncodesBack(s, j + 20); WordEncodesBack(s, j + 24); WordEncodesBack(s, j + 28);
    AsciiEncodeDecode(s[j + 8..j + 12]);
    SliceJoin(s, j, j + 4, j + 8); SliceJoin(s, j, j + 8, j + 12); SliceJoin(s, j, j + 12, j + 16);
    SliceJoin(s, j, j + 16, j + 20); SliceJoin(s, j, j + 20, j + 24); SliceJoin(s, j, j + 24, j + 28);
    SliceJoin(s, j, j + 28, j + 32);
  }

  lemma TrailingEncodesBack(s: seq<byte>, j: nat)
    requires j + 20 <= |s|
    ensures LeU32(U32At(s, j)) + LeU32(U32At(s, j + 4)) + LeU32(U32At(s, j + 8)) + LeU32(U32At(s, j + 12))
      + LeI32(I32At(s, j + 16)) == s[j..j + 20]
  {
    WordEncodesBack(s, j); WordEncodesBack(s, j + 4); WordEncodesBack(s, j + 8); WordEncodesBack(s, j + 12);
    WordEncodesBack(s, j + 16);
    SliceJoin(s, j, j + 4, j + 8); SliceJoin(s, j, j + 8, j + 12); SliceJoin(s, j, j + 12, j + 16);
    SliceJoin(s, j, j + 16, j + 20);
  }

  /** The header read at `i`, written back by `Serialize`, is the 124 bytes it was read from. */
  lemma HeaderEncodesBack(s: seq<byte>, i: nat)
    requires i + 124 <= |s| && AsciiBytes(s[i + 80..i + 84])
    ensures EncodeHeader(HeaderAt(s, i)) == s[i..i + 124]
  {
    var h := HeaderAt(s, i);
    LeadingEncodesBack(s, i);
    assert EncodeLeading(h) == s[i..i + 28];
    Reserved1EncodesBack(s, i + 28, Reserved1Size);
    assert EncodeReserved1(h.reserved1) == s[i + 28..i + 72];
    PixelFormatEncodesBack(s, i + 72);
    assert EncodePixelFormat(h.pixelFormat) == s[i + 72..i + 104];
    TrailingEncodesBack(s, i + 104);
    assert EncodeTrailing(h) == s[i + 104..i + 124];
    SliceJoin(s, i, i + 28, i + 72);
    SliceJoin(s, i, i + 72, i + 104);
    SliceJoin(s, i, i + 104, i + 124);
  }

  /** The DX10 record read at `i`, written back, is the 20 bytes it was read from. */
  lemma Dxt10EncodesBack(s: seq<byte>, i: nat)
    requires i + Dxt10HeaderSize <= |s|
    ensures EncodeDxt10(Dxt10At(s, i)) == s[i..i + Dxt10HeaderSize]
  {
    WordEncodesBack(s, i); WordEncodesBack(s, i + 4); WordEncodesBack(s, i + 8); WordEncodesBack(s, i + 12);
    WordEncodesBack(s, i + 16);
    SliceJoin(s, i, i + 4, i + 8); SliceJoin(s, i, i + 8, i + 12); SliceJoin(s, i, i + 12, i + 16);
    SliceJoin(s, i, i + 16, i + 20);
  }

  /**
   * The codec is an exact inverse in this direction too: re-encoding what `Deserialize` read reproduces,
   * byte for byte, the 124 header bytes after the optional magic and, when a record was read, its 20 bytes.
   */
  lemma DecodeEncodesBack(content: seq<byte>)
    requires FourCCIsAscii(content) && |content| >= DdsHeaderSize
    ensures Decode(content).Success?
    ensures var start := HeaderStart(content);
      var (h, d) := Decode(content).value;
      (start == 4 <==> content[..4] == DdsMagicBytes) &&
      EncodeHeader(h) == content[start..start + 124] &&
      (d.Some? ==> start + 144 <= |content| && EncodeDxt10(d.value) == content[start + 124..start + 144])
  {
    var start := HeaderStart(content);
    HeaderEncodesBack(content, start);
    if start + 144 <= |content| {
      Dxt10EncodesBack(content, start + 124);
    }
  }

  /**
   * Round trip: for 11 Reserved1 entries, the magic followed by `Serialize(h)` decodes to
   * exactly `h`, without a DX10 record (even when the FourCC says "DX10").
   */
  lemma SerializeRoundTrip(h: DdsHeader)
    requires |h.reserved1| == Reserved1Size
    ensures FourCCIsAscii(DdsMagicBytes + EncodeHeader(h))
    ensures Decode(DdsMagicBytes + EncodeHeader(h)) == Success((h, None))
  {
    var s := DdsMagicBytes + EncodeHeader(h);
    HeaderLayout(h);
    assert s[..4] == DdsMagicBytes;
    assert s[4..4 + 124] == EncodeHeader(h);
    HeaderAtEncoded(s, 4, h);
  }

  /**
   * Round trip with the extension: magic, header, DX10 record and any payload decode to the
   * header and, when its FourCC is "DX10", the record.
   */
  lemma SerializeRoundTripDxt10(h: DdsHeader, d: Dxt10Header, payload: seq<byte>)
    requires |h.reserved1| == Reserved1Size
    ensures FourCCIsAscii(DdsMagicBytes + EncodeHeader(h) + EncodeDxt10(d) + payload)
    ensures Decode(DdsMagicBytes + EncodeHeader(h) + EncodeDxt10(d) + payload)
         == Success((h, if IsDxt10Format(h) then Some(d) else None))
  {
    var s := DdsMagicBytes + EncodeHeader(h) + EncodeDxt10(d) + payload;
    HeaderLayout(h);
    assert s[..4] == DdsMagicBytes;
    assert s[4..4 + 124] == EncodeHeader(h);
    HeaderAtEncoded(s, 4, h);
    assert s[128..128 + 20] == EncodeDxt10(d);
    Dxt10AtEncoded(s, 128, d);
  }

  /**
   * A header whose FourCC is not "DX10", after the magic, decodes to itself whatever follows it:
   * the bytes after the header are never read.
   */
  lemma SerializeRoundTripPayload(h: DdsHeader, payload: seq<byte>)
    requires |h.reserved1| == Reserved1Size && !IsDxt10Format(h)
    ensures FourCCIsAscii(DdsMagicBytes + EncodeHeader(h) + payload)
    ensures Decode(DdsMagicBytes + EncodeHeader(h) + payload) == Success((h, None))
  {
    var s := DdsMagicBytes + EncodeHeader(h) + payload;
    HeaderLayout(h);
    assert s[..4] == DdsMagicBytes;
    assert s[4..4 + 124] == EncodeHeader(h);
    HeaderAtEncoded(s, 4, h);
  }
}
