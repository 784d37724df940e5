/** The constants of DdsConstants.cs and the flag bits the core tests. */
module DdsConstants {
  import opened Bytes

  const DdsExtension: string := "dds"
  const DdsMagic: string := "DDS "
  /** The magic as the four bytes a file starts with. */
  const DdsMagicBytes: seq<byte> := [0x44, 0x44, 0x53, 0x20]
  const Dx10FourCC: string := "DX10"
  const Reserved1Size: nat := 11

  /** The 124-byte DDS_HEADER plus the four magic bytes. */
  const DdsHeaderSize: nat := 128
  /** DDS_HEADER_DXT10. */
  const Dxt10HeaderSize: nat := 20

  const EndMarkerSize: nat := 8
  /** The CryEngine end-of-file marker, as DDSFileCombiner.cs spells it out. */
  const EndMarker: seq<byte> := [0x43, 0x45, 0x78, 0x74, 0x43, 0x45, 0x6E, 0x64]

  const CombinedIdentifier: string := "combined"

  /** DDSCaps2.CUBEMAP. */
  const Caps2Cubemap: u32 := 0x200
  /** DDSPixelFormatFlags.FourCC. */
  const PixelFormatFourCC: u32 := 0x4

  /** `(x & mask) != 0` on 32-bit patterns. */
  predicate HasFlag(x: u32, mask: u32) {
    (x as bv32) & (mask as bv32) != 0
  }

  lemma MagicBytesSpellDds()
    ensures DdsMagicBytes == AsciiEncode(DdsMagic)
  {
  }

  /** The marker of DDSFileCombiner.cs is the UTF-8 literal `"CExtCEnd"u8` of DdsConstants.cs. */
  lemma EndMarkerBytes()
    ensures |EndMarker| == EndMarkerSize
    ensures EndMarker == AsciiEncode("CExtCEnd")
  {
  }
}
