# DDS-Unsplitter, modelled in Dafny

CryEngine stores a DDS texture split across several files:

- a header file (`name.dds` or `name.dds.0`) that holds the 128-byte DDS header, sometimes a DX10 extension record, and the smallest mip levels;
- one fragment file per large mip level (`name.dds.1`, `name.dds.2`, ...);
- optionally a gloss texture in the same shape (`name.dds.a`, `name.dds.1a`, ...).

The library puts these back together into one DDS file that ends in the CryEngine marker "CExtCEnd". It does this in two ways, and this project models both, with the header codec they rely on:

- **`DDSFileCombiner`**, the combiner the command line and the integration tests call. It lists the files that start with the base name and drops those holding "combined". It keeps the first 128 bytes of the first listed file. It appends the other files in reverse listing order, each padded with zero bytes to a multiple of four. Then it appends the rest of the header file and the end marker. Before that, it compares the header file's length with that same length plus the bytes the header's dimensions call for. So it skips the work only when the estimated extra bytes are negative. That is when the product of width and height, which wraps in 32-bit `int` arithmetic, times the `uint` pixel format size, a `long` product that does not wrap, is -8 or less.
- **`DDSUnsplitter`** proceeds in two steps:
  - It classifies the listing into a header, a main mip chain and a gloss chain. An already combined `.dds` file is returned unchanged.
  - It rebuilds the file: a re-serialized header, then for each cube face every mip level. The large levels are taken from the fragment files, sorted in descending name order. The small levels are taken from the data that follows the header.
  
  The mip arithmetic is modelled with it: the size of a level by the legacy FourCC or DXGI rules, the offsets of the separate mips, the "already valid" test, and the table of mip dimensions.
- **`DdsHeader.Serialize`** and **`DdsHeaderDeserializer.Deserialize`** are the little-endian codec of the 124-byte DDS_HEADER with its optional "DDS " magic and DX10 record.

The model has these modules:

| module | file | models |
|---|---|---|
| `Bytes` | bytes.dfy | 32-bit values, their little-endian encoding, and ASCII encoding |
| `Streams` | streams.dfy | a `MemoryStream`/`FileStream` with a `BinaryWriter`, and a `BinaryReader` with its position, as classes |
| `DdsConstants` | constants.dfy | the constants the library uses |
| `DdsHeaderModel` | ddsheader.dfy | the header records and `Serialize` |
| `HeaderDeserializer` | deserializer.dfy | `Deserialize` |
| `Strings` | strings.dfy | the LINQ filters, first-match, sorts and string tests used on file names |
| `Paths` | paths.dfy | `Path.GetDirectoryName`, `GetFileNameWithoutExtension` and `Combine` on '/'-separated paths, plus `PrepareFileInfo` and `CreateOutputPath`, which both combiners share |
| `FileCombiner` | filecombiner.dfy | `DDSFileCombiner.cs` |
| `MipLayout` | mips.dfy | the mip arithmetic of `DDSUnsplitter.cs` |
| `UnsplitterFiles` | unsplitter_files.dfy | `DDSUnsplitter.FindMatchingFiles` |
| `Unsplitter` | unsplitter.dfy | `DDSUnsplitter.CombineFiles` |

The file system is modelled as a map from paths to contents. A directory listing is the sequence of paths `Directory.GetFiles` returns, in its order, and is given as a parameter. `Directory.GetFiles` throws an `ArgumentException` for an empty directory name, before anything is listed. A base name without a directory part, such as the usage example `texture.dds`, has the directory name "" (not null), so `DDSFileCombiner.Combine` throws for it. The same holds for `DDSUnsplitter`, whose `FindMatchingFiles` is modelled from the listing on, for a directory that could be listed. Every operation that writes or reads a stream is a method over the stream classes. Each such method is proved equal to a function of its inputs, and the properties are proved about those functions. `DDSUnsplitter` calls `DdsHeader.Deserialize(string)` and `FileInfo.Length`, whose code is not part of this model. They become parameters: `headerOf` gives a file's `HeaderInfo` (header, optional DX10 record, optional post-header data) or the exception it throws, and `lengthOf` gives a file's length.

Where the code and its design notes disagree, the model follows the code:

- BC4 is 8 bytes per block, not 16.
- A "DX10" FourCC without room for the record gives no record rather than an error.
- The "already valid" test is `file length > last offset`.
- The legacy FourCC case "BC5_SNORM" can never match a 4-character FourCC.
- In `DDSUnsplitter.CombineFiles` the fragments are sorted in descending name order. Up to nine fragments this puts the highest-numbered file first, as mip 0. From ten fragments on it does not: "name.dds.9" sorts before "name.dds.10", so mip 0 comes from ".dds.9" and ".dds.10" lands between ".dds.2" and ".dds.1" (`Unsplitter.NinthFragmentBeforeTenth`).

## Model

| member | source | states |
|---|---|---|
| Bytes.AsUnsigned | DDSUnsplitter.Library/Models/DdsHeader.cs:34-37 | the `(int)` cast of a flags word and the `(uint)` pattern of an `int` are inverse: converting back gives the original value |
| Bytes.AsSigned | DDSUnsplitter.Library/DdsHeaderDeserializer.cs:19-25 | the signed value has the same bit pattern (it is congruent to the pattern modulo 2^32), and it is negative exactly when the top bit is set |
| Bytes.SignedRoundTrip | DDSUnsplitter.Library/DdsHeaderDeserializer.cs:19-25 | `(uint)(int)u` is `u`: together with `AsUnsigned`, the two casts are inverse in both directions |
| Bytes.Wrap32 | DDSUnsplitter.Library/DDSFileCombiner.cs:81 | unchecked 32-bit `int` arithmetic: the exact value when it is in range, and always congruent to it modulo 2^32 |
| Bytes.LeU32RoundTrip | DDSUnsplitter.Library/DdsHeaderDeserializer.cs:65-72 | `ReadUInt32` of the four bytes `Write(uint)` emits returns the value written |
| Bytes.LeI32RoundTrip | DDSUnsplitter.Library/DdsHeaderDeserializer.cs:19-25 | `ReadInt32` of the four bytes `Write(int)` emits returns the value written |
| Bytes.U32AtEncodes | DDSUnsplitter.Library/DdsHeaderDeserializer.cs:65 | writing back a value that was read reproduces the four bytes it was read from |
| Bytes.U32AtSlice | DDSUnsplitter.Library/DdsHeaderDeserializer.cs:65 | a read depends only on the four bytes it reads |
| Bytes.AsciiRoundTrip | DDSUnsplitter.Library/DdsHeaderDeserializer.cs:67 | the bytes `Write(char[])` emits for an ASCII FourCC are ASCII, and `ReadChars` returns the same characters from them |
| Bytes.AsciiEncodeDecode | DDSUnsplitter.Library/Models/DdsHeader.cs:55 | re-encoding the characters read from ASCII bytes gives the same bytes |
| DdsConstants.MagicBytesSpellDds | DDSUnsplitter.Library/Models/DdsConstants.cs:10 | the four magic bytes the decoder compares are the ASCII encoding of "DDS " |
| DdsConstants.EndMarkerBytes | DDSUnsplitter.Library/DDSFileCombiner.cs:10 | the combiner's eight marker bytes are the "CExtCEnd" literal of DdsConstants.cs:20 |
| Streams.OutputStream.constructor | DDSUnsplitter.Library/Models/DdsHeader.cs:22 | a new stream holds nothing |
| Streams.OutputStream.Write | DDSUnsplitter.Library/DDSFileCombiner.cs:109 | appends the whole buffer and nothing else |
| Streams.OutputStream.WriteRange | DDSUnsplitter.Library/DDSUnsplitter.cs:366 | appends exactly `buffer[offset .. offset + count]` |
| Streams.OutputStream.WriteInt32 | DDSUnsplitter.Library/Models/DdsHeader.cs:25-31 | appends the four little-endian bytes of the `int` |
| Streams.OutputStream.WriteUInt32 | DDSUnsplitter.Library/Models/DdsHeader.cs:53 | appends the four little-endian bytes of the `uint` |
| Streams.OutputStream.WriteChars | DDSUnsplitter.Library/Models/DdsHeader.cs:55 | appends one byte per ASCII character |
| Streams.BinaryReader.constructor | DDSUnsplitter.Library/DdsHeaderDeserializer.cs:12-13 | the reader starts at position 0 of the buffer |
| Streams.BinaryReader.ReadInt32 | DDSUnsplitter.Library/DdsHeaderDeserializer.cs:19-25 | returns the `int` at the position and advances it by four |
| Streams.BinaryReader.ReadUInt32 | DDSUnsplitter.Library/DdsHeaderDeserializer.cs:65 | returns the `uint` at the position and advances it by four |
| Streams.BinaryReader.ReadChars | DDSUnsplitter.Library/DdsHeaderDeserializer.cs:67 | returns the characters of the next `n` ASCII bytes and advances by `n` |
| DdsHeaderModel.Serialize | DDSUnsplitter.Library/Models/DdsHeader.cs:20-41 | returns the leading fields, Reserved1, the pixel format and the trailing fields in that order: 80 + 4·\|Reserved1\| bytes, with no magic |
| DdsHeaderModel.WriteLeading | DDSUnsplitter.Library/Models/DdsHeader.cs:25-31 | appends the seven leading `int`s in field order and nothing else |
| DdsHeaderModel.WriteReserved1 | DDSUnsplitter.Library/Models/DdsHeader.cs:43-49 | appends every Reserved1 entry in order, four bytes each |
| DdsHeaderModel.WritePixelFormat | DDSUnsplitter.Library/Models/DdsHeader.cs:51-61 | appends the 32-byte pixel format: size, flags, FourCC characters, bit count and four masks |
| DdsHeaderModel.WriteTrailing | DDSUnsplitter.Library/Models/DdsHeader.cs:34-38 | appends Caps to Caps4 as their bit patterns, then Reserved2 |
| DdsHeaderModel.Reserved1Layout | DDSUnsplitter.Library/Models/DdsHeader.cs:43-49 | entry `k` of Reserved1 is the word at byte `4k` of its encoding |
| DdsHeaderModel.LeadingLayout | DDSUnsplitter.Library/Models/DdsHeader.cs:25-31 | Size, Flags, Height, Width, PitchOrLinearSize, Depth and MipMapCount sit at 0, 4, ..., 24 |
| DdsHeaderModel.PixelFormatLayout | DDSUnsplitter.Library/Models/DdsHeader.cs:51-61 | each pixel-format field sits at its offset, and the FourCC fills bytes 8 to 12 |
| DdsHeaderModel.TrailingLayout | DDSUnsplitter.Library/Models/DdsHeader.cs:34-38 | Caps..Caps4 and Reserved2 sit at 0, 4, ..., 16 of their part |
| DdsHeaderModel.HeaderLayout | DDSUnsplitter.Library/Models/DdsHeader.cs:20-41 | the byte-exact layout of `Serialize`: its length, the word at each leading offset, every Reserved1 entry at 28 + 4k, the pixel format at 28 + 4·\|Reserved1\|, and the trailing words after it |
| DdsHeaderModel.Dxt10Layout | DDSUnsplitter.Library/DdsHeaderDeserializer.cs:76-86 | the five DX10 fields sit at 0, 4, 8, 12 and 16 of the 20-byte record, in the order the decoder reads them |
| HeaderDeserializer.HeaderStart | DDSUnsplitter.Library/DdsHeaderDeserializer.cs:45-52 | the header starts at 4 after a "DDS " magic and at 0 otherwise |
| HeaderDeserializer.SkipMagicNumberIfPresent | DDSUnsplitter.Library/DdsHeaderDeserializer.cs:45-52 | the reader moves past the four bytes exactly when they are the magic, and otherwise stays where it was |
| HeaderDeserializer.ValidateHeaderContent | DDSUnsplitter.Library/DdsHeaderDeserializer.cs:88-101 | the buffer is rejected exactly when it is shorter than 128 bytes |
| HeaderDeserializer.ReadReserved1 | DDSUnsplitter.Library/DdsHeaderDeserializer.cs:54-59 | reads the eleven `int`s that follow, in order, and moves past them |
| HeaderDeserializer.ReadPixelFormat | DDSUnsplitter.Library/DdsHeaderDeserializer.cs:61-74 | reads the 32-byte pixel format field by field and moves past it |
| HeaderDeserializer.ReadDxt10Header | DDSUnsplitter.Library/DdsHeaderDeserializer.cs:76-86 | reads the five DX10 words in order and moves past them |
| HeaderDeserializer.ReadLeadingFields | DDSUnsplitter.Library/DdsHeaderDeserializer.cs:19-25 | the seven leading `int`s are the words at 0 to 24 from the position |
| HeaderDeserializer.ReadTrailingFields | DDSUnsplitter.Library/DdsHeaderDeserializer.cs:28-32 | Caps..Caps4 are the words at 0 to 12 from the position, and Reserved2 the `int` at 16 |
| HeaderDeserializer.ReadHeaderFields | DDSUnsplitter.Library/DdsHeaderDeserializer.cs:17-33 | the record read is the 124-byte header at the position, and the reader ends 124 bytes on |
| HeaderDeserializer.Deserialize | DDSUnsplitter.Library/DdsHeaderDeserializer.cs:8-41 | the reader-driven decoder returns exactly what `Decode` says the buffer holds, including its error |
| HeaderDeserializer.DecodeFailsIffShort | DDSUnsplitter.Library/DdsHeaderDeserializer.cs:95-100 | decoding fails exactly for a buffer under 128 bytes, with the `ArgumentException` carrying its length |
| HeaderDeserializer.Dxt10Presence | DDSUnsplitter.Library/DdsHeaderDeserializer.cs:35-38 | a DX10 record is returned exactly when the FourCC is "DX10" and the 20 bytes after the header fit in the buffer, and it is the record at that place |
| HeaderDeserializer.MagicAnd128BytesMeansNoDxt10 | DDSUnsplitter.Library/DdsHeaderDeserializer.cs:37 | a 128-byte buffer that starts with the magic never yields a DX10 record |
| HeaderDeserializer.DecodeReadsOnlyPrefix | DDSUnsplitter.Library/DdsHeaderDeserializer.cs:8-41 | two buffers that agree on the bytes the decoder reads, and on whether the record fits, decode alike |
| HeaderDeserializer.HeaderAtEncoded | DDSUnsplitter.Library/DdsHeaderDeserializer.cs:17-33 | the header fields read from a serialized header are the fields serialized |
| HeaderDeserializer.Dxt10AtEncoded | DDSUnsplitter.Library/DdsHeaderDeserializer.cs:76-86 | the record read from an encoded DX10 record is the record encoded |
| HeaderDeserializer.SerializeRoundTrip | DDSUnsplitter.Library/Models/DdsHeader.cs:20-41 | the magic followed by `Serialize()` decodes to the same header, with no DX10 record |
| HeaderDeserializer.SerializeRoundTripDxt10 | DDSUnsplitter.Library/DdsHeaderDeserializer.cs:35-40 | magic, header, DX10 record and any payload decode to the header, and to the record exactly when the FourCC is "DX10" |
| HeaderDeserializer.SerializeRoundTripPayload | DDSUnsplitter.Library/DdsHeaderDeserializer.cs:8-41 | a header whose FourCC is not "DX10" decodes to itself whatever bytes follow it |
| HeaderDeserializer.HeaderEncodesBack | DDSUnsplitter.Library/DdsHeaderDeserializer.cs:17-33 | the header read at an offset, serialized again, is the 124 bytes it was read from |
| HeaderDeserializer.Dxt10EncodesBack | DDSUnsplitter.Library/DdsHeaderDeserializer.cs:76-86 | the DX10 record read at an offset, written again, is the 20 bytes it was read from |
| HeaderDeserializer.DecodeEncodesBack | DDSUnsplitter.Library/DdsHeaderDeserializer.cs:8-41 | the converse round trip: for a buffer of at least 128 bytes, re-encoding what was decoded gives back the header bytes after the optional magic, and the record's bytes when one was read |
| Strings.ContainsIgnoringCase | DDSUnsplitter.Library/DDSFileCombiner.cs:62 | a name that contains the text verbatim also contains it ignoring case |
| Strings.TrailingDigitCount | DDSUnsplitter.Library/DDSUnsplitter.cs:112 | counts the maximal run of digits that ends the name |
| Strings.Filter | DDSUnsplitter.Library/DDSUnsplitter.cs:94 | `Where` keeps exactly the elements satisfying the test |
| Strings.FilterAppend | DDSUnsplitter.Library/DDSUnsplitter.cs:111-113 | filtering keeps relative order: a filtered concatenation is the concatenation of the filtered parts |
| Strings.FirstWhereFinds | DDSUnsplitter.Library/DDSUnsplitter.cs:98 | `FirstOrDefault` is null exactly when no element qualifies, and otherwise the earliest element that does |
| Strings.SortByKey | DDSUnsplitter.Library/DDSUnsplitter.cs:114 | `OrderBy(key)` returns a permutation of its input whose keys ascend |
| Strings.InsertByKey | DDSUnsplitter.Library/DDSUnsplitter.cs:114 | inserting into a key-sorted list adds exactly the element and keeps it sorted |
| Strings.LexLeTotal | DDSUnsplitter.Library/DDSUnsplitter.cs:339 | any two names are ordered one way or the other by ordinal comparison |
| Strings.LexLeTransitive | DDSUnsplitter.Library/DDSUnsplitter.cs:339 | ordinal order is transitive |
| Strings.LexLeAntisymmetric | DDSUnsplitter.Library/DDSUnsplitter.cs:339 | names ordered both ways are equal |
| Strings.SortDescending | DDSUnsplitter.Library/DDSUnsplitter.cs:338-339 | `OrderDescending()` returns a permutation of its input, latest name first |
| Strings.InsertDescending | DDSUnsplitter.Library/DDSUnsplitter.cs:339 | inserting into a descending list adds exactly the name and keeps it descending |
| Paths.LastIndexOf | DDSUnsplitter.Library/DDSFileCombiner.cs:55 | the result is -1 or a position holding the character |
| Paths.LastIndexOfIsLast | DDSUnsplitter.Library/DDSFileCombiner.cs:55 | no later position holds the character |
| Paths.DirectoryNameAbsentIff | DDSUnsplitter.Library/DDSFileCombiner.cs:50 | `GetDirectoryName` is null exactly for the empty path and the bare root |
| Paths.PrepareFileInfoFailsIffNoDirectory | DDSUnsplitter.Library/DDSFileCombiner.cs:48-57 | `PrepareFileInfo` throws `DirectoryNotFoundException` exactly when `GetDirectoryName` is null, that is for "" and the bare root; a name without a directory part passes |
| Paths.BareNameHasEmptyDirectory | DDSUnsplitter.Library/DDSFileCombiner.cs:50-56 | a file name without separators has the directory name "", and `PrepareFileInfo` accepts it with that directory |
| Paths.PrepareStripsTwoExtensions | DDSUnsplitter.Library/DDSFileCombiner.cs:54-56 | "dir/stem.a.b" gives the directory "dir" and the name "stem": two extensions are removed |
| Paths.CombineSplits | DDSUnsplitter.Library/DDSFileCombiner.cs:91 | a directory and a plain name joined by `Path.Combine` split back into the same directory and name |
| Paths.FileNameAfter | DDSUnsplitter.Library/DDSFileCombiner.cs:55 | the file name of a path is what follows its directory part |
| Paths.CreateOutputPathSuffix | DDSUnsplitter.Library/DDSFileCombiner.cs:87-92 | the output path ends in ".identifier.dds" with a safe name and in "name.dds" without one |
| Paths.CreateOutputPathSplits | DDSUnsplitter.Library/DDSUnsplitter.cs:282-287 | the output path lies in the given directory and its file name is `name[.identifier].dds` |
| Paths.SafeNameEndsWithCombinedDds | DDSUnsplitter.Tests/DDSFileCombiner.IntegrationTests.cs:53-61 | with a safe name and the default identifier, the output ends in ".combined.dds" |
| Paths.CombineEndsWithSecond | DDSUnsplitter.Library/DDSFileCombiner.cs:91 | `Path.Combine` keeps the second path as the end of its result |
| FileCombiner.SearchFiles | DDSUnsplitter.Library/DDSFileCombiner.cs:61 | a listed path is found exactly when its file name starts with the base name |
| FileCombiner.FindMatchingFiles | DDSUnsplitter.Library/DDSFileCombiner.cs:59-64 | throws `ArgumentException` exactly for an empty directory name; otherwise the loop over the listing returns exactly the matching files, in listing order |
| FileCombiner.MatchingFilesIff | DDSUnsplitter.Library/DDSFileCombiner.cs:61-62 | a path is kept exactly when it is listed, its file name starts with the base name, and it contains no "combined" in any letter case |
| FileCombiner.MatchingFilesKeepOrder | DDSUnsplitter.Library/DDSFileCombiner.cs:61-63 | the matches of a split listing are the matches of its first part followed by those of its second |
| FileCombiner.SearchFilesAppend | DDSUnsplitter.Library/DDSFileCombiner.cs:61 | the search keeps listing order across a split |
| FileCombiner.HeaderSplit | DDSUnsplitter.Library/DDSFileCombiner.cs:66-76 | succeeds exactly for an existing file of at least 128 bytes; the content is the whole file, which is its first 128 bytes followed by the post-header data |
| FileCombiner.HeaderSplitFails | DDSUnsplitter.Library/DDSFileCombiner.cs:68-72 | a missing header file throws `FileNotFoundException`, and one under 128 bytes throws `OverflowException` from the negative array length |
| FileCombiner.ProcessHeaderFile | DDSUnsplitter.Library/DDSFileCombiner.cs:66-76 | the array copy loop returns exactly the split `HeaderSplit` describes, errors included |
| FileCombiner.IsAlreadyValidDdsFile | DDSUnsplitter.Library/DDSFileCombiner.cs:78-85 | the check throws exactly when the header content is under 128 bytes, with the decoder's `ArgumentException` |
| FileCombiner.AlreadyValidIffNegative | DDSUnsplitter.Library/DDSFileCombiner.cs:81-84 | with the file's own length as its size, the file counts as valid exactly when the wrapped size estimate is negative |
| FileCombiner.Pad4 | DDSUnsplitter.Library/DDSFileCombiner.cs:118-127 | the padded fragment is the fragment followed by zero bytes up to the next multiple of four, fewer than four of them |
| FileCombiner.Pad4Aligns | DDSUnsplitter.Library/DDSFileCombiner.cs:121-127 | the padded length is the 4-byte alignment `CalculateMipmapOffsets` applies in DDSUnsplitter.cs:183 |
| FileCombiner.Pad4Idempotent | DDSUnsplitter.Library/DDSFileCombiner.cs:121-127 | a padded fragment needs no further padding |
| FileCombiner.WriteMipMapWithAlignment | DDSUnsplitter.Library/DDSFileCombiner.cs:113-128 | a missing fragment throws `FileNotFoundException` and writes nothing; otherwise the padded fragment is appended |
| FileCombiner.CombineFiles | DDSUnsplitter.Library/DDSFileCombiner.cs:94-111 | the bytes written are exactly `CombinedOutput`, or the first exception the loop meets |
| FileCombiner.ChunksFailBelow | DDSUnsplitter.Library/DDSFileCombiner.cs:103-106 | once a fragment is missing, the writing loop stops there with that exception |
| FileCombiner.ChunksContent | DDSUnsplitter.Library/DDSFileCombiner.cs:103-106 | the fragments are written exactly when all of them exist, taking their padded lengths; otherwise the exception names the missing fragment with the highest index |
| FileCombiner.ChunksSplit | DDSUnsplitter.Library/DDSFileCombiner.cs:103-106 | reverse order: at any split point, the fragments above it are written before those below it |
| FileCombiner.ChunksReadFrom | DDSUnsplitter.Library/DDSFileCombiner.cs:103 | the loop reads only the names from its lower bound up |
| FileCombiner.FirstFileNotAFragment | DDSUnsplitter.Library/DDSFileCombiner.cs:103 | the first listed file, the header, is never written as a fragment (`i > 0`) |
| FileCombiner.CombinedOutputShape | DDSUnsplitter.Library/DDSFileCombiner.cs:94-111 | the output is the header's first 128 bytes, the padded fragments, the post-header data and the end marker, with exactly their total length |
| FileCombiner.CombinedOutputInsertsFragments | DDSUnsplitter.Library/DDSFileCombiner.cs:28-37 | after the header file is split, the combined file is that header file with the fragments inserted after byte 128, plus the marker |
| FileCombiner.Combine | DDSUnsplitter.Library/DDSFileCombiner.cs:20-40 | the method returns exactly `CombineOutcome`: the path returned and the files after the call, or the exception; only the decoded header file needs ASCII FourCC bytes |
| FileCombiner.CombineFailsEarly | DDSUnsplitter.Library/DDSFileCombiner.cs:24-28 | the exceptions raised before any fragment is read: a null directory name, an empty directory name (`Directory.GetFiles` throws), no matching file (`matchingFiles[0]` is out of range), an unreadable or short header file |
| FileCombiner.BareFileNameThrows | DDSUnsplitter.Library/DDSFileCombiner.cs:24-25 | a base name without a directory part, such as "texture.dds", makes `Combine` throw `ArgumentException`, whatever the directory holds |
| FileCombiner.CombineWrites | DDSUnsplitter.Library/DDSFileCombiner.cs:28-39 | once the header file is read and the directory name is not empty: a file counted as valid is returned with nothing written; otherwise the output path gets the combined bytes, or the fragment exception is thrown; the fragments may hold any bytes |
| FileCombiner.CombineWritesUnlessWrapped | DDSUnsplitter.Library/DDSFileCombiner.cs:30-39 | when width times height does not wrap to a negative `int`, a successful call returns the new output path |
| MipLayout.DxgiCodeRoundTrip | DDSUnsplitter.Library/DDSUnsplitter.cs:212-245 | each DXGI code the size table names reads back as the same code, and so does every other code |
| MipLayout.Align4 | DDSUnsplitter.Library/DDSUnsplitter.cs:183 | `(x + 3) & ~3` is the least multiple of four at or above `x` |
| MipLayout.MipSizeRule | DDSUnsplitter.Library/DDSUnsplitter.cs:198-280 | a size is returned exactly for the supported formats, and otherwise `NotSupportedException`; block formats take covering blocks times block bytes, DXGI pixel formats width·height·bytes, uncompressed legacy formats bits rounded up to bytes |
| MipLayout.BlocksCover | DDSUnsplitter.Library/DDSUnsplitter.cs:247-248 | `(x + 3) / 4` is the fewest 4-pixel blocks that cover `x` pixels |
| MipLayout.MipSizePositive | DDSUnsplitter.Library/DDSUnsplitter.cs:198-280 | a supported level of at least one pixel, with a positive bit count, takes at least one byte |
| MipLayout.ShiftedDimension | DDSUnsplitter.Library/DDSUnsplitter.cs:177-178 | `Math.Max(1, x >> i)` is at least one |
| MipLayout.LevelSizeRule | DDSUnsplitter.Library/DDSUnsplitter.cs:177-180 | every level's size is defined exactly when the format is supported |
| MipLayout.LevelSpan | DDSUnsplitter.Library/DDSUnsplitter.cs:180-183 | each level's aligned span is a multiple of four |
| MipLayout.CalculateMipmapOffsets | DDSUnsplitter.Library/DDSUnsplitter.cs:155-189 | the loop returns exactly the offset list `MipmapOffsets` defines, or the size rule's exception |
| MipLayout.SeparateMipCountIs | DDSUnsplitter.Library/DDSUnsplitter.cs:167-173 | the loop runs MipMapCount - 3 times above three, never for a count from `int.MinValue + 3` to 3, and 2^31 - 3 to 2^31 - 1 times for the three counts nearest `int.MinValue`, where `totalMipCount - smallMipsInHeader` wraps |
| MipLayout.OffsetsShape | DDSUnsplitter.Library/DDSUnsplitter.cs:164-175 | there are MipMapCount - 3 offsets for a count above three, none for a count from `int.MinValue + 3` to 3, and MipMapCount - 3 + 2^32 for the three lowest counts, where the `int` subtraction of line 167 wraps; and the first is 128, plus 20 with a DX10 record, plus the length of the post-header data when present (`GetInitialOffset`, lines 402-413) |
| MipLayout.OffsetsAdvance | DDSUnsplitter.Library/DDSUnsplitter.cs:175-185 | each offset is the previous one plus that level's size rounded up to four bytes |
| MipLayout.OffsetsAre | DDSUnsplitter.Library/DDSUnsplitter.cs:169-188 | offset `i` is the initial offset plus the aligned sizes of levels 0 to i-1 |
| MipLayout.OffsetsFailIff | DDSUnsplitter.Library/DDSUnsplitter.cs:164-180 | the computation throws exactly when some mip is separate and the format has no size rule, that is for a count above three or one of the three lowest counts (the wrapped difference), and then throws NotSupported |
| MipLayout.SpanSumAligned | DDSUnsplitter.Library/DDSUnsplitter.cs:183-185 | the running sum of aligned sizes stays a multiple of four |
| MipLayout.OffsetsApart | DDSUnsplitter.Library/DDSUnsplitter.cs:183-185 | for levels of at least one byte, later offsets lie at least four bytes on and share the alignment |
| MipLayout.OffsetsIncrease | DDSUnsplitter.Library/DDSUnsplitter.cs:169-188 | the offset list increases strictly, by at least four per level, and all its entries are congruent modulo four |
| MipLayout.AlreadyValidIff | DDSUnsplitter.Library/DDSUnsplitter.cs:136-148 | a file counts as combined exactly when no mip is separate or its length exceeds the last separate mip's offset |
| MipLayout.AlreadyValidFailsIff | DDSUnsplitter.Library/DDSUnsplitter.cs:141 | the test throws exactly when the offset computation does |
| MipLayout.MipDimension | DDSUnsplitter.Library/DDSUnsplitter.cs:394-395 | the dimension of a level is at least one |
| MipLayout.GetMipMapSizes | DDSUnsplitter.Library/DDSUnsplitter.cs:388-400 | a negative MipMapCount throws `OverflowException`; otherwise one (width, height) pair per level, each the dimension divided by 2^i, at least 1 |
| MipLayout.MipDimensionHalves | DDSUnsplitter.Library/DDSUnsplitter.cs:394-395 | each level's dimension is half the previous one, rounded down, and never below one |
| MipLayout.DimensionsAgree | DDSUnsplitter.Library/DDSUnsplitter.cs:394-395 | for levels below 32, the `Math.Pow` division of `GetMipMapSizes` and the shift of `CalculateMipmapOffsets` (line 177) give the same dimension |
| UnsplitterFiles.TrailingDigits | DDSUnsplitter.Library/DDSUnsplitter.cs:127-128 | the digits a mip name ends with are all digits |
| UnsplitterFiles.MipNumberIsTrailingNumber | DDSUnsplitter.Library/DDSUnsplitter.cs:112-114 | for a name matching `\.dds\.\d+$`, the segment after the last dot is exactly its trailing digits, so the sort key is their value |
| UnsplitterFiles.AlreadyCombinedIff | DDSUnsplitter.Library/DDSUnsplitter.cs:97-104 | a set is marked combined exactly when the `.dds` file exists and passes the validity test; it then holds that file alone; a throwing check propagates its exception |
| UnsplitterFiles.BaseCheckDecides | DDSUnsplitter.Library/DDSUnsplitter.cs:99-104 | when the base file's check throws or finds it combined, that alone decides the result |
| UnsplitterFiles.ClassifiedSetsAreSplit | DDSUnsplitter.Library/DDSUnsplitter.cs:106-133 | the classification of split files never marks a set combined |
| UnsplitterFiles.SplitFilesClassified | DDSUnsplitter.Library/DDSUnsplitter.cs:106-133 | past the base file's check, the result is the classification of the names left after removing ".combined." ones |
| UnsplitterFiles.HeaderSelection | DDSUnsplitter.Library/DDSUnsplitter.cs:107-108 | the header is the first ".dds.0" name, else the ".dds" name; with neither, `FileNotFoundException("No header file found")` |
| UnsplitterFiles.ClassifiedHeader | DDSUnsplitter.Library/DDSUnsplitter.cs:107-108 | the same choice of header, for the classification of a filtered listing |
| UnsplitterFiles.MipmapFilesContent | DDSUnsplitter.Library/DDSUnsplitter.cs:111-115 | the main mips are exactly the listed names matching `\.dds\.\d+$` and not ending in ".0", as a permutation of the filtered listing, in ascending order of their number |
| UnsplitterFiles.ClassifiedMips | DDSUnsplitter.Library/DDSUnsplitter.cs:111-115 | the same, for the classification of a filtered listing |
| UnsplitterFiles.GlossFilesContent | DDSUnsplitter.Library/DDSUnsplitter.cs:117-131 | a gloss chain exists exactly when a ".dds.a" name is listed; then the header is such a name, and the mips are exactly the names matching `\.dds\.\d+a$` in ascending order of their number |
| UnsplitterFiles.ClassifiedGloss | DDSUnsplitter.Library/DDSUnsplitter.cs:117-131 | the same, for the classification of a filtered listing |
| UnsplitterFiles.FileRolesDisjoint | DDSUnsplitter.Library/DDSUnsplitter.cs:106-131 | no name plays two parts: the headers are not in either mip chain and the two chains share no name |
| UnsplitterFiles.LastCharacters | DDSUnsplitter.Library/DDSUnsplitter.cs:107-118 | a gloss header is never the main header |
| UnsplitterFiles.HeaderIsNoMip | DDSUnsplitter.Library/DDSUnsplitter.cs:107-124 | a ".dds" or ".dds.0" name is in neither mip chain |
| UnsplitterFiles.GlossHeaderIsNoMip | DDSUnsplitter.Library/DDSUnsplitter.cs:112-124 | a ".dds.a" name matches neither mip pattern |
| UnsplitterFiles.MipIsNoGlossMip | DDSUnsplitter.Library/DDSUnsplitter.cs:112-124 | no name matches both mip patterns |
| Unsplitter.HeaderNeverWritten | DDSUnsplitter.Library/DDSUnsplitter.cs:321-332 | as written, `Serialize()` returns fewer than 128 bytes, so the guarded header write never happens |
| Unsplitter.HeaderBlockLength | DDSUnsplitter.Library/DDSUnsplitter.cs:316 | the corrected header block is `totalHeaderSize` long: 128, plus 20 with a DX10 record |
| Unsplitter.HeaderBlockDecodes | DDSUnsplitter.Library/DDSUnsplitter.cs:321-332 | whatever follows it, the corrected header block decodes to the header and DX10 record it was made from |
| Unsplitter.WriteHeaderBlock | DDSUnsplitter.Library/DDSUnsplitter.cs:321-332 | appends the corrected header block |
| Unsplitter.NinthFragmentBeforeTenth | DDSUnsplitter.Library/DDSUnsplitter.cs:338-339 | `OrderDescending()` puts "name.dds.9" before "name.dds.10" in every listing that holds both, so that from ten fragments on the sorted order is not the mip order |
| Unsplitter.ReadFragments | DDSUnsplitter.Library/DDSUnsplitter.cs:338-348 | the contents are read exactly when every fragment exists, each the file's bytes, in order; otherwise a missing fragment's `FileNotFoundException` |
| Unsplitter.CombineFiles | DDSUnsplitter.Library/DDSUnsplitter.cs:289-386 | the bytes written are exactly `CombinedFile`, or its exception |
| Unsplitter.WriteFaces | DDSUnsplitter.Library/DDSUnsplitter.cs:353-383 | the outer loop writes exactly what `AssembleFaces` gives, or throws its exception |
| Unsplitter.WriteFace | DDSUnsplitter.Library/DDSUnsplitter.cs:355-382 | the inner loop writes exactly what `AssembleMips` gives for the face, or throws its exception |
| Unsplitter.WriteMipSlice | DDSUnsplitter.Library/DDSUnsplitter.cs:360-381 | one level: the face's slice of the fragment, or the next bytes of the post-header data, or `InvalidOperationException` when they are not there |
| Unsplitter.LevelsOfSizes | DDSUnsplitter.Library/DDSUnsplitter.cs:357-358 | the sizes the loop computes from `GetMipMapSizes` are the level sizes the specification uses |
| Unsplitter.MipsFailFrom | DDSUnsplitter.Library/DDSUnsplitter.cs:355-382 | once a level throws, the face ends with that exception |
| Unsplitter.FacesFailFrom | DDSUnsplitter.Library/DDSUnsplitter.cs:353-383 | once a face throws, the file ends with that exception |
| Unsplitter.MipStepFits | DDSUnsplitter.Library/DDSUnsplitter.cs:360-381 | a level is written exactly when it fits, and then its data is appended and the post-header offset moves past the data it used |
| Unsplitter.MipStepMisfit | DDSUnsplitter.Library/DDSUnsplitter.cs:358-379 | a level without a size throws what `CalculateMipSize` threw; a level with a size that runs past its fragment or the post-header data, or finds none, throws `InvalidOperationException` |
| Unsplitter.AssembleFacesErrors | DDSUnsplitter.Library/DDSUnsplitter.cs:353-383 | the loops throw only a size computation's exception, `InvalidOperationException` or `ArgumentOutOfRangeException` |
| Unsplitter.AssembleMipsContent | DDSUnsplitter.Library/DDSUnsplitter.cs:355-382 | a face is written exactly when each of its levels fits, and then it is its levels in order, with the post-header offset moved by what they used |
| Unsplitter.FaceContent | DDSUnsplitter.Library/DDSUnsplitter.cs:353-383 | a whole face, started where the previous faces left the post-header offset, is written exactly when it fits, and is then its levels |
| Unsplitter.AssembleFacesContent | DDSUnsplitter.Library/DDSUnsplitter.cs:350-383 | all faces are written exactly when every level of every face fits, and then the body is the faces in order |
| Unsplitter.CombinedFileContent | DDSUnsplitter.Library/DDSUnsplitter.cs:337-385 | a negative MipMapCount throws `OverflowException` and a missing fragment `FileNotFoundException`; otherwise the file is produced exactly when everything fits, and is the header block, the faces and the end marker |
| Unsplitter.CombinedFileErrors | DDSUnsplitter.Library/DDSUnsplitter.cs:350-383 | once the fragments are read, the only exceptions are `InvalidOperationException` for a slice that does not fit, `ArgumentOutOfRangeException` for a negative size, and `NotSupportedException` for a format without a size rule |
| Unsplitter.LevelDataLength | DDSUnsplitter.Library/DDSUnsplitter.cs:366-376 | a level that fits contributes exactly its computed size |
| Unsplitter.FaceDataLength | DDSUnsplitter.Library/DDSUnsplitter.cs:355-382 | a face is as long as the sizes of its levels together |
| Unsplitter.FacesDataLength | DDSUnsplitter.Library/DDSUnsplitter.cs:353-383 | every face has the same length, so the body is the face count times it |
| Unsplitter.CombinedFileLength | DDSUnsplitter.Library/DDSUnsplitter.cs:321-385 | the combined file is as long as the header block, the faces and the eight marker bytes together; it starts with the header block and ends with "CExtCEnd" |

## Left out

- The copy of a `.dds` header file to `.dds.0` before combining (DDSUnsplitter.cs:291-314) is not modelled: it is a file-system side effect with an I/O fallback, and no output byte depends on it.
- The command-line programs, console messages and real file I/O are left out. Files are a map, directory listings are sequences, and `FileInfo.Length` is a parameter.
- The model does not keep the partial output left on disk when an exception stops a combine. The output stream is created before the fragments are read.
- An output path equal to one of the input files is not modelled. Inputs are read from the map as it was before the call.
- `DDSUnsplitter.Combine` (DDSUnsplitter.cs:47-77) is not modelled as one operation. Its parts are: `PrepareFileInfo`, `FindMatchingFiles`, `CreateOutputPath` and `CombineFiles`. The gloss output name comes from `Path.GetExtension`, which is not modelled.
- `DdsHeader.Deserialize(string)`, `HeaderInfo` and `DXT10Header.Serialize` are not part of this model. A file's `HeaderInfo` is the `headerOf` parameter, and the DX10 record is taken to serialize as its five little-endian words.
- MipLayout.CalculateMipSizeLegacy: the 32-bit `int` overflow of `width * height * bpp` and of the block products is not modelled. Sizes and offsets are unbounded integers, which agree with the source only for textures whose sizes fit in an `int`.
- MipLayout.CalculateMipmapOffsets: for a count of separate mips in the billions (`SeparateMipCount`: 2^31 - 3 to 2^31 - 1 for MipMapCount = -2^31, -2^31 + 1 and -2^31 + 2, where `totalMipCount - smallMipsInHeader` wraps, and close to 2^31 for the largest counts) and a supported format, the source's `List<long>` grows past what the runtime can allocate and throws `OutOfMemoryException`. The model has no memory bound and returns the whole offset list, so `IsAlreadyValidDdsFile` then answers instead of throwing. With an unsupported format the source and the model both throw NotSupported at the first mip.
- UnsplitterFiles.ParseNumber: `int.Parse` overflow on a mip number of more than nine digits is not modelled.
- FileCombiner.SearchFiles: `Directory.GetFiles` wildcard matching is modelled as a prefix test on the file name. The legacy 8.3 short-name matches and the file system's case sensitivity are left out.
- UnsplitterFiles.MatchesMipPattern: `\d` matches only ASCII digits here, while .NET regular expressions also accept other Unicode decimal digits.
- UnsplitterFiles.IsBaseName: `EndsWith(".dds")` without a comparison argument is culture-sensitive in .NET. It is modelled as an ordinal suffix test.
- Strings.ContainsIgnoreCase: `StringComparison.OrdinalIgnoreCase` (DDSUnsplitter.cs:94, DDSFileCombiner.cs:62) is modelled by lower-casing only 'A' to 'Z'. .NET also folds non-ASCII letters, so a name spelling "combined" with non-ASCII letters that fold to ASCII (such as the Kelvin sign) is kept by the model and dropped by the source.
- UnsplitterFiles.IsHeaderZeroName, UnsplitterFiles.IsGlossHeaderName, UnsplitterFiles.NotEndingInZero: `EndsWith(".dds.0")`, `EndsWith(".dds.a")` and `EndsWith(".0")` (DDSUnsplitter.cs:107, 113, 118) are culture-sensitive in .NET, like the `.dds` test. They are modelled as ordinal suffix tests.
- Strings.SortDescending: `OrderDescending()` uses the culture-sensitive default string comparer. It is modelled as ordinal order on characters.
- Strings.SortByKey: the stability of `OrderBy` (equal keys keep their listing order) is not stated. Only the permutation and the ascending keys are.
- DdsHeaderModel.Serialize: a FourCC is four ASCII characters (`FourCC`). The source's `char[]` may have any length and is written UTF-8 encoded, so a longer code or one with non-ASCII characters would make `Serialize` return more bytes; such codes are not modelled.
- HeaderDeserializer.Decode: the model covers only buffers whose FourCC bytes are ASCII (`FourCCIsAscii`). For other bytes, `ReadChars` would consume a different number of bytes under UTF-8 decoding. `Combine` and its lemmas ask this of the header file they decode (`DecodedFourCCAscii`) and of no other file; the fragments are copied, never decoded. The first four bytes are not constrained either. When they are not ASCII, the magic test's `ReadChars(4)` (DdsHeaderDeserializer.cs:48) decodes them as UTF-8. It can leave part of a multi-byte sequence in the reader's decoder after the position is rewound, and that changes how the FourCC is then decoded. The model reads the FourCC from its own four bytes, whatever comes before them.
- MipLayout.MipDimension: `Math.Pow` and the division in `double` precision are modelled as the exact quotient by 2^i truncated toward zero (`Quot`), as the cast to `int` truncates. That is exact for `int` dimensions.
- Paths.GetDirectoryName: only '/' is a separator. Windows drive roots, UNC paths and '\\' normalisation are left out. On Unix, .NET also collapses repeated separators in the result (`a//b/c.dds` gives `a/b`), which the model does not: it gives `a//b`, and the output path keeps the doubled separator.
- The `ArgumentNullException` for a null base name, and the one `ValidateHeaderContent` throws for a null buffer (DdsHeaderDeserializer.cs:90-93), are left out, because strings and buffers in the model are never null.
- MipLayout.DxgiCode: the numbers of the DXGI formats (49 for R8G8_UNORM, 61, 71, ...) follow Microsoft's DXGI_FORMAT numbering. The C# enum that defines them is not part of this model.
- Unsplitter.MipSlice: the 32-bit `int` wrap-around is not modelled for `cubeFace * mipMapByteCount` and `faceOffset + mipMapByteCount` (DDSUnsplitter.cs:364-365), nor for `postHeaderDataOffset + mipMapByteCount` (DDSUnsplitter.cs:374). The offsets are unbounded integers. They agree with the source whenever those products and sums stay below 2^31. When the sum at line 374 wraps, the negative sum passes the guard and `Stream.Write` throws `ArgumentException`; the model throws `InvalidOperation` there.
- Unsplitter.CombinedFile, Unsplitter.CombineFiles, Unsplitter.WriteHeaderBlock: the combined file is specified with the corrected header block, and `CombineFiles` and `WriteHeaderBlock` write that block. The as-written behaviour, which skips the header, is modelled separately (see Findings).

## Findings

| source | as written | input that shows it | evidently intended | confidence | as-written member | corrected member |
|---|---|---|---|---|---|---|
| DDSUnsplitter.Library/DDSUnsplitter.cs:321-332 | the header is written only if `Serialize()` returns at least 128 bytes, and then only its first 128 | any header with the 11 Reserved1 entries the decoder reads: `Serialize()` returns 80 + 44 = 124 bytes and no magic, so no header and no DX10 record are written | write the "DDS " magic, the 124 serialized bytes, and then the 20-byte DX10 record when there is one | not executed | Unsplitter.HeaderNeverWritten | Unsplitter.HeaderBlockDecodes |
