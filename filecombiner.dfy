/**
 * DDSFileCombiner.cs, the combiner the command line and the integration tests call: it keeps the first 128
 * bytes of the header file, appends the fragment files from the last listed to the second, each padded to a
 * multiple of four bytes, then the rest of the header file and the CryEngine end marker.
 *
 * The file system is a map from paths to contents; a directory listing is the sequence of paths
 * `Directory.GetFiles` enumerates, in its order.
 */
module FileCombiner {
  import opened Wrappers
  import opened Bytes
  import opened Exceptions
  import opened DdsConstants
  import opened DdsHeaderModel
  import opened HeaderDeserializer
  import opened MipLayout
  import opened Strings
  import opened Paths
  import opened Streams

  // ---------------------------------------------------------------------------
  // FindMatchingFiles

  /** `Directory.GetFiles(directory, name + "*")` over a listing of the directory: the paths whose file name
      starts with `name`, in the listing's order. */
  function SearchFiles(listing: seq<string>, name: string): (r: seq<string>)
    ensures forall x :: x in r <==> x in listing && StartsWith(GetFileName(x), name)
  {
    if listing == [] then []
    else (if StartsWith(GetFileName(listing[0]), name) then [listing[0]] else []) + SearchFiles(listing[1..], name)
  }

  /** The `RemoveAll` test's negation: the path does not hold "combined" in any letter case. */
  predicate NotCombinedName(file: string) {
    !ContainsIgnoreCase(file, CombinedIdentifier)
  }

  /** The files `FindMatchingFiles` returns. */
  function MatchingFiles(listing: seq<string>, name: string): seq<string> {
    Filter(SearchFiles(listing, name), NotCombinedName)
  }

  /** What `FindMatchingFiles(directory, name)` returns: `Directory.GetFiles` throws `ArgumentException` for an
      empty directory name (`Path.GetFullPath` rejects it) before it lists anything; otherwise `listing` is what
      the directory holds. */
  function Listed(directory: string, listing: seq<string>, name: string): Result<seq<string>, Exception> {
    if directory == "" then Failure(EmptyPath) else Success(MatchingFiles(listing, name))
  }

  /** `FindMatchingFiles`: the search, then `RemoveAll` of every path holding "combined". */
  method FindMatchingFiles(directory: string, listing: seq<string>, fileNameWithoutExtension: string)
    returns (r: Result<seq<string>, Exception>)
    ensures directory == "" <==> r.Failure?
    ensures r.Failure? ==> r.error == EmptyPath
    ensures r.Success? ==> r.value == MatchingFiles(listing, fileNameWithoutExtension)
  {
    if directory == "" {
      return Failure(EmptyPath);
    }
    var found := SearchFiles(listing, fileNameWithoutExtension);
    var matchingFiles := [];
    var i := 0;
    while i < |found|
      invariant 0 <= i <= |found|
      invariant matchingFiles == Filter(found[..i], NotCombinedName)
    {
      FilterStep(found, i, NotCombinedName);
      if NotCombinedName(found[i]) {
        matchingFiles := matchingFiles + [found[i]];
      }
      i := i + 1;
    }
    assert found[..i] == found;
    return Success(matchingFiles);
  }

  lemma FilterStep(s: seq<string>, i: nat, p: string -> bool)
    requires i < |s|
    ensures Filter(s[..i + 1], p) == Filter(s[..i], p) + (if p(s[i]) then [s[i]] else [])
  {
    assert s[..i + 1] == s[..i] + [s[i]];
    FilterAppend(s[..i], [s[i]], p);
  }

  /** A path is kept exactly when it matches the search and does not hold "combined", whatever its case. */
  lemma MatchingFilesIff(listing: seq<string>, name: string, x: string)
    ensures x in MatchingFiles(listing, name) <==>
      x in listing && StartsWith(GetFileName(x), name) && !ContainsIgnoreCase(x, CombinedIdentifier)
  {
  }

  /** The search and the removal keep the listing's order: the files of a listing split in two are those of
      the first part followed by those of the second. */
  lemma {:induction false} MatchingFilesKeepOrder(a: seq<string>, b: seq<string>, name: string)
    ensures MatchingFiles(a + b, name) == MatchingFiles(a, name) + MatchingFiles(b, name)
  {
    SearchFilesAppend(a, b, name);
    FilterAppend(SearchFiles(a, name), SearchFiles(b, name), NotCombinedName);
  }

  lemma {:induction false} SearchFilesAppend(a: seq<string>, b: seq<string>, name: string)
    ensures SearchFiles(a + b, name) == SearchFiles(a, name) + SearchFiles(b, name)
  {
    if a != [] {
      var head := if StartsWith(GetFileName(a[0]), name) then [a[0]] else [];
      assert (a + b)[0] == a[0] && (a + b)[1..] == a[1..] + b;
      assert SearchFiles(a + b, name) == head + SearchFiles(a[1..] + b, name);
      SearchFilesAppend(a[1..], b, name);
      assert SearchFiles(a, name) == head + SearchFiles(a[1..], name);
    } else {
      assert a + b == b;
    }
  }

  // ---------------------------------------------------------------------------
  // ProcessHeaderFile

  /** The header file's contents and the bytes after its first 128. */
  function HeaderSplit(headerFile: string, fs: map<string, seq<byte>>): (r: Result<(seq<byte>, seq<byte>), Exception>)
    ensures r.Success? <==> headerFile in fs && |fs[headerFile]| >= DdsHeaderSize
    ensures r.Success? ==> r.value.0 == fs[headerFile] && r.value.0[..DdsHeaderSize] + r.value.1 == r.value.0
  {
    if headerFile !in fs then Failure(FileNotFound(headerFile))
    else if |fs[headerFile]| < DdsHeaderSize then Failure(Overflow)
    else Success((fs[headerFile], fs[headerFile][DdsHeaderSize..]))
  }

  /** `File.OpenRead` throws for a missing file, and `new byte[Length - 128]` for a file under 128 bytes. */
  lemma HeaderSplitFails(headerFile: string, fs: map<string, seq<byte>>)
    ensures headerFile !in fs ==> HeaderSplit(headerFile, fs) == Failure(FileNotFound(headerFile))
    ensures headerFile in fs && |fs[headerFile]| < DdsHeaderSize ==> HeaderSplit(headerFile, fs) == Failure(Overflow)
  {
  }

  /** `ProcessHeaderFile`: reads the file, then copies what follows the header into a new buffer. */
  method ProcessHeaderFile(headerFile: string, fs: map<string, seq<byte>>)
    returns (r: Result<(seq<byte>, seq<byte>), Exception>)
    ensures r == HeaderSplit(headerFile, fs)
  {
    if headerFile !in fs {
      return Failure(FileNotFound(headerFile));
    }
    var headerContent := fs[headerFile];
    if |headerContent| - DdsHeaderSize < 0 {
      return Failure(Overflow);
    }
    var postHeaderData := new byte[|headerContent| - DdsHeaderSize];
    var k := 0;
    while k < postHeaderData.Length
      invariant 0 <= k <= postHeaderData.Length
      invariant postHeaderData[..k] == headerContent[DdsHeaderSize..DdsHeaderSize + k]
    {
      postHeaderData[k] := headerContent[DdsHeaderSize + k];
      k := k + 1;
    }
    assert postHeaderData[..] == postHeaderData[..k];
    assert headerContent[DdsHeaderSize..DdsHeaderSize + k] == headerContent[DdsHeaderSize..];
    return Success((headerContent, postHeaderData[..]));
  }

  // ---------------------------------------------------------------------------
  // IsAlreadyValidDDSFile

  /** `Width * Height * PixelFormat.Size / 8`: the product of the two `int`s wraps to 32 bits, is widened, with
      its sign, to `long` for the product with the `uint`, and the division truncates. */
  function EstimatedMipBytes(header: DdsHeader): int {
    Quot(Wrap32(header.width * header.height) * header.pixelFormat.size, 8)
  }

  /** `IsAlreadyValidDDSFile`: whether the file is longer than its contents plus the estimate. */
  function IsAlreadyValidDdsFile(headerContent: seq<byte>, fileSize: int): (r: Result<bool, Exception>)
    requires FourCCIsAscii(headerContent)
    ensures r.Failure? <==> |headerContent| < DdsHeaderSize
    ensures r.Failure? ==> r.error == HeaderTooShort(|headerContent|)
  {
    DecodeFailsIffShort(headerContent);
    match Decode(headerContent)
    case Failure(ArgumentException(length)) => Failure(HeaderTooShort(length))
    case Success((header, _)) => Success(fileSize > |headerContent| + EstimatedMipBytes(header))
  }

  /** The file size is the length of the same file, so the test holds only when the estimate is negative, that
      is when the wrapped product of the dimensions times the pixel format size is -8 or less. */
  lemma AlreadyValidIffNegative(headerContent: seq<byte>)
    requires FourCCIsAscii(headerContent) && |headerContent| >= DdsHeaderSize
    ensures Decode(headerContent).Success?
    ensures var header := Decode(headerContent).value.0;
      IsAlreadyValidDdsFile(headerContent, |headerContent|)
        == Success(Wrap32(header.width * header.height) * header.pixelFormat.size <= -8)
  {
    var header := Decode(headerContent).value.0;
    var x := Wrap32(header.width * header.height) * header.pixelFormat.size;
    if x < 0 {
      assert Quot(x, 8) < 0 <==> -x >= 8;
    }
  }

  // ---------------------------------------------------------------------------
  // WriteMipMapWithAlignment

  /** A fragment followed by the zero bytes that bring it to a multiple of four. */
  function Pad4(b: seq<byte>): (r: seq<byte>)
    ensures |r| % 4 == 0 && |b| <= |r| < |b| + 4
    ensures r[..|b|] == b && forall k | |b| <= k < |r| :: r[k] == 0
  {
    var remainder := |b| % 4;
    if remainder > 0 then b + Zeros(4 - remainder) else b
  }

  /** The padded length is the alignment `CalculateMipmapOffsets` of DDSUnsplitter.cs applies. */
  lemma Pad4Aligns(b: seq<byte>)
    ensures |Pad4(b)| == Align4(|b|)
  {
  }

  /** Padding is idempotent: a padded chunk needs no more padding. */
  lemma Pad4Idempotent(b: seq<byte>)
    ensures Pad4(Pad4(b)) == Pad4(b)
  {
  }

  /** What one call appends: the padded fragment, or the exception for a fragment that is not a file. */
  function Chunk(mipmapFile: string, fs: map<string, seq<byte>>): Result<seq<byte>, Exception> {
    if mipmapFile !in fs then Failure(FileNotFound(mipmapFile)) else Success(Pad4(fs[mipmapFile]))
  }

  /** `WriteMipMapWithAlignment`: copies the fragment, then the padding; `None` when nothing was thrown. */
  method WriteMipMapWithAlignment(outputStream: OutputStream, mipmapFile: string, fs: map<string, seq<byte>>)
    returns (thrown: Option<Exception>)
    modifies outputStream
    ensures thrown == (if mipmapFile in fs then None else Some(Chunk(mipmapFile, fs).error))
    ensures outputStream.data == old(outputStream.data) + (if mipmapFile in fs then Chunk(mipmapFile, fs).value else [])
  {
    if mipmapFile !in fs {
      return Some(FileNotFound(mipmapFile));
    }
    var mipmapStream := fs[mipmapFile];
    outputStream.Write(mipmapStream);
    var remainder := |mipmapStream| % 4;
    if remainder > 0 {
      var padding := new byte[4 - remainder](_ => 0);
      outputStream.WriteRange(padding[..], 0, padding.Length);
      assert padding[..] == Zeros(4 - remainder);
    }
    return None;
  }

  // ---------------------------------------------------------------------------
  // CombineFiles

  /** The chunks of `names[lo..hi)`, the highest index first; the first fragment found missing, counting down,
      throws. */
  function ChunksBetween(names: seq<string>, fs: map<string, seq<byte>>, lo: nat, hi: nat): Result<seq<byte>, Exception>
    requires hi <= |names|
    decreases hi - lo
  {
    if lo >= hi then Success([])
    else
      var rest :- ChunksBetween(names, fs, lo + 1, hi);
      var chunk :- Chunk(names[lo], fs);
      Success(rest + chunk)
  }

  /** The file `CombineFiles` writes: the first 128 header bytes, the fragments from the last listed down to
      the second, the post-header data and the end marker. */
  function CombinedOutput(headerContent: seq<byte>, postHeaderData: seq<byte>, matchingFiles: seq<string>,
    fs: map<string, seq<byte>>): Result<seq<byte>, Exception>
    requires |headerContent| >= DdsHeaderSize
  {
    var chunks :- ChunksBetween(matchingFiles, fs, 1, |matchingFiles|);
    Success(headerContent[..DdsHeaderSize] + chunks + postHeaderData + EndMarker)
  }

  /** `CombineFiles`: the bytes written to the output file, or the exception that stops it. */
  method CombineFiles(headerContent: seq<byte>, postHeaderData: seq<byte>, matchingFiles: seq<string>,
    fs: map<string, seq<byte>>) returns (r: Result<seq<byte>, Exception>)
    requires |headerContent| >= DdsHeaderSize
    ensures r == CombinedOutput(headerContent, postHeaderData, matchingFiles, fs)
  {
    var outputStream := new OutputStream();
    outputStream.WriteRange(headerContent, 0, DdsHeaderSize);
    var i := |matchingFiles| - 1;
    while i > 0
      invariant -1 <= i < |matchingFiles| && (i == -1 ==> matchingFiles == [])
      invariant ChunksBetween(matchingFiles, fs, i + 1, |matchingFiles|).Success?
      invariant outputStream.data
        == headerContent[..DdsHeaderSize] + ChunksBetween(matchingFiles, fs, i + 1, |matchingFiles|).value
    {
      var thrown := WriteMipMapWithAlignment(outputStream, matchingFiles[i], fs);
      if thrown.Some? {
        ChunksFailBelow(matchingFiles, fs, 1, i, |matchingFiles|);
        return Failure(thrown.value);
      }
      i := i - 1;
    }
    outputStream.Write(postHeaderData);
    outputStream.Write(EndMarker);
    return Success(outputStream.data);
  }

  /** Once the fragments from `mid` up fail, so do those from any lower index, with the same exception. */
  lemma {:induction false} ChunksFailBelow(names: seq<string>, fs: map<string, seq<byte>>, lo: nat, mid: nat, hi: nat)
    requires lo <= mid <= hi <= |names|
    requires ChunksBetween(names, fs, mid, hi).Failure?
    ensures ChunksBetween(names, fs, lo, hi) == ChunksBetween(names, fs, mid, hi)
    decreases mid - lo
  {
    if lo < mid {
      ChunksFailBelow(names, fs, lo + 1, mid, hi);
    }
  }

  // ---------------------------------------------------------------------------
  // Properties of the combined file

  /** The sum of the padded lengths of the fragments `names[lo..hi)` that are files. */
  function PaddedLength(names: seq<string>, fs: map<string, seq<byte>>, lo: nat, hi: nat): int
    requires hi <= |names|
    decreases hi - lo
  {
    if lo >= hi then 0
    else PaddedLength(names, fs, lo + 1, hi) + (if names[lo] in fs then Align4(|fs[names[lo]]|) else 0)
  }

  /** The fragments are written exactly when all of them are files; then they take their padded lengths; else
      the exception names the missing fragment with the highest index. */
  lemma {:induction false} ChunksContent(names: seq<string>, fs: map<string, seq<byte>>, lo: nat, hi: nat)
    requires hi <= |names|
    ensures ChunksBetween(names, fs, lo, hi).Success? <==> forall k | lo <= k < hi :: names[k] in fs
    ensures ChunksBetween(names, fs, lo, hi).Success? ==>
      |ChunksBetween(names, fs, lo, hi).value| == PaddedLength(names, fs, lo, hi)
    ensures ChunksBetween(names, fs, lo, hi).Failure? ==>
      exists k | lo <= k < hi :: names[k] !in fs && ChunksBetween(names, fs, lo, hi).error == FileNotFound(names[k])
        && forall j | k < j < hi :: names[j] in fs
  {
    ChunksSucceedIff(names, fs, lo, hi);
    if ChunksBetween(names, fs, lo, hi).Success? {
      ChunksLength(names, fs, lo, hi);
    } else {
      ChunksFailure(names, fs, lo, hi);
    }
  }

  lemma {:induction false} ChunksSucceedIff(names: seq<string>, fs: map<string, seq<byte>>, lo: nat, hi: nat)
    requires hi <= |names|
    ensures ChunksBetween(names, fs, lo, hi).Success? <==> forall k | lo <= k < hi :: names[k] in fs
    decreases hi - lo
  {
    if lo < hi {
      ChunksSucceedIff(names, fs, lo + 1, hi);
    }
  }

  lemma {:induction false} ChunksLength(names: seq<string>, fs: map<string, seq<byte>>, lo: nat, hi: nat)
    requires hi <= |names| && ChunksBetween(names, fs, lo, hi).Success?
    ensures |ChunksBetween(names, fs, lo, hi).value| == PaddedLength(names, fs, lo, hi)
    decreases hi - lo
  {
    if lo < hi {
      ChunksLength(names, fs, lo + 1, hi);
      Pad4Aligns(fs[names[lo]]);
    }
  }

  lemma {:induction false} ChunksFailure(names: seq<string>, fs: map<string, seq<byte>>, lo: nat, hi: nat)
    requires hi <= |names| && ChunksBetween(names, fs, lo, hi).Failure?
    ensures exists k | lo <= k < hi ::
      names[k] !in fs && ChunksBetween(names, fs, lo, hi).error == FileNotFound(names[k])
      && forall j | k < j < hi :: names[j] in fs
    decreases hi - lo
  {
    if ChunksBetween(names, fs, lo + 1, hi).Failure? {
      ChunksFailure(names, fs, lo + 1, hi);
    } else {
      ChunksSucceedIff(names, fs, lo + 1, hi);
      assert names[lo] !in fs;
    }
  }

  /** The fragments in reverse order: for any split point, those above it come before those below it. */
  lemma {:induction false} ChunksSplit(names: seq<string>, fs: map<string, seq<byte>>, lo: nat, mid: nat, hi: nat)
    requires lo <= mid <= hi <= |names|
    requires ChunksBetween(names, fs, lo, hi).Success?
    ensures ChunksBetween(names, fs, mid, hi).Success? && ChunksBetween(names, fs, lo, mid).Success?
    ensures ChunksBetween(names, fs, lo, hi).value
      == ChunksBetween(names, fs, mid, hi).value + ChunksBetween(names, fs, lo, mid).value
    decreases mid - lo
  {
    if lo < mid {
      ChunksSplit(names, fs, lo + 1, mid, hi);
      var upper := ChunksBetween(names, fs, mid, hi).value;
      var middle := ChunksBetween(names, fs, lo + 1, mid).value;
      var chunk := Chunk(names[lo], fs).value;
      assert ChunksBetween(names, fs, lo, hi).value == upper + middle + chunk;
      assert ChunksBetween(names, fs, lo, mid).value == middle + chunk;
    }
  }

  /** Only the names from `lo` up are read. */
  lemma {:induction false} ChunksReadFrom(names: seq<string>, others: seq<string>, fs: map<string, seq<byte>>,
    lo: nat, hi: nat)
    requires hi <= |names| == |others|
    requires forall k | lo <= k < hi :: names[k] == others[k]
    ensures ChunksBetween(names, fs, lo, hi) == ChunksBetween(others, fs, lo, hi)
    decreases hi - lo
  {
    if lo < hi {
      ChunksReadFrom(names, others, fs, lo + 1, hi);
    }
  }

  /** The header file, listed first, is never written as a fragment. */
  lemma FirstFileNotAFragment(headerContent: seq<byte>, postHeaderData: seq<byte>, first: string, other: string,
    rest: seq<string>, fs: map<string, seq<byte>>)
    requires |headerContent| >= DdsHeaderSize
    ensures CombinedOutput(headerContent, postHeaderData, [first] + rest, fs)
      == CombinedOutput(headerContent, postHeaderData, [other] + rest, fs)
  {
    ChunksReadFrom([first] + rest, [other] + rest, fs, 1, |rest| + 1);
  }

  /** The combined file starts with the header's first 128 bytes, ends with the post-header data and the end
      marker "CExtCEnd", and is as long as those and the padded fragments together. */
  lemma CombinedOutputShape(headerContent: seq<byte>, postHeaderData: seq<byte>, matchingFiles: seq<string>,
    fs: map<string, seq<byte>>)
    requires |headerContent| >= DdsHeaderSize
    requires CombinedOutput(headerContent, postHeaderData, matchingFiles, fs).Success?
    ensures var out := CombinedOutput(headerContent, postHeaderData, matchingFiles, fs).value;
      |out| == DdsHeaderSize + PaddedLength(matchingFiles, fs, 1, |matchingFiles|) + |postHeaderData| + EndMarkerSize &&
      out[..DdsHeaderSize] == headerContent[..DdsHeaderSize] &&
      out[|out| - EndMarkerSize - |postHeaderData|..|out| - EndMarkerSize] == postHeaderData &&
      out[|out| - EndMarkerSize..] == AsciiEncode("CExtCEnd")
  {
    ChunksContent(matchingFiles, fs, 1, |matchingFiles|);
    EndMarkerBytes();
    var chunks := ChunksBetween(matchingFiles, fs, 1, |matchingFiles|).value;
    var out := headerContent[..DdsHeaderSize] + chunks + postHeaderData + EndMarker;
    assert out[|out| - EndMarkerSize - |postHeaderData|..|out| - EndMarkerSize] == postHeaderData;
    assert out[|out| - EndMarkerSize..] == EndMarker;
  }

  /** Written after a split by `ProcessHeaderFile`, the combined file is the header file with the fragments
      inserted after its first 128 bytes, and the end marker appended. */
  lemma CombinedOutputInsertsFragments(headerFile: string, matchingFiles: seq<string>, fs: map<string, seq<byte>>)
    requires HeaderSplit(headerFile, fs).Success?
    requires ChunksBetween(matchingFiles, fs, 1, |matchingFiles|).Success?
    ensures var (headerContent, postHeaderData) := HeaderSplit(headerFile, fs).value;
      CombinedOutput(headerContent, postHeaderData, matchingFiles, fs)
        == Success(fs[headerFile][..DdsHeaderSize] + ChunksBetween(matchingFiles, fs, 1, |matchingFiles|).value
                   + fs[headerFile][DdsHeaderSize..] + EndMarker)
  {
  }

  // ---------------------------------------------------------------------------
  // Combine

  /** The file `Combine` decodes, the first one matching the base name, has ASCII FourCC bytes, which the
      decoder is modelled for. The fragments and the other files may hold any bytes. */
  predicate DecodedFourCCAscii(baseFileName: string, listing: seq<string>, fs: map<string, seq<byte>>) {
    var prepared := PrepareFileInfo(baseFileName);
    var matchingFiles := if prepared.Success? && prepared.value.0 != "" then MatchingFiles(listing, prepared.value.1) else [];
    |matchingFiles| > 0 && matchingFiles[0] in fs ==> FourCCIsAscii(fs[matchingFiles[0]])
  }

  /** `Combine`: the returned path and the files after the call. */
  function CombineOutcome(baseFileName: string, useSafeName: bool, combinedFileNameIdentifier: string,
    listing: seq<string>, fs: map<string, seq<byte>>): Result<(string, map<string, seq<byte>>), Exception>
    requires DecodedFourCCAscii(baseFileName, listing, fs)
  {
    var prepared :- PrepareFileInfo(baseFileName);
    var matchingFiles :- Listed(prepared.0, listing, prepared.1);
    if |matchingFiles| == 0 then Failure(ArgumentOutOfRange)
    else
      var headerFile := matchingFiles[0];
      var split :- HeaderSplit(headerFile, fs);
      var alreadyValid := IsAlreadyValidDdsFile(split.0, |fs[headerFile]|).value;
      if alreadyValid then Success((headerFile, fs))
      else
        var outputPath := CreateOutputPath(prepared.0, prepared.1, useSafeName, combinedFileNameIdentifier);
        var written :- CombinedOutput(split.0, split.1, matchingFiles, fs);
        Success((outputPath, fs[outputPath := written]))
  }

  /** `DDSFileCombiner.Combine`. */
  method Combine(baseFileName: string, useSafeName: bool, combinedFileNameIdentifier: string,
    listing: seq<string>, fs: map<string, seq<byte>>) returns (r: Result<(string, map<string, seq<byte>>), Exception>)
    requires DecodedFourCCAscii(baseFileName, listing, fs)
    ensures r == CombineOutcome(baseFileName, useSafeName, combinedFileNameIdentifier, listing, fs)
  {
    var prepared := PrepareFileInfo(baseFileName);
    if prepared.Failure? {
      return Failure(prepared.error);
    }
    var (directory, fileNameWithoutExtension) := prepared.value;
    var found := FindMatchingFiles(directory, listing, fileNameWithoutExtension);
    if found.Failure? {
      return Failure(found.error);
    }
    var matchingFiles := found.value;
    if |matchingFiles| == 0 {
      return Failure(ArgumentOutOfRange);
    }
    var headerFile := matchingFiles[0];
    var processed := ProcessHeaderFile(headerFile, fs);
    if processed.Failure? {
      return Failure(processed.error);
    }
    var (headerContent, postHeaderData) := processed.value;
    var alreadyValid := IsAlreadyValidDdsFile(headerContent, |fs[headerFile]|).value;
    if alreadyValid {
      return Success((headerFile, fs));
    }
    var outputPath := CreateOutputPath(directory, fileNameWithoutExtension, useSafeName, combinedFileNameIdentifier);
    var written := CombineFiles(headerContent, postHeaderData, matchingFiles, fs);
    if written.Failure? {
      return Failure(written.error);
    }
    return Success((outputPath, fs[outputPath := written.value]));
  }

  /** The exceptions `Combine` throws before it reads a fragment: a base name without directory name ("" or
      the root), an empty directory name (a bare file name), no matching file, and a header file that is missing
      or shorter than 128 bytes. */
  lemma CombineFailsEarly(baseFileName: string, useSafeName: bool, combinedFileNameIdentifier: string,
    listing: seq<string>, fs: map<string, seq<byte>>)
    requires DecodedFourCCAscii(baseFileName, listing, fs)
    ensures baseFileName == "" || baseFileName == [Separator] ==>
      CombineOutcome(baseFileName, useSafeName, combinedFileNameIdentifier, listing, fs) == Failure(DirectoryNotFound)
    ensures PrepareFileInfo(baseFileName).Success? && PrepareFileInfo(baseFileName).value.0 == "" ==>
      CombineOutcome(baseFileName, useSafeName, combinedFileNameIdentifier, listing, fs) == Failure(EmptyPath)
    ensures (PrepareFileInfo(baseFileName).Success? && PrepareFileInfo(baseFileName).value.0 != "" &&
      MatchingFiles(listing, PrepareFileInfo(baseFileName).value.1) == []) ==>
      CombineOutcome(baseFileName, useSafeName, combinedFileNameIdentifier, listing, fs) == Failure(ArgumentOutOfRange)
    ensures (PrepareFileInfo(baseFileName).Success? && PrepareFileInfo(baseFileName).value.0 != "" &&
      MatchingFiles(listing, PrepareFileInfo(baseFileName).value.1) != [] &&
      HeaderSplit(MatchingFiles(listing, PrepareFileInfo(baseFileName).value.1)[0], fs).Failure?) ==>
      CombineOutcome(baseFileName, useSafeName, combinedFileNameIdentifier, listing, fs)
        == Failure(HeaderSplit(MatchingFiles(listing, PrepareFileInfo(baseFileName).value.1)[0], fs).error)
  {
    PrepareFileInfoFailsIffNoDirectory(baseFileName);
  }

  /** A file name without a directory part, as in the usage example "texture.dds", has the directory name "",
      which `Directory.GetFiles` rejects: `Combine` throws whatever the directory holds. */
  lemma BareFileNameThrows(baseFileName: string, useSafeName: bool, combinedFileNameIdentifier: string,
    listing: seq<string>, fs: map<string, seq<byte>>)
    requires baseFileName != [] && NoSeparator(baseFileName)
    ensures DecodedFourCCAscii(baseFileName, listing, fs)
    ensures CombineOutcome(baseFileName, useSafeName, combinedFileNameIdentifier, listing, fs) == Failure(EmptyPath)
  {
    BareNameHasEmptyDirectory(baseFileName);
    var name := PrepareFileInfo(baseFileName).value.1;
    assert PrepareFileInfo(baseFileName) == Success(("", name));
    assert Listed("", listing, name) == Failure(EmptyPath);
  }

  /** Once the header file is read: when it counts as already valid, `Combine` returns its path and writes
      nothing; otherwise it writes the output path, and only it, with the header file's fragments inserted after
      its first 128 bytes and the end marker appended, or throws for the missing fragment. All of this needs a
      directory name that is not empty. */
  lemma CombineWrites(baseFileName: string, useSafeName: bool, combinedFileNameIdentifier: string,
    listing: seq<string>, fs: map<string, seq<byte>>, directory: string, name: string, headerFile: string)
    requires PrepareFileInfo(baseFileName) == Success((directory, name))
    requires |MatchingFiles(listing, name)| > 0 && headerFile == MatchingFiles(listing, name)[0]
    requires HeaderSplit(headerFile, fs).Success? && FourCCIsAscii(fs[headerFile])
    ensures directory == "" ==>
      CombineOutcome(baseFileName, useSafeName, combinedFileNameIdentifier, listing, fs) == Failure(EmptyPath)
    ensures var headerContent := fs[headerFile];
      var outcome := CombineOutcome(baseFileName, useSafeName, combinedFileNameIdentifier, listing, fs);
      directory != "" ==>
      (IsAlreadyValidDdsFile(headerContent, |headerContent|).value ==> outcome == Success((headerFile, fs))) &&
      (!IsAlreadyValidDdsFile(headerContent, |headerContent|).value ==>
        var matchingFiles := MatchingFiles(listing, name);
        var chunks := ChunksBetween(matchingFiles, fs, 1, |matchingFiles|);
        var outputPath := CreateOutputPath(directory, name, useSafeName, combinedFileNameIdentifier);
        outcome == if chunks.Failure? then Failure(chunks.error)
          else Success((outputPath, fs[outputPath := headerContent[..DdsHeaderSize] + chunks.value
                                                     + headerContent[DdsHeaderSize..] + EndMarker])))
  {
    var matchingFiles := MatchingFiles(listing, name);
    var chunks := ChunksBetween(matchingFiles, fs, 1, |matchingFiles|);
    if chunks.Success? {
      CombinedOutputInsertsFragments(headerFile, matchingFiles, fs);
    }
  }

  /** For a header whose dimensions multiply to a non-negative `int`, `Combine` never takes the file for an
      already valid one: when it succeeds, it returns the output path. */
  lemma CombineWritesUnlessWrapped(baseFileName: string, useSafeName: bool, combinedFileNameIdentifier: string,
    listing: seq<string>, fs: map<string, seq<byte>>, directory: string, name: string, headerFile: string)
    requires PrepareFileInfo(baseFileName) == Success((directory, name))
    requires |MatchingFiles(listing, name)| > 0 && headerFile == MatchingFiles(listing, name)[0]
    requires HeaderSplit(headerFile, fs).Success? && FourCCIsAscii(fs[headerFile])
    requires var header := Decode(fs[headerFile]).value.0; Wrap32(header.width * header.height) >= 0
    ensures var outcome := CombineOutcome(baseFileName, useSafeName, combinedFileNameIdentifier, listing, fs);
      outcome.Success? ==> outcome.value.0 == CreateOutputPath(directory, name, useSafeName, combinedFileNameIdentifier)
  {
    var headerContent := fs[headerFile];
    var header := Decode(headerContent).value.0;
    AlreadyValidIffNegative(headerContent);
    NonNegativeProduct(Wrap32(header.width * header.height), header.pixelFormat.size);
    assert !IsAlreadyValidDdsFile(headerContent, |headerContent|).value;
    CombineWrites(baseFileName, useSafeName, combinedFileNameIdentifier, listing, fs, directory, name, headerFile);
  }

  lemma NonNegativeProduct(x: int, y: int)
    requires x >= 0 && y >= 0
    ensures x * y >= 0
  {
  }
}
