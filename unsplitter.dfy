/**
 * The reassembly of DDSUnsplitter.cs: `CombineFiles` writes the header, then for each cube face every mip
 * level, taking the large levels from the fragment files and the small ones from the data that follows the
 * header, then the CryEngine end marker.
 */
module Unsplitter {
  import opened Wrappers
  import opened Bytes
  import opened Exceptions
  import opened DdsConstants
  import opened DdsHeaderModel
  import opened HeaderDeserializer
  import opened MipLayout
  import opened Strings
  import opened Streams

  // ---------------------------------------------------------------------------
  // The header block

  /** The header bytes `CombineFiles` writes as the code stands: the first 128 bytes of `Serialize()`, and then
      the DX10 record, but only when `Serialize()` returns at least 128 bytes. */
  function HeaderBlockAsWritten(info: HeaderInfo): seq<byte> {
    var serializedHeader := EncodeHeader(info.header);
    if |serializedHeader| >= DdsHeaderSize then
      serializedHeader[..DdsHeaderSize] + (if info.dxt10Header.Some? then EncodeDxt10(info.dxt10Header.value) else [])
    else []
  }

  /** `Serialize()` returns 80 + 4 * |Reserved1| bytes and no magic, so for the 11 entries the decoder produces
      (or fewer) the combined file gets no header at all. */
  lemma HeaderNeverWritten(info: HeaderInfo)
    requires |info.header.reserved1| <= Reserved1Size
    ensures |EncodeHeader(info.header)| == 80 + 4 * |info.header.reserved1| < DdsHeaderSize
    ensures HeaderBlockAsWritten(info) == []
  {
  }

  /** The header block a DDS file needs: the "DDS " magic, the 124-byte header, and the DX10 record when
      there is one. */
  function HeaderBlock(info: HeaderInfo): seq<byte> {
    DdsMagicBytes + EncodeHeader(info.header) + (if info.dxt10Header.Some? then EncodeDxt10(info.dxt10Header.value) else [])
  }

  /** The block is as long as the offset at which `CalculateMipmapOffsets` places the post-header data. */
  lemma HeaderBlockLength(info: HeaderInfo)
    requires |info.header.reserved1| == Reserved1Size
    ensures |HeaderBlock(info)| == DdsHeaderSize + (if info.dxt10Header.Some? then Dxt10HeaderSize else 0)
  {
  }

  /** Whatever follows it, the header block decodes to the header and DX10 record it was made from, when the
      record is present exactly if the FourCC says "DX10" (as the decoder produces them). */
  lemma HeaderBlockDecodes(info: HeaderInfo, rest: seq<byte>)
    requires |info.header.reserved1| == Reserved1Size
    requires info.dxt10Header.Some? <==> IsDxt10Format(info.header)
    ensures FourCCIsAscii(HeaderBlock(info) + rest)
    ensures Decode(HeaderBlock(info) + rest) == Success((info.header, info.dxt10Header))
  {
    if info.dxt10Header.Some? {
      var d := info.dxt10Header.value;
      assert HeaderBlock(info) + rest == DdsMagicBytes + EncodeHeader(info.header) + EncodeDxt10(d) + rest;
      SerializeRoundTripDxt10(info.header, d, rest);
    } else {
      assert HeaderBlock(info) + rest == DdsMagicBytes + EncodeHeader(info.header) + rest;
      SerializeRoundTripPayload(info.header, rest);
    }
  }

  // ---------------------------------------------------------------------------
  // The faces and mips, as a function of the inputs

  /** The bytes written so far after the header, and `postHeaderDataOffset`. */
  datatype Progress = Progress(output: seq<byte>, postOffset: nat)

  predicate IsCubeMap(info: HeaderInfo) {
    HasFlag(info.header.caps2, Caps2Cubemap)
  }

  function FaceCount(info: HeaderInfo): nat {
    if IsCubeMap(info) then 6 else 1
  }

  /** The iterations of the inner loop: `MipMapCount`, none when it is negative. */
  function MipCount(info: HeaderInfo): nat {
    if info.header.mipMapCount < 0 then 0 else info.header.mipMapCount
  }

  /** `CalculateMipSize` of the dimensions `GetMipMapSizes` gives level `mip`. */
  function MipByteCount(info: HeaderInfo, mip: nat): Result<int, Exception> {
    CalculateMipSize(MipDimension(info.header.width, mip), MipDimension(info.header.height, mip), info)
  }

  /** What the loops of `CombineFiles` read: the size of every level (or why it has none), whether the texture
      is a cube map, the fragments' contents (level `i` in `fragments[i]`), and the post-header data. */
  datatype Levels = Levels(sizes: seq<Result<int, Exception>>, isCubeMap: bool, fragments: seq<seq<byte>>,
    postHeaderData: Option<seq<byte>>)

  function LevelsOf(info: HeaderInfo, fragments: seq<seq<byte>>): Levels {
    Levels(seq(MipCount(info), i requires 0 <= i < MipCount(info) => MipByteCount(info, i)), IsCubeMap(info),
      fragments, info.postHeaderData)
  }

  /** Where face `face` of a level of `n` bytes starts in its fragment. */
  function FaceOffset(l: Levels, face: nat, n: int): int {
    if l.isCubeMap then face * n else 0
  }

  /** One pass of the inner loop, once the level is `n` bytes: a slice of the level's fragment, or the next `n`
      bytes of the post-header data. `Stream.Write` rejects a negative offset or count. */
  function MipSlice(l: Levels, face: nat, mip: nat, n: int, p: Progress): Result<Progress, Exception> {
    if mip < |l.fragments| then
      var faceOffset := FaceOffset(l, face, n);
      if faceOffset + n <= |l.fragments[mip]| then
        if faceOffset < 0 || n < 0 then Failure(ArgumentOutOfRange)
        else Success(Progress(p.output + l.fragments[mip][faceOffset..faceOffset + n], p.postOffset))
      else Failure(InvalidOperation)
    else if l.postHeaderData.Some? && p.postOffset + n <= |l.postHeaderData.value| then
      if n < 0 then Failure(ArgumentOutOfRange)
      else Success(Progress(p.output + l.postHeaderData.value[p.postOffset..p.postOffset + n], p.postOffset + n))
    else Failure(InvalidOperation)
  }

  function MipStep(l: Levels, face: nat, mip: nat, p: Progress): Result<Progress, Exception>
    requires mip < |l.sizes|
  {
    var n :- l.sizes[mip];
    MipSlice(l, face, mip, n, p)
  }

  /** Levels `0 .. count-1` of one face, from `start`. */
  function AssembleMips(l: Levels, face: nat, count: nat, start: Progress): Result<Progress, Exception>
    requires count <= |l.sizes|
  {
    if count == 0 then Success(start)
    else
      var p :- AssembleMips(l, face, count - 1, start);
      MipStep(l, face, count - 1, p)
  }

  /** Faces `0 .. faces-1`, each with all its levels. */
  function AssembleFaces(l: Levels, faces: nat): Result<Progress, Exception> {
    if faces == 0 then Success(Progress([], 0))
    else
      var p :- AssembleFaces(l, faces - 1);
      AssembleMips(l, faces - 1, |l.sizes|, p)
  }

  /** The fragments' contents, in the order given; the first name that is not a file throws. */
  function ReadFragments(names: seq<string>, fs: map<string, seq<byte>>): (r: Result<seq<seq<byte>>, Exception>)
    ensures r.Success? <==> forall k | 0 <= k < |names| :: names[k] in fs
    ensures r.Success? ==> |r.value| == |names| && forall k | 0 <= k < |names| :: r.value[k] == fs[names[k]]
    ensures r.Failure? ==> r.error.FileNotFound? && r.error.path in names && r.error.path !in fs
  {
    if names == [] then Success([])
    else if names[0] !in fs then Failure(FileNotFound(names[0]))
    else
      var rest :- ReadFragments(names[1..], fs);
      Success([fs[names[0]]] + rest)
  }

  /** The file `CombineFiles` writes (with the header block corrected), given the contents of the files. */
  function CombinedFile(info: HeaderInfo, mipmapFiles: seq<string>, fs: map<string, seq<byte>>)
    : Result<seq<byte>, Exception>
  {
    if info.header.mipMapCount < 0 then Failure(Overflow)
    else
      var fragments :- ReadFragments(SortDescending(mipmapFiles), fs);
      var body :- AssembleFaces(LevelsOf(info, fragments), FaceCount(info));
      Success(HeaderBlock(info) + body.output + EndMarker)
  }

  /** Ordinal order ranks a name ending in "9" above the same name ending in "10". */
  lemma {:induction false} NineAboveTen(p: string)
    ensures !LexLe(p + "9", p + "10")
  {
    if p != [] {
      assert (p + "9")[1..] == p[1..] + "9";
      assert (p + "10")[1..] == p[1..] + "10";
      NineAboveTen(p[1..]);
    }
  }

  /** The descending name order is the mip order only up to nine fragments: `name.dds.9` comes before
      `name.dds.10`, so it is read as the lower (larger) mip level. */
  lemma NinthFragmentBeforeTenth(base: string, mipmapFiles: seq<string>)
    ensures var sorted := SortDescending(mipmapFiles);
      forall i, j | 0 <= i < |sorted| && 0 <= j < |sorted| && sorted[i] == base + ".dds.9" && sorted[j] == base + ".dds.10"
        :: i < j
  {
    var p := base + ".dds.";
    assert base + ".dds.9" == p + "9" && base + ".dds.10" == p + "10";
    assert |p + "9"| != |p + "10"|;
    NineAboveTen(p);
    RankedAbove(SortDescending(mipmapFiles), p + "9", p + "10");
  }

  /** In a descending list, a name that does not sort below another comes before it. */
  lemma RankedAbove(sorted: seq<string>, a: string, b: string)
    requires SortedDescending(sorted) && a != b && !LexLe(a, b)
    ensures forall i, j | 0 <= i < |sorted| && 0 <= j < |sorted| && sorted[i] == a && sorted[j] == b :: i < j
  {
  }


  // ---------------------------------------------------------------------------
  // CombineFiles

  /** `CombineFiles`: the bytes of the output file, or the exception that stops it. */
  method CombineFiles(info: HeaderInfo, mipmapFiles: seq<string>, fs: map<string, seq<byte>>)
    returns (r: Result<seq<byte>, Exception>)
    ensures r == CombinedFile(info, mipmapFiles, fs)
  {
    var outputStream := new OutputStream();
    WriteHeaderBlock(outputStream, info);
    ghost var header := outputStream.data;
    var isCubeMap := HasFlag(info.header.caps2, Caps2Cubemap);
    var faces := if isCubeMap then 6 else 1;
    var mipMapSizes := GetMipMapSizes(info.header);
    if mipMapSizes.Failure? {
      return Failure(mipMapSizes.error);
    }
    var mipMapBytes := ReadFragments(SortDescending(mipmapFiles), fs);
    if mipMapBytes.Failure? {
      return Failure(mipMapBytes.error);
    }
    var fragments := mipMapBytes.value;
    var body := WriteFaces(outputStream, info, mipMapSizes.value, fragments, faces, header);
    if body.Failure? {
      return Failure(body.error);
    }
    ghost var faceBytes := AssembleFaces(LevelsOf(info, fragments), faces).value;
    assert header == HeaderBlock(info);
    assert outputStream.data == HeaderBlock(info) + faceBytes.output;
    outputStream.Write(EndMarker);
    assert outputStream.data == HeaderBlock(info) + faceBytes.output + EndMarker;
    return Success(outputStream.data);
  }

  /** `Serialize()` of the header behind the magic, then the DX10 record if there is one. */
  method WriteHeaderBlock(outputStream: OutputStream, info: HeaderInfo)
    modifies outputStream
    ensures outputStream.data == old(outputStream.data) + HeaderBlock(info)
  {
    ghost var before := outputStream.data;
    var serializedHeader := Serialize(info.header);
    outputStream.Write(DdsMagicBytes);
    outputStream.Write(serializedHeader);
    ghost var headed := outputStream.data;
    if info.dxt10Header.Some? {
      outputStream.Write(EncodeDxt10(info.dxt10Header.value));
    }
    HeaderBlockSplits(info, before, serializedHeader, headed, outputStream.data);
  }

  lemma HeaderBlockSplits(info: HeaderInfo, before: seq<byte>, serialized: seq<byte>, headed: seq<byte>,
    after: seq<byte>)
    requires serialized == EncodeHeader(info.header)
    requires headed == before + DdsMagicBytes + serialized
    requires after == headed + (if info.dxt10Header.Some? then EncodeDxt10(info.dxt10Header.value) else [])
    ensures after == before + HeaderBlock(info)
  {
  }

  /** The outer loop of `CombineFiles`, over the faces. */
  method WriteFaces(outputStream: OutputStream, info: HeaderInfo, mipMapSizes: seq<(int, int)>,
    fragments: seq<seq<byte>>, faces: nat, ghost header: seq<byte>)
    returns (r: Result<nat, Exception>)
    requires faces == FaceCount(info) && |mipMapSizes| == MipCount(info)
    requires forall i | 0 <= i < |mipMapSizes| ::
      mipMapSizes[i] == (MipDimension(info.header.width, i), MipDimension(info.header.height, i))
    requires outputStream.data == header
    modifies outputStream
    ensures var spec := AssembleFaces(LevelsOf(info, fragments), faces);
      (r.Failure? ==> spec == Failure(r.error)) &&
      (r.Success? ==> spec.Success? && outputStream.data == header + spec.value.output)
  {
    ghost var l := LevelsOf(info, fragments);
    LevelsOfSizes(info, mipMapSizes, fragments);
    var postHeaderDataOffset := 0;
    var cubeFace := 0;
    while cubeFace < faces
      invariant 0 <= cubeFace <= faces
      invariant AssembleFaces(l, cubeFace).Success?
      invariant outputStream.data == header + AssembleFaces(l, cubeFace).value.output
      invariant postHeaderDataOffset == AssembleFaces(l, cubeFace).value.postOffset
    {
      var faceResult := WriteFace(outputStream, info, mipMapSizes, fragments, cubeFace, postHeaderDataOffset, l,
        AssembleFaces(l, cubeFace).value, header);
      if faceResult.Failure? {
        FacesFailFrom(l, cubeFace + 1, faces);
        return Failure(faceResult.error);
      }
      postHeaderDataOffset := faceResult.value;
      cubeFace := cubeFace + 1;
    }
    return Success(postHeaderDataOffset);
  }

  /** The inner loop of `CombineFiles`: every level of face `cubeFace`, written after `prefix` and `start`'s
      output; the result is the new post-header offset. */
  method WriteFace(outputStream: OutputStream, info: HeaderInfo, mipMapSizes: seq<(int, int)>,
    mipMapBytes: seq<seq<byte>>, cubeFace: nat, startOffset: nat, ghost l: Levels, ghost start: Progress,
    ghost prefix: seq<byte>)
    returns (r: Result<nat, Exception>)
    requires |mipMapSizes| == |l.sizes| && startOffset == start.postOffset
    requires forall i | 0 <= i < |mipMapSizes| :: l.sizes[i] == CalculateMipSize(mipMapSizes[i].0, mipMapSizes[i].1, info)
    requires l.isCubeMap == IsCubeMap(info) && l.fragments == mipMapBytes && l.postHeaderData == info.postHeaderData
    requires outputStream.data == prefix + start.output
    modifies outputStream
    ensures var spec := AssembleMips(l, cubeFace, |l.sizes|, start);
      (r.Failure? ==> spec == Failure(r.error)) &&
      (r.Success? ==> spec.Success? && r.value == spec.value.postOffset && outputStream.data == prefix + spec.value.output)
  {
    var isCubeMap := HasFlag(info.header.caps2, Caps2Cubemap);
    var postHeaderDataOffset := startOffset;
    var mipMap := 0;
    while mipMap < |mipMapSizes|
      invariant 0 <= mipMap <= |mipMapSizes|
      invariant AssembleMips(l, cubeFace, mipMap, start).Success?
      invariant outputStream.data == prefix + AssembleMips(l, cubeFace, mipMap, start).value.output
      invariant postHeaderDataOffset == AssembleMips(l, cubeFace, mipMap, start).value.postOffset
    {
      ghost var p := AssembleMips(l, cubeFace, mipMap, start).value;
      var mipMapSize := mipMapSizes[mipMap];
      var mipMapByteCount := CalculateMipSize(mipMapSize.0, mipMapSize.1, info);
      if mipMapByteCount.Failure? {
        MipsFailFrom(l, cubeFace, mipMap + 1, |l.sizes|, start);
        return Failure(mipMapByteCount.error);
      }
      var n := mipMapByteCount.value;
      var step := WriteMipSlice(outputStream, l, mipMapBytes, cubeFace, mipMap, n, isCubeMap,
        info.postHeaderData, postHeaderDataOffset, p, prefix);
      if step.Failure? {
        MipsFailFrom(l, cubeFace, mipMap + 1, |l.sizes|, start);
        return Failure(step.error);
      }
      postHeaderDataOffset := step.value;
      mipMap := mipMap + 1;
    }
    return Success(postHeaderDataOffset);
  }

  /** The sizes `GetMipMapSizes` gives are the dimensions behind `LevelsOf`'s sizes. */
  lemma LevelsOfSizes(info: HeaderInfo, mipMapSizes: seq<(int, int)>, fragments: seq<seq<byte>>)
    requires |mipMapSizes| == MipCount(info)
    requires forall i | 0 <= i < |mipMapSizes| ::
      mipMapSizes[i] == (MipDimension(info.header.width, i), MipDimension(info.header.height, i))
    ensures var l := LevelsOf(info, fragments);
      |mipMapSizes| == |l.sizes| &&
      (forall i | 0 <= i < |mipMapSizes| :: l.sizes[i] == CalculateMipSize(mipMapSizes[i].0, mipMapSizes[i].1, info)) &&
      l.isCubeMap == IsCubeMap(info) && l.fragments == fragments && l.postHeaderData == info.postHeaderData
  {
  }

  /** The body of the inner loop once the level's size `n` is known. */
  method WriteMipSlice(outputStream: OutputStream, ghost l: Levels, mipMapBytes: seq<seq<byte>>, cubeFace: nat,
    mipMap: nat, n: int, isCubeMap: bool, postHeaderData: Option<seq<byte>>, postHeaderDataOffset: nat,
    ghost p: Progress, ghost prefix: seq<byte>)
    returns (r: Result<nat, Exception>)
    requires isCubeMap == l.isCubeMap && mipMapBytes == l.fragments && postHeaderData == l.postHeaderData
    requires postHeaderDataOffset == p.postOffset
    requires outputStream.data == prefix + p.output
    modifies outputStream
    ensures var spec := MipSlice(l, cubeFace, mipMap, n, p);
      (r.Failure? ==> spec == Failure(r.error)) &&
      (r.Success? ==> spec.Success? && r.value == spec.value.postOffset && outputStream.data == prefix + spec.value.output)
  {
    if mipMap < |mipMapBytes| {
      var faceOffset := if isCubeMap then cubeFace * n else 0;
      if faceOffset + n <= |mipMapBytes[mipMap]| {
        if faceOffset < 0 || n < 0 {
          return Failure(ArgumentOutOfRange);
        }
        outputStream.WriteRange(mipMapBytes[mipMap], faceOffset, n);
        return Success(postHeaderDataOffset);
      } else {
        return Failure(InvalidOperation);
      }
    } else {
      if postHeaderData.Some? && postHeaderDataOffset + n <= |postHeaderData.value| {
        if n < 0 {
          return Failure(ArgumentOutOfRange);
        }
        outputStream.WriteRange(postHeaderData.value, postHeaderDataOffset, n);
        return Success(postHeaderDataOffset + n);
      } else {
        return Failure(InvalidOperation);
      }
    }
  }

  /** A failed level ends the face: once level `j - 1` fails, so do all the levels after it. */
  lemma {:induction false} MipsFailFrom(l: Levels, face: nat, j: nat, count: nat, start: Progress)
    requires 1 <= j <= count <= |l.sizes|
    requires AssembleMips(l, face, j, start).Failure?
    ensures AssembleMips(l, face, count, start) == AssembleMips(l, face, j, start)
  {
    if j < count {
      MipsFailFrom(l, face, j, count - 1, start);
    }
  }

  /** A failed face ends the file. */
  lemma {:induction false} FacesFailFrom(l: Levels, f: nat, faces: nat)
    requires 1 <= f <= faces
    requires AssembleFaces(l, f).Failure?
    ensures AssembleFaces(l, faces) == AssembleFaces(l, f)
  {
    if f < faces {
      FacesFailFrom(l, f, faces - 1);
    }
  }

  // ---------------------------------------------------------------------------
  // What the assembly produces

  /** The size of level `mip` when it has one that can be written, and 0 otherwise. */
  function LevelBytes(l: Levels, mip: nat): nat
    requires mip < |l.sizes|
  {
    match l.sizes[mip]
    case Success(n) => if n < 0 then 0 else n
    case Failure(_) => 0
  }

  /** The bytes levels `0 .. count-1` take in one face. */
  function MipsLength(l: Levels, count: nat): nat
    requires count <= |l.sizes|
  {
    if count == 0 then 0 else MipsLength(l, count - 1) + LevelBytes(l, count - 1)
  }

  /** The bytes of post-header data levels `0 .. count-1` take in one face: those without a fragment file. */
  function PostLength(l: Levels, count: nat): nat
    requires count <= |l.sizes|
  {
    if count == 0 then 0
    else PostLength(l, count - 1) + (if count - 1 >= |l.fragments| then LevelBytes(l, count - 1) else 0)
  }

  /** Where face `face` starts reading the post-header data. */
  function FaceStart(l: Levels, face: nat): nat {
    face * PostLength(l, |l.sizes|)
  }

  /** Level `mip` of face `face` can be written with the post-header data read from `postOffset`: its size is
      known and not negative, and the bytes it takes lie inside its fragment, or inside the post-header data. */
  predicate LevelFits(l: Levels, face: nat, mip: nat, postOffset: nat)
    requires mip < |l.sizes|
  {
    l.sizes[mip].Success? && l.sizes[mip].value >= 0 &&
    var n := l.sizes[mip].value;
    if mip < |l.fragments| then FaceOffset(l, face, n) + n <= |l.fragments[mip]|
    else l.postHeaderData.Some? && postOffset + n <= |l.postHeaderData.value|
  }

  /** Levels `0 .. count-1` of face `face` fit, reading the post-header data from `postOffset` on. */
  predicate MipsFit(l: Levels, face: nat, count: nat, postOffset: nat)
    requires count <= |l.sizes|
  {
    forall k | 0 <= k < count :: LevelFits(l, face, k, postOffset + PostLength(l, k))
  }

  lemma MipsFitStep(l: Levels, face: nat, count: nat, postOffset: nat)
    requires 0 < count <= |l.sizes|
    ensures MipsFit(l, face, count, postOffset) <==>
      MipsFit(l, face, count - 1, postOffset) && LevelFits(l, face, count - 1, postOffset + PostLength(l, count - 1))
  {
  }

  /** Every level of face `face` fits, reading the post-header data from where the face starts. */
  predicate FaceFits(l: Levels, face: nat) {
    MipsFit(l, face, |l.sizes|, FaceStart(l, face))
  }

  /** The bytes of level `mip` of face `face`: the face's part of the level's fragment, or the next bytes of the
      post-header data from `postOffset`. */
  function LevelData(l: Levels, face: nat, mip: nat, postOffset: nat): seq<byte>
    requires mip < |l.sizes|
  {
    var n := LevelBytes(l, mip);
    if mip < |l.fragments| then
      var faceOffset := FaceOffset(l, face, n);
      if faceOffset + n <= |l.fragments[mip]| then l.fragments[mip][faceOffset..faceOffset + n] else []
    else if l.postHeaderData.Some? && postOffset + n <= |l.postHeaderData.value| then
      l.postHeaderData.value[postOffset..postOffset + n]
    else []
  }

  /** Levels `0 .. count-1` of face `face` one after the other, the post-header data read from `postOffset` on. */
  function FaceData(l: Levels, face: nat, count: nat, postOffset: nat): seq<byte>
    requires count <= |l.sizes|
  {
    if count == 0 then []
    else FaceData(l, face, count - 1, postOffset) + LevelData(l, face, count - 1, postOffset + PostLength(l, count - 1))
  }

  /** Faces `0 .. faces-1` one after the other; each face reads the post-header data on from where the one
      before it stopped. */
  function FacesData(l: Levels, faces: nat): seq<byte> {
    if faces == 0 then []
    else FacesData(l, faces - 1) + FaceData(l, faces - 1, |l.sizes|, FaceStart(l, faces - 1))
  }

  /** One level: it is written exactly when it fits, and then it appends its data, and moves the post-header
      offset exactly when it has no fragment. */
  lemma MipStepFits(l: Levels, face: nat, mip: nat, p: Progress)
    requires mip < |l.sizes|
    ensures MipStep(l, face, mip, p).Success? <==> LevelFits(l, face, mip, p.postOffset)
    ensures MipStep(l, face, mip, p).Success? ==>
      MipStep(l, face, mip, p).value
        == Progress(p.output + LevelData(l, face, mip, p.postOffset),
                    p.postOffset + (if mip >= |l.fragments| then LevelBytes(l, mip) else 0))
  {
  }

  /** The exception a level throws: without a size, what `CalculateMipSize` threw; with a size of at least zero
      that runs past its fragment or the post-header data (or finds no post-header data),
      `InvalidOperationException`. */
  lemma MipStepMisfit(l: Levels, face: nat, mip: nat, p: Progress)
    requires mip < |l.sizes|
    ensures l.sizes[mip].Failure? ==> MipStep(l, face, mip, p) == Failure(l.sizes[mip].error)
    ensures l.sizes[mip].Success? && l.sizes[mip].value >= 0 && !LevelFits(l, face, mip, p.postOffset) ==>
      MipStep(l, face, mip, p) == Failure(InvalidOperation)
  {
  }

  /** What the loops can throw: a level's size computation's exception, `InvalidOperationException` for a slice
      that does not fit, and `ArgumentOutOfRangeException` from `Stream.Write` for a negative count. */
  predicate LoopError(l: Levels, e: Exception) {
    e == InvalidOperation || e == ArgumentOutOfRange || exists k | 0 <= k < |l.sizes| :: l.sizes[k] == Failure(e)
  }

  lemma MipStepErrors(l: Levels, face: nat, mip: nat, p: Progress)
    requires mip < |l.sizes|
    ensures MipStep(l, face, mip, p).Failure? ==> LoopError(l, MipStep(l, face, mip, p).error)
  {
    if l.sizes[mip].Failure? {
      assert l.sizes[mip] == Failure(MipStep(l, face, mip, p).error);
    }
  }

  lemma {:induction false} AssembleMipsErrors(l: Levels, face: nat, count: nat, start: Progress)
    requires count <= |l.sizes|
    ensures AssembleMips(l, face, count, start).Failure? ==> LoopError(l, AssembleMips(l, face, count, start).error)
  {
    if count > 0 {
      AssembleMipsErrors(l, face, count - 1, start);
      var previous := AssembleMips(l, face, count - 1, start);
      if previous.Success? {
        MipStepErrors(l, face, count - 1, previous.value);
      }
    }
  }

  lemma {:induction false} AssembleFacesErrors(l: Levels, faces: nat)
    ensures AssembleFaces(l, faces).Failure? ==> LoopError(l, AssembleFaces(l, faces).error)
  {
    if faces > 0 {
      AssembleFacesErrors(l, faces - 1);
      var previous := AssembleFaces(l, faces - 1);
      if previous.Success? {
        AssembleMipsErrors(l, faces - 1, |l.sizes|, previous.value);
      }
    }
  }

  /** The levels of a face are written exactly when each of them fits, and then the face is its levels in order,
      and it moves the post-header offset past the levels that have no fragment. */
  lemma AssembleMipsContent(l: Levels, face: nat, count: nat, start: Progress)
    requires count <= |l.sizes|
    ensures AssembleMips(l, face, count, start).Success? <==> MipsFit(l, face, count, start.postOffset)
    ensures AssembleMips(l, face, count, start).Success? ==>
      AssembleMips(l, face, count, start).value
        == Progress(start.output + FaceData(l, face, count, start.postOffset), start.postOffset + PostLength(l, count))
  {
    AssembleMipsFits(l, face, count, start);
    if AssembleMips(l, face, count, start).Success? {
      AssembleMipsValue(l, face, count, start);
    }
  }

  lemma {:induction false} AssembleMipsFits(l: Levels, face: nat, count: nat, start: Progress)
    requires count <= |l.sizes|
    ensures AssembleMips(l, face, count, start).Success? <==> MipsFit(l, face, count, start.postOffset)
  {
    if count > 0 {
      AssembleMipsFits(l, face, count - 1, start);
      MipsFitStep(l, face, count, start.postOffset);
      var previous := AssembleMips(l, face, count - 1, start);
      if previous.Success? {
        AssembleMipsValue(l, face, count - 1, start);
        AssembleMipsUnfold(l, face, count, start, previous.value);
        MipStepFits(l, face, count - 1, previous.value);
      }
    }
  }

  lemma {:induction false} AssembleMipsValue(l: Levels, face: nat, count: nat, start: Progress)
    requires count <= |l.sizes| && AssembleMips(l, face, count, start).Success?
    ensures AssembleMips(l, face, count, start).value
      == Progress(start.output + FaceData(l, face, count, start.postOffset), start.postOffset + PostLength(l, count))
  {
    if count > 0 {
      var previous := AssembleMips(l, face, count - 1, start);
      assert previous.Success?;
      AssembleMipsValue(l, face, count - 1, start);
      AssembleMipsUnfold(l, face, count, start, previous.value);
      MipStepFits(l, face, count - 1, previous.value);
      LevelAppended(l, face, count, start, previous.value);
    }
  }

  /** The step of `AssembleMipsContent`: one more level after the ones before it were written. */
  lemma AssembleMipsUnfold(l: Levels, face: nat, count: nat, start: Progress, p: Progress)
    requires 0 < count <= |l.sizes|
    requires AssembleMips(l, face, count - 1, start) == Success(p)
    ensures AssembleMips(l, face, count, start) == MipStep(l, face, count - 1, p)
  {
  }

  lemma LevelAppended(l: Levels, face: nat, count: nat, start: Progress, p: Progress)
    requires 0 < count <= |l.sizes|
    requires p == Progress(start.output + FaceData(l, face, count - 1, start.postOffset),
                           start.postOffset + PostLength(l, count - 1))
    ensures Progress(p.output + LevelData(l, face, count - 1, p.postOffset),
                     p.postOffset + (if count - 1 >= |l.fragments| then LevelBytes(l, count - 1) else 0))
      == Progress(start.output + FaceData(l, face, count, start.postOffset), start.postOffset + PostLength(l, count))
  {
    var before := FaceData(l, face, count - 1, start.postOffset);
    var level := LevelData(l, face, count - 1, p.postOffset);
    assert FaceData(l, face, count, start.postOffset) == before + level;
    AppendAssociates(start.output, before, level);
  }

  lemma AppendAssociates(a: seq<byte>, b: seq<byte>, c: seq<byte>)
    ensures a + (b + c) == (a + b) + c
  {
  }

  /** A whole face started where `FaceStart` says: it is written exactly when it fits, and then it is its
      levels in order and ends where the next face starts. */
  lemma FaceContent(l: Levels, face: nat, start: Progress)
    requires start.postOffset == FaceStart(l, face)
    ensures AssembleMips(l, face, |l.sizes|, start).Success? <==> FaceFits(l, face)
    ensures AssembleMips(l, face, |l.sizes|, start).Success? ==>
      AssembleMips(l, face, |l.sizes|, start).value
        == Progress(start.output + FaceData(l, face, |l.sizes|, FaceStart(l, face)), FaceStart(l, face + 1))
  {
    AssembleMipsContent(l, face, |l.sizes|, start);
    NextFaceStart(face, PostLength(l, |l.sizes|));
  }

  lemma NextFaceStart(face: nat, length: nat)
    ensures (face + 1) * length == face * length + length
  {
  }

  /** All faces are written exactly when every level of every face fits, and then the body is the faces in
      order, each of them its levels in order. */
  lemma AssembleFacesContent(l: Levels, faces: nat)
    ensures AssembleFaces(l, faces).Success? <==> forall f | 0 <= f < faces :: FaceFits(l, f)
    ensures AssembleFaces(l, faces).Success? ==>
      AssembleFaces(l, faces).value == Progress(FacesData(l, faces), FaceStart(l, faces))
  {
    AssembleFacesFit(l, faces);
    if AssembleFaces(l, faces).Success? {
      AssembleFacesValue(l, faces);
    }
  }

  lemma {:induction false} AssembleFacesFit(l: Levels, faces: nat)
    ensures AssembleFaces(l, faces).Success? <==> forall f | 0 <= f < faces :: FaceFits(l, f)
  {
    if faces > 0 {
      AssembleFacesFit(l, faces - 1);
      var previous := AssembleFaces(l, faces - 1);
      if previous.Failure? {
        assert AssembleFaces(l, faces) == previous;
        var g :| 0 <= g < faces - 1 && !FaceFits(l, g);
      } else {
        AssembleFacesValue(l, faces - 1);
        FaceContent(l, faces - 1, previous.value);
        assert AssembleFaces(l, faces) == AssembleMips(l, faces - 1, |l.sizes|, previous.value);
      }
    }
  }

  lemma {:induction false} AssembleFacesValue(l: Levels, faces: nat)
    requires AssembleFaces(l, faces).Success?
    ensures AssembleFaces(l, faces).value == Progress(FacesData(l, faces), FaceStart(l, faces))
  {
    if faces > 0 {
      var previous := AssembleFaces(l, faces - 1);
      assert previous.Success?;
      AssembleFacesValue(l, faces - 1);
      FaceContent(l, faces - 1, previous.value);
    }
  }

  /** The combined file: the header block, the faces, the marker; and the two exceptions before any slice is
      taken: a negative mip count, and a fragment that is not a file. */
  lemma CombinedFileContent(info: HeaderInfo, mipmapFiles: seq<string>, fs: map<string, seq<byte>>)
    ensures info.header.mipMapCount < 0 ==> CombinedFile(info, mipmapFiles, fs) == Failure(Overflow)
    ensures info.header.mipMapCount >= 0 && (exists name | name in mipmapFiles :: name !in fs) ==>
      CombinedFile(info, mipmapFiles, fs).Failure? && CombinedFile(info, mipmapFiles, fs).error.FileNotFound?
    ensures CombinedFile(info, mipmapFiles, fs).Success? <==>
      info.header.mipMapCount >= 0 && ReadFragments(SortDescending(mipmapFiles), fs).Success? &&
      forall f | 0 <= f < FaceCount(info) :: FaceFits(LevelsOf(info, ReadFragments(SortDescending(mipmapFiles), fs).value), f)
    ensures CombinedFile(info, mipmapFiles, fs).Success? ==>
      CombinedFile(info, mipmapFiles, fs).value
        == HeaderBlock(info) + FacesData(LevelsOf(info, ReadFragments(SortDescending(mipmapFiles), fs).value), FaceCount(info))
           + EndMarker
  {
    var names := SortDescending(mipmapFiles);
    if info.header.mipMapCount >= 0 {
      if name :| name in mipmapFiles && name !in fs {
        assert name in multiset(names);
        var k :| 0 <= k < |names| && names[k] == name;
      }
      var read := ReadFragments(names, fs);
      if read.Success? {
        AssembleFacesContent(LevelsOf(info, read.value), FaceCount(info));
      }
    }
  }

  /** Once the fragments are read, `CombineFiles` throws only `InvalidOperationException` for a slice that does
      not fit, `ArgumentOutOfRangeException` for a negative size, or `NotSupportedException` for a format without
      a size rule. */
  lemma CombinedFileErrors(info: HeaderInfo, mipmapFiles: seq<string>, fs: map<string, seq<byte>>)
    requires info.header.mipMapCount >= 0 && ReadFragments(SortDescending(mipmapFiles), fs).Success?
    ensures var r := CombinedFile(info, mipmapFiles, fs);
      r.Failure? ==> r.error == InvalidOperation || r.error == ArgumentOutOfRange ||
                     (r.error == NotSupported && !FormatSupported(info))
  {
    var l := LevelsOf(info, ReadFragments(SortDescending(mipmapFiles), fs).value);
    AssembleFacesErrors(l, FaceCount(info));
    var r := AssembleFaces(l, FaceCount(info));
    if r.Failure? && r.error != InvalidOperation && r.error != ArgumentOutOfRange {
      var k :| 0 <= k < |l.sizes| && l.sizes[k] == Failure(r.error);
      MipSizeRule(MipDimension(info.header.width, k), MipDimension(info.header.height, k), info);
    }
  }

  /** A level that fits contributes exactly its size. */
  lemma LevelDataLength(l: Levels, face: nat, mip: nat, postOffset: nat)
    requires mip < |l.sizes| && LevelFits(l, face, mip, postOffset)
    ensures |LevelData(l, face, mip, postOffset)| == l.sizes[mip].value == LevelBytes(l, mip)
  {
  }

  /** A face whose levels fit is as long as the sizes of its levels together. */
  lemma {:induction false} FaceDataLength(l: Levels, face: nat, count: nat, postOffset: nat)
    requires count <= |l.sizes| && MipsFit(l, face, count, postOffset)
    ensures |FaceData(l, face, count, postOffset)| == MipsLength(l, count)
  {
    if count > 0 {
      MipsFitStep(l, face, count, postOffset);
      FaceDataLength(l, face, count - 1, postOffset);
      LevelDataLength(l, face, count - 1, postOffset + PostLength(l, count - 1));
    }
  }

  /** Every face has the same length. */
  lemma {:induction false} FacesDataLength(l: Levels, faces: nat)
    requires forall f | 0 <= f < faces :: FaceFits(l, f)
    ensures |FacesData(l, faces)| == faces * MipsLength(l, |l.sizes|)
  {
    if faces > 0 {
      FacesDataLength(l, faces - 1);
      assert FaceFits(l, faces - 1);
      FaceDataLength(l, faces - 1, |l.sizes|, FaceStart(l, faces - 1));
      assert faces * MipsLength(l, |l.sizes|) == (faces - 1) * MipsLength(l, |l.sizes|) + MipsLength(l, |l.sizes|);
    }
  }

  /** The combined file is the header block, the levels of every face, and the eight marker bytes. */
  lemma CombinedFileLength(info: HeaderInfo, mipmapFiles: seq<string>, fs: map<string, seq<byte>>)
    requires CombinedFile(info, mipmapFiles, fs).Success?
    ensures ReadFragments(SortDescending(mipmapFiles), fs).Success?
    ensures |CombinedFile(info, mipmapFiles, fs).value|
      == |HeaderBlock(info)|
         + FaceCount(info) * MipsLength(LevelsOf(info, ReadFragments(SortDescending(mipmapFiles), fs).value), MipCount(info))
         + EndMarkerSize
    ensures CombinedFile(info, mipmapFiles, fs).value[..|HeaderBlock(info)|] == HeaderBlock(info)
    ensures CombinedFile(info, mipmapFiles, fs).value[|CombinedFile(info, mipmapFiles, fs).value| - EndMarkerSize..]
      == AsciiEncode("CExtCEnd")
  {
    var l := LevelsOf(info, ReadFragments(SortDescending(mipmapFiles), fs).value);
    var body := AssembleFaces(l, FaceCount(info));
    assert CombinedFile(info, mipmapFiles, fs).value == HeaderBlock(info) + body.value.output + EndMarker;
    AssembleFacesFit(l, FaceCount(info));
    AssembleFacesValue(l, FaceCount(info));
    FacesDataLength(l, FaceCount(info));
    EndMarkerBytes();
  }
}
