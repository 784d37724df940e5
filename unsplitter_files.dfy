/**
 * How DDSUnsplitter.cs sorts the names of a directory listing into a header file, the chain of main-texture
 * mips (".dds.1", ".dds.2", ...) and the chain of gloss mips (".dds.1a", ".dds.2a", ...).
 */
module UnsplitterFiles {
  import opened Wrappers
  import opened Exceptions
  import opened Strings
  import opened Paths
  import opened MipLayout

  /** `DdsFileSet`. */
  datatype DdsFileSet = DdsFileSet(
    headerFile: string,
    mipmapFiles: seq<string>,
    glossHeaderFile: Option<string>,
    glossMipmapFiles: Option<seq<string>>,
    isAlreadyCombined: bool)

  // ---------------------------------------------------------------------------
  // Name tests

  /** Output of an earlier run, which the listing must ignore. */
  predicate NotCombined(f: string) {
    !ContainsIgnoreCase(f, ".combined.")
  }

  predicate IsBaseName(f: string) {
    EndsWith(f, ".dds")
  }

  predicate IsHeaderZeroName(f: string) {
    EndsWith(f, ".dds.0")
  }

  predicate IsGlossHeaderName(f: string) {
    EndsWith(f, ".dds.a")
  }

  /** `Regex.IsMatch(f, @"\.dds\.\d+$")`: ".dds." and at least one digit end the name. */
  predicate MatchesMipPattern(f: string) {
    var n := TrailingDigitCount(f);
    n >= 1 && EndsWith(f[..|f| - n], ".dds.")
  }

  predicate NotEndingInZero(f: string) {
    !EndsWith(f, ".0")
  }

  /** `Regex.IsMatch(f, @"\.dds\.\d+a$")`. */
  predicate MatchesGlossPattern(f: string) {
    |f| >= 1 && f[|f| - 1] == 'a' && MatchesMipPattern(f[..|f| - 1])
  }

  // ---------------------------------------------------------------------------
  // Sort keys

  /** `f.Split('.').Last()`: what follows the last dot (the whole name when there is none). */
  function LastSegment(f: string): string {
    f[LastIndexOf(f, '.') + 1..]
  }

  /** `int.Parse` of a segment of digits. */
  function ParseNumber(d: string): nat {
    if AllDigits(d) then ParseDigits(d) else 0
  }

  /** The key of a main mip: `int.Parse(f.Split('.').Last())`. */
  function MipNumber(f: string): nat {
    ParseNumber(LastSegment(f))
  }

  /** The digits a mip name ends with. */
  function TrailingDigits(f: string): (d: string)
    ensures AllDigits(d)
  {
    f[|f| - TrailingDigitCount(f)..]
  }

  /** The key of a gloss mip: `int.Parse(Regex.Match(f, @"\.dds\.(\d+)a$").Groups[1].Value)`. */
  function GlossNumber(f: string): nat {
    if f == [] then 0 else ParseDigits(TrailingDigits(f[..|f| - 1]))
  }

  /** For a main mip, the segment after the last dot is exactly its trailing digits. */
  lemma MipNumberIsTrailingNumber(f: string)
    requires MatchesMipPattern(f)
    ensures LastSegment(f) == TrailingDigits(f)
    ensures MipNumber(f) == ParseDigits(TrailingDigits(f))
  {
    var n := TrailingDigitCount(f);
    var pre, d := f[..|f| - n - 1], f[|f| - n..];
    assert f[|f| - n - 1] == '.';
    assert f == pre + ['.'] + d;
    forall k | 0 <= k < |d| ensures d[k] != '.' {
      assert IsDigit(d[k]);
    }
    LastIndexOfJoin(pre, '.', d);
  }

  // ---------------------------------------------------------------------------
  // FindMatchingFiles

  /** The "already valid" test applied to the ".dds" name: `DdsHeader.Deserialize(string)` and the file's
      length are parameters. */
  function BaseIsAlreadyValid(baseFile: string, headerOf: string -> Result<HeaderInfo, Exception>,
    lengthOf: string -> int): Result<bool, Exception>
  {
    var info :- headerOf(baseFile);
    IsAlreadyValidDdsFile(info, lengthOf(baseFile))
  }

  /** The file set of names that are not already combined, once the base file (if any) is known not to be. */
  function ClassifySplitFiles(allFiles: seq<string>, baseFile: Option<string>): Result<DdsFileSet, Exception> {
    var dds0File := FirstWhere(allFiles, IsHeaderZeroName);
    if dds0File.None? && baseFile.None? then Failure(NoHeaderFile)
    else
      var headerFile := if dds0File.Some? then dds0File.value else baseFile.value;
      var mipmapFiles := SortByKey(Filter(Filter(allFiles, MatchesMipPattern), NotEndingInZero), MipNumber);
      var glossHeader := FirstWhere(allFiles, IsGlossHeaderName);
      var glossMipmapFiles :=
        if glossHeader.Some? then Some(SortByKey(Filter(allFiles, MatchesGlossPattern), GlossNumber)) else None;
      Success(DdsFileSet(headerFile, mipmapFiles, glossHeader, glossMipmapFiles, false))
  }

  /** `FindMatchingFiles`, given the names `Directory.GetFiles` returns for the base name's prefix. */
  function FindMatchingFiles(listing: seq<string>, headerOf: string -> Result<HeaderInfo, Exception>,
    lengthOf: string -> int): Result<DdsFileSet, Exception>
  {
    var allFiles := Filter(listing, NotCombined);
    var baseFile := FirstWhere(allFiles, IsBaseName);
    if baseFile.Some? then
      var alreadyValid :- BaseIsAlreadyValid(baseFile.value, headerOf, lengthOf);
      if alreadyValid then Success(DdsFileSet(baseFile.value, [], None, None, true))
      else ClassifySplitFiles(allFiles, baseFile)
    else ClassifySplitFiles(allFiles, baseFile)
  }

  /** The base ".dds" name `FindMatchingFiles` chooses: the first one left after the combined names are
      dropped. */
  function BaseFile(listing: seq<string>): Option<string> {
    FirstWhere(Filter(listing, NotCombined), IsBaseName)
  }

  /** An already combined ".dds" file is returned alone, and is the only way a set is marked combined; an
      error of its header check is the only error before the header is chosen. */
  lemma AlreadyCombinedIff(listing: seq<string>, headerOf: string -> Result<HeaderInfo, Exception>,
    lengthOf: string -> int)
    ensures var r, b := FindMatchingFiles(listing, headerOf, lengthOf), BaseFile(listing);
      (r.Success? && r.value.isAlreadyCombined) <==>
        (b.Some? && BaseIsAlreadyValid(b.value, headerOf, lengthOf) == Success(true))
    ensures var r, b := FindMatchingFiles(listing, headerOf, lengthOf), BaseFile(listing);
      r.Success? && r.value.isAlreadyCombined ==> r.value == DdsFileSet(b.value, [], None, None, true)
    ensures var r, b := FindMatchingFiles(listing, headerOf, lengthOf), BaseFile(listing);
      b.Some? && BaseIsAlreadyValid(b.value, headerOf, lengthOf).Failure? ==>
        r == Failure(BaseIsAlreadyValid(b.value, headerOf, lengthOf).error)
  {
    var r, b := FindMatchingFiles(listing, headerOf, lengthOf), BaseFile(listing);
    var classified := ClassifySplitFiles(Filter(listing, NotCombined), b);
    ClassifiedSetsAreSplit(Filter(listing, NotCombined), b);
    if NotAlreadyCombined(listing, headerOf, lengthOf) {
      SplitFilesClassified(listing, headerOf, lengthOf);
    } else {
      BaseCheckDecides(listing, headerOf, lengthOf);
    }
    if b.Some? {
      FileSetDecision(r, b.value, BaseIsAlreadyValid(b.value, headerOf, lengthOf), classified);
    }
  }

  /** How the result follows from the base file's check, once each branch is known. */
  lemma FileSetDecision(r: Result<DdsFileSet, Exception>, b: string, valid: Result<bool, Exception>,
    classified: Result<DdsFileSet, Exception>)
    requires valid.Failure? ==> r == Failure(valid.error)
    requires valid.Success? && valid.value ==> r == Success(DdsFileSet(b, [], None, None, true))
    requires valid.Success? && !valid.value ==> r == classified
    requires classified.Success? ==> !classified.value.isAlreadyCombined
    ensures (r.Success? && r.value.isAlreadyCombined) <==> valid == Success(true)
    ensures r.Success? && r.value.isAlreadyCombined ==> r.value == DdsFileSet(b, [], None, None, true)
    ensures valid.Failure? ==> r == Failure(valid.error)
  {
  }

  /** When the base file's check fails or finds it combined, that alone decides the result. */
  lemma BaseCheckDecides(listing: seq<string>, headerOf: string -> Result<HeaderInfo, Exception>,
    lengthOf: string -> int)
    requires !NotAlreadyCombined(listing, headerOf, lengthOf)
    ensures var r, b := FindMatchingFiles(listing, headerOf, lengthOf), BaseFile(listing);
      var valid := BaseIsAlreadyValid(b.value, headerOf, lengthOf);
      r == if valid.Failure? then Failure(valid.error) else Success(DdsFileSet(b.value, [], None, None, true))
  {
  }

  /** The classification only ever describes split files. */
  lemma ClassifiedSetsAreSplit(allFiles: seq<string>, baseFile: Option<string>)
    ensures ClassifySplitFiles(allFiles, baseFile).Success? ==> !ClassifySplitFiles(allFiles, baseFile).value.isAlreadyCombined
  {
  }

  /** The set of split files, in the cases where the base file's check passes without finding it combined. */
  predicate NotAlreadyCombined(listing: seq<string>, headerOf: string -> Result<HeaderInfo, Exception>,
    lengthOf: string -> int)
  {
    var b := BaseFile(listing);
    b.None? || BaseIsAlreadyValid(b.value, headerOf, lengthOf) == Success(false)
  }

  /** Once the base file is known not to be combined, the result is the classification of the listing. */
  lemma SplitFilesClassified(listing: seq<string>, headerOf: string -> Result<HeaderInfo, Exception>,
    lengthOf: string -> int)
    requires NotAlreadyCombined(listing, headerOf, lengthOf)
    ensures FindMatchingFiles(listing, headerOf, lengthOf) == ClassifySplitFiles(Filter(listing, NotCombined), BaseFile(listing))
  {
  }

  /** The header is the first ".dds.0" name, else the ".dds" name; with neither, `FileNotFoundException`. */
  lemma HeaderSelection(listing: seq<string>, headerOf: string -> Result<HeaderInfo, Exception>,
    lengthOf: string -> int)
    requires NotAlreadyCombined(listing, headerOf, lengthOf)
    ensures var r := FindMatchingFiles(listing, headerOf, lengthOf);
      r.Failure? <==> forall f | f in listing && NotCombined(f) :: !IsHeaderZeroName(f) && !IsBaseName(f)
    ensures var r := FindMatchingFiles(listing, headerOf, lengthOf);
      r.Failure? ==> r.error == NoHeaderFile
    ensures var r, dds0, b := FindMatchingFiles(listing, headerOf, lengthOf),
        FirstWhere(Filter(listing, NotCombined), IsHeaderZeroName), BaseFile(listing);
      r.Success? ==> !r.value.isAlreadyCombined && r.value.headerFile == (if dds0.Some? then dds0.value else b.value)
  {
    SplitFilesClassified(listing, headerOf, lengthOf);
    ClassifiedHeader(Filter(listing, NotCombined), BaseFile(listing));
  }

  lemma ClassifiedHeader(all: seq<string>, b: Option<string>)
    requires b == FirstWhere(all, IsBaseName)
    ensures var r := ClassifySplitFiles(all, b);
      (r.Failure? <==> forall f | f in all :: !IsHeaderZeroName(f) && !IsBaseName(f)) &&
      (r.Failure? ==> r.error == NoHeaderFile)
    ensures var r, dds0 := ClassifySplitFiles(all, b), FirstWhere(all, IsHeaderZeroName);
      r.Success? ==> !r.value.isAlreadyCombined && r.value.headerFile == (if dds0.Some? then dds0.value else b.value)
  {
    FirstWhereFinds(all, IsHeaderZeroName);
    FirstWhereFinds(all, IsBaseName);
  }

  /** The main mips: exactly the listed names, not combined, that match `\.dds\.\d+$` and do not end in ".0",
      each once for each time it is listed, ascending by number. */
  lemma MipmapFilesContent(listing: seq<string>, headerOf: string -> Result<HeaderInfo, Exception>,
    lengthOf: string -> int)
    requires NotAlreadyCombined(listing, headerOf, lengthOf)
    requires FindMatchingFiles(listing, headerOf, lengthOf).Success?
    ensures var m := FindMatchingFiles(listing, headerOf, lengthOf).value.mipmapFiles;
      forall f :: f in m <==> f in listing && NotCombined(f) && MatchesMipPattern(f) && NotEndingInZero(f)
    ensures var m := FindMatchingFiles(listing, headerOf, lengthOf).value.mipmapFiles;
      multiset(m) == multiset(Filter(Filter(Filter(listing, NotCombined), MatchesMipPattern), NotEndingInZero))
    ensures var m := FindMatchingFiles(listing, headerOf, lengthOf).value.mipmapFiles;
      forall i, j | 0 <= i < j < |m| :: ParseDigits(TrailingDigits(m[i])) <= ParseDigits(TrailingDigits(m[j]))
  {
    SplitFilesClassified(listing, headerOf, lengthOf);
    ClassifiedMips(Filter(listing, NotCombined), BaseFile(listing));
  }

  lemma ClassifiedMips(all: seq<string>, b: Option<string>)
    requires ClassifySplitFiles(all, b).Success?
    ensures var m := ClassifySplitFiles(all, b).value.mipmapFiles;
      forall f :: f in m <==> f in all && MatchesMipPattern(f) && NotEndingInZero(f)
    ensures var m := ClassifySplitFiles(all, b).value.mipmapFiles;
      multiset(m) == multiset(Filter(Filter(all, MatchesMipPattern), NotEndingInZero))
    ensures var m := ClassifySplitFiles(all, b).value.mipmapFiles;
      forall i, j | 0 <= i < j < |m| :: ParseDigits(TrailingDigits(m[i])) <= ParseDigits(TrailingDigits(m[j]))
  {
    var chosen := Filter(Filter(all, MatchesMipPattern), NotEndingInZero);
    var m := ClassifySplitFiles(all, b).value.mipmapFiles;
    assert m == SortByKey(chosen, MipNumber);
    forall f ensures f in m <==> f in chosen {
      assert f in m <==> f in multiset(m);
    }
    forall i, j | 0 <= i < j < |m| ensures ParseDigits(TrailingDigits(m[i])) <= ParseDigits(TrailingDigits(m[j])) {
      assert m[i] in multiset(m) && m[j] in multiset(m);
      MipNumberIsTrailingNumber(m[i]);
      MipNumberIsTrailingNumber(m[j]);
    }
  }

  /** The gloss chain exists exactly when a ".dds.a" name is listed, and then holds exactly the names matching
      `\.dds\.\d+a$`, ascending by number. */
  lemma GlossFilesContent(listing: seq<string>, headerOf: string -> Result<HeaderInfo, Exception>,
    lengthOf: string -> int)
    requires NotAlreadyCombined(listing, headerOf, lengthOf)
    requires FindMatchingFiles(listing, headerOf, lengthOf).Success?
    ensures var s := FindMatchingFiles(listing, headerOf, lengthOf).value;
      s.glossHeaderFile.Some? <==> exists f | f in listing :: NotCombined(f) && IsGlossHeaderName(f)
    ensures var s := FindMatchingFiles(listing, headerOf, lengthOf).value;
      s.glossMipmapFiles.Some? <==> s.glossHeaderFile.Some?
    ensures var s := FindMatchingFiles(listing, headerOf, lengthOf).value;
      s.glossHeaderFile.Some? ==> IsGlossHeaderName(s.glossHeaderFile.value) && s.glossHeaderFile.value in listing
    ensures var s := FindMatchingFiles(listing, headerOf, lengthOf).value;
      s.glossMipmapFiles.Some? ==>
        (forall f :: f in s.glossMipmapFiles.value <==> f in listing && NotCombined(f) && MatchesGlossPattern(f)) &&
        SortedByKey(s.glossMipmapFiles.value, GlossNumber)
  {
    SplitFilesClassified(listing, headerOf, lengthOf);
    ClassifiedGloss(Filter(listing, NotCombined), BaseFile(listing));
  }

  lemma ClassifiedGloss(all: seq<string>, b: Option<string>)
    requires ClassifySplitFiles(all, b).Success?
    ensures var s := ClassifySplitFiles(all, b).value;
      (s.glossHeaderFile.Some? <==> exists f | f in all :: IsGlossHeaderName(f)) &&
      (s.glossMipmapFiles.Some? <==> s.glossHeaderFile.Some?) &&
      (s.glossHeaderFile.Some? ==> IsGlossHeaderName(s.glossHeaderFile.value) && s.glossHeaderFile.value in all)
    ensures var s := ClassifySplitFiles(all, b).value;
      s.glossMipmapFiles.Some? ==>
        (forall f :: f in s.glossMipmapFiles.value <==> f in all && MatchesGlossPattern(f)) &&
        SortedByKey(s.glossMipmapFiles.value, GlossNumber)
  {
    var s := ClassifySplitFiles(all, b).value;
    FirstWhereFinds(all, IsGlossHeaderName);
    if s.glossMipmapFiles.Some? {
      var g := s.glossMipmapFiles.value;
      var chosen := Filter(all, MatchesGlossPattern);
      assert g == SortByKey(chosen, GlossNumber);
      forall f ensures f in g <==> f in chosen {
        assert f in g <==> f in multiset(g);
      }
    }
  }

  /** No name plays two parts: the two mip chains are disjoint and hold neither header. */
  lemma FileRolesDisjoint(listing: seq<string>, headerOf: string -> Result<HeaderInfo, Exception>,
    lengthOf: string -> int)
    requires NotAlreadyCombined(listing, headerOf, lengthOf)
    requires FindMatchingFiles(listing, headerOf, lengthOf).Success?
    ensures var s := FindMatchingFiles(listing, headerOf, lengthOf).value;
      s.headerFile !in s.mipmapFiles &&
      (s.glossHeaderFile.Some? ==> s.glossHeaderFile.value !in s.mipmapFiles && s.glossHeaderFile.value != s.headerFile)
    ensures var s := FindMatchingFiles(listing, headerOf, lengthOf).value;
      s.glossMipmapFiles.Some? ==>
        s.headerFile !in s.glossMipmapFiles.value &&
        (s.glossHeaderFile.Some? ==> s.glossHeaderFile.value !in s.glossMipmapFiles.value) &&
        forall f | f in s.mipmapFiles :: f !in s.glossMipmapFiles.value
  {
    var s := FindMatchingFiles(listing, headerOf, lengthOf).value;
    MipmapFilesContent(listing, headerOf, lengthOf);
    GlossFilesContent(listing, headerOf, lengthOf);
    HeaderSelection(listing, headerOf, lengthOf);
    FirstWhereFinds(Filter(listing, NotCombined), IsHeaderZeroName);
    FirstWhereFinds(Filter(listing, NotCombined), IsBaseName);
    HeaderIsNoMip(s.headerFile);
    if s.glossHeaderFile.Some? {
      GlossHeaderIsNoMip(s.glossHeaderFile.value);
      LastCharacters(s.glossHeaderFile.value, s.headerFile);
    }
    if s.glossMipmapFiles.Some? {
      forall f | f in s.mipmapFiles ensures f !in s.glossMipmapFiles.value {
        MipIsNoGlossMip(f);
      }
    }
  }

  /** Which character a header name ends with. */
  lemma LastCharacters(glossHeader: string, header: string)
    requires IsGlossHeaderName(glossHeader) && (IsHeaderZeroName(header) || IsBaseName(header))
    ensures glossHeader != header
  {
    assert glossHeader[|glossHeader| - 1] == 'a';
    if IsHeaderZeroName(header) {
      assert header[|header| - 1] == '0';
    } else {
      assert header[|header| - 1] == 's';
    }
  }

  lemma HeaderIsNoMip(f: string)
    requires IsHeaderZeroName(f) || IsBaseName(f)
    ensures !(MatchesMipPattern(f) && NotEndingInZero(f)) && !MatchesGlossPattern(f)
  {
    if IsHeaderZeroName(f) {
      assert f[|f| - 2..] == ".0";
      assert f[|f| - 1] == '0';
    } else {
      assert f[|f| - 1] == 's';
    }
  }

  lemma GlossHeaderIsNoMip(f: string)
    requires IsGlossHeaderName(f)
    ensures !MatchesMipPattern(f) && !MatchesGlossPattern(f)
  {
    assert f[|f| - 1] == 'a';
    var g := f[..|f| - 1];
    assert g[|g| - 1] == '.';
  }

  lemma MipIsNoGlossMip(f: string)
    requires MatchesMipPattern(f)
    ensures !MatchesGlossPattern(f)
  {
    assert IsDigit(f[|f| - 1]);
  }
}
