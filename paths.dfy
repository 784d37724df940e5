/**
 * The parts of `System.IO.Path` the combiners use, for paths whose only separator is '/', and the two
 * naming helpers that DDSUnsplitter.cs and DDSFileCombiner.cs both define, identically.
 */
module Paths {
  import opened Wrappers
  import opened Strings
  import opened Exceptions
  import opened DdsConstants

  const Separator: char := '/'

  predicate NoSeparator(s: string) {
    forall k | 0 <= k < |s| :: s[k] != Separator
  }

  /** `LastIndexOf(c)`: the last position holding `c`, or -1. */
  function LastIndexOf(s: string, c: char): (i: int)
    ensures -1 <= i < |s|
    ensures i >= 0 ==> s[i] == c
  {
    if s == [] then -1
    else if s[|s| - 1] == c then |s| - 1
    else LastIndexOf(s[..|s| - 1], c)
  }

  // ---------------------------------------------------------------------------
  // Path.GetDirectoryName

  /** The root of a rooted path is its leading separator. */
  function RootLength(p: string): nat {
    if |p| > 0 && p[0] == Separator then 1 else 0
  }

  /** The scan `while (end > root && !IsDirectorySeparator(path[--end]))`, started at `end`. */
  function ScanBack(p: string, root: nat, end: nat): (e: nat)
    requires root <= end <= |p|
    ensures root <= e <= end
    ensures e < end ==> e == root || p[e] == Separator
    ensures forall k | e < k < end :: p[k] != Separator
  {
    if end <= root then root
    else if p[end - 1] == Separator then end - 1
    else ScanBack(p, root, end - 1)
  }

  /** `while (end > root && IsDirectorySeparator(path[end - 1])) end--`. */
  function TrimBack(p: string, root: nat, end: nat): (e: nat)
    requires root <= end <= |p|
    ensures root <= e <= end
    ensures e > root ==> p[e - 1] != Separator
    ensures forall k | e <= k < end :: p[k] == Separator
  {
    if end > root && p[end - 1] == Separator then TrimBack(p, root, end - 1) else end
  }

  /** `Path.GetDirectoryName`: null for "" and for the root alone, else everything before the last name. */
  function GetDirectoryName(p: string): Option<string> {
    var root := RootLength(p);
    if |p| <= root then None else Some(p[..TrimBack(p, root, ScanBack(p, root, |p|))])
  }

  /** `Path.GetFileName`: what follows the last separator. */
  function GetFileName(p: string): string {
    p[LastIndexOf(p, Separator) + 1..]
  }

  /** `Path.GetFileNameWithoutExtension`: the file name up to its last '.'. */
  function GetFileNameWithoutExtension(p: string): string {
    StripExtension(GetFileName(p))
  }

  /** A file name up to its last '.', or all of it when it has none. */
  function StripExtension(name: string): string {
    var dot := LastIndexOf(name, '.');
    if dot < 0 then name else name[..dot]
  }

  /** `Path.Combine` of two paths. */
  function Combine(first: string, second: string): string {
    if first == [] then second
    else if second == [] then first
    else if second[0] == Separator then second
    else if first[|first| - 1] == Separator then first + second
    else first + [Separator] + second
  }

  // ---------------------------------------------------------------------------
  // The naming helpers of both combiners

  /** `PrepareFileInfo`: the directory of the base name and the name with two extensions removed. */
  function PrepareFileInfo(baseFileName: string): Result<(string, string), Exception> {
    var directory := GetDirectoryName(baseFileName);
    if directory.None? then Failure(DirectoryNotFound)
    else Success((directory.value, GetFileNameWithoutExtension(GetFileNameWithoutExtension(baseFileName))))
  }

  /** `CreateOutputPath`: `directory/name[.identifier].dds`. */
  function CreateOutputPath(directory: string, fileNameWithoutExtension: string, useSafeName: bool,
                            combinedFileNameIdentifier: string): string
  {
    var suffix := if useSafeName then "." + combinedFileNameIdentifier else "";
    Combine(directory, fileNameWithoutExtension + suffix + "." + DdsExtension)
  }

  // ---------------------------------------------------------------------------
  // Properties

  /** Only the empty path and the bare root have no directory part. */
  lemma DirectoryNameAbsentIff(p: string)
    ensures GetDirectoryName(p).None? <==> p == "" || p == [Separator]
  {
    if |p| == 1 && p[0] == Separator {
      assert p == [Separator];
    }
  }

  /** `PrepareFileInfo` fails exactly when `GetDirectoryName` is null: for "" and for the bare root. A file name
      without a directory part, "texture.dds", passes with the directory name "". */
  lemma PrepareFileInfoFailsIffNoDirectory(baseFileName: string)
    ensures PrepareFileInfo(baseFileName).Failure? <==> baseFileName == "" || baseFileName == [Separator]
    ensures PrepareFileInfo(baseFileName).Failure? ==> PrepareFileInfo(baseFileName).error == DirectoryNotFound
  {
    DirectoryNameAbsentIff(baseFileName);
  }

  /** A file name without separators, "texture.dds", has the directory name "" (not null). */
  lemma BareNameHasEmptyDirectory(baseFileName: string)
    requires baseFileName != [] && NoSeparator(baseFileName)
    ensures GetDirectoryName(baseFileName) == Some("")
    ensures PrepareFileInfo(baseFileName).Success? && PrepareFileInfo(baseFileName).value.0 == ""
  {
    ScanBackNoSeparator(baseFileName, |baseFileName|);
  }

  lemma {:induction false} ScanBackNoSeparator(p: string, end: nat)
    requires end <= |p| && NoSeparator(p)
    ensures ScanBack(p, 0, end) == 0
  {
    if end > 0 {
      ScanBackNoSeparator(p, end - 1);
    }
  }

  /** No occurrence of `c` follows the one `LastIndexOf` finds. */
  lemma {:induction false} LastIndexOfIsLast(s: string, c: char, k: nat)
    requires LastIndexOf(s, c) < k < |s|
    ensures s[k] != c
  {
    if s[|s| - 1] != c && k < |s| - 1 {
      LastIndexOfIsLast(s[..|s| - 1], c, k);
    }
  }

  /** `LastIndexOf` finds the separator between a prefix and a part that does not hold the character. */
  lemma {:induction false} LastIndexOfJoin(a: string, c: char, b: string)
    requires forall k | 0 <= k < |b| :: b[k] != c
    ensures LastIndexOf(a + [c] + b, c) == |a|
  {
    var s := a + [c] + b;
    if b != [] {
      assert s[..|s| - 1] == a + [c] + b[..|b| - 1];
      LastIndexOfJoin(a, c, b[..|b| - 1]);
    }
  }

  /** The backward scan stops at the last separator at or after the root. */
  lemma {:induction false} ScanBackStops(p: string, root: nat, end: nat, e: nat)
    requires root <= e < end <= |p| && p[e] == Separator
    requires forall k | e < k < end :: p[k] != Separator
    ensures ScanBack(p, root, end) == e
  {
    if end - 1 > e {
      ScanBackStops(p, root, end - 1, e);
    }
  }

  lemma LastIndexOfAbsent(s: string, c: char)
    requires forall k | 0 <= k < |s| :: s[k] != c
    ensures LastIndexOf(s, c) == -1
  {
  }

  /** A directory and a plain file name joined by `Combine` split back into the same two parts. */
  lemma CombineSplits(directory: string, name: string)
    requires directory != [] && directory[|directory| - 1] != Separator
    requires name != [] && NoSeparator(name)
    ensures GetDirectoryName(Combine(directory, name)) == Some(directory)
    ensures GetFileName(Combine(directory, name)) == name
  {
    var p := Combine(directory, name);
    assert p == directory + [Separator] + name;
    var root := RootLength(p);
    assert root == RootLength(directory);
    assert |directory| > root;
    assert forall k | |directory| < k < |p| :: p[k] != Separator by {
      forall k | |directory| < k < |p| ensures p[k] != Separator {
        assert p[k] == name[k - |directory| - 1];
      }
    }
    ScanBackStops(p, root, |p|, |directory|);
    assert TrimBack(p, root, |directory|) == |directory|;
    assert p[..|directory|] == directory;
    LastIndexOfJoin(directory, Separator, name);
    assert p[|directory| + 1..] == name;
  }

  /** The file name of a path whose directory part `pre` is empty or ends in a separator is what follows `pre`. */
  lemma FileNameAfter(pre: string, name: string)
    requires pre == [] || pre[|pre| - 1] == Separator
    requires NoSeparator(name)
    ensures GetFileName(pre + name) == name
  {
    var p := pre + name;
    if pre == [] {
      LastIndexOfAbsent(p, Separator);
    } else {
      assert p == pre[..|pre| - 1] + [Separator] + name;
      LastIndexOfJoin(pre[..|pre| - 1], Separator, name);
    }
  }

  /** The name without extension of `pre + a + "." + e`, where `pre` is empty or a directory ending in a
      separator, is `a`. */
  lemma FileNameWithoutExtensionJoin(p: string, pre: string, a: string, e: string)
    requires p == pre + a + ['.'] + e
    requires pre == [] || pre[|pre| - 1] == Separator
    requires NoSeparator(a) && NoSeparator(e)
    requires forall k | 0 <= k < |e| :: e[k] != '.'
    ensures GetFileNameWithoutExtension(p) == a
  {
    var name := a + ['.'] + e;
    NoSeparatorJoin(a, '.', e);
    assert p == pre + name;
    FileNameAfter(pre, name);
    StripExtensionJoin(name, a, e);
  }

  lemma StripExtensionJoin(name: string, a: string, e: string)
    requires name == a + ['.'] + e
    requires forall k | 0 <= k < |e| :: e[k] != '.'
    ensures StripExtension(name) == a
  {
    LastIndexOfJoin(a, '.', e);
    assert name[..|a|] == a;
  }

  lemma NoSeparatorJoin(a: string, c: char, e: string)
    requires NoSeparator(a) && NoSeparator(e) && c != Separator
    ensures NoSeparator(a + [c] + e)
  {
    var s := a + [c] + e;
    forall k | 0 <= k < |s| ensures s[k] != Separator {
      if k < |a| { assert s[k] == a[k]; } else if k > |a| { assert s[k] == e[k - |a| - 1]; }
    }
  }

  /** "dir/file.dds.1" gives the directory "dir" and the name "file": two extensions are removed. */
  lemma PrepareStripsTwoExtensions(directory: string, stem: string, ext1: string, ext2: string)
    requires directory != [] && directory[|directory| - 1] != Separator
    requires stem != [] && NoSeparator(stem)
    requires NoSeparator(ext1) && NoSeparator(ext2)
    requires forall k | 0 <= k < |ext1| :: ext1[k] != '.'
    requires forall k | 0 <= k < |ext2| :: ext2[k] != '.'
    ensures PrepareFileInfo(directory + [Separator] + stem + ['.'] + ext1 + ['.'] + ext2) == Success((directory, stem))
  {
    var once := stem + ['.'] + ext1;
    var name := once + ['.'] + ext2;
    var base := directory + [Separator] + stem + ['.'] + ext1 + ['.'] + ext2;
    NoSeparatorJoin(stem, '.', ext1);
    NoSeparatorJoin(once, '.', ext2);
    assert Combine(directory, name) == base;
    CombineSplits(directory, name);
    assert GetDirectoryName(base) == Some(directory);
    FileNameWithoutExtensionJoin(base, directory + [Separator], once, ext2);
    FileNameWithoutExtensionJoin(once, [], stem, ext1);
    assert GetFileNameWithoutExtension(GetFileNameWithoutExtension(base)) == stem;
  }

  /** With `useSafeName` the output name ends in `.identifier.dds`, and without it in `name.dds`. */
  lemma CreateOutputPathSuffix(directory: string, fileNameWithoutExtension: string, useSafeName: bool,
                               combinedFileNameIdentifier: string)
    ensures var p := CreateOutputPath(directory, fileNameWithoutExtension, useSafeName, combinedFileNameIdentifier);
      if useSafeName then EndsWith(p, "." + combinedFileNameIdentifier + ".dds")
      else EndsWith(p, fileNameWithoutExtension + ".dds")
  {
    var suffix := if useSafeName then "." + combinedFileNameIdentifier else "";
    var file := fileNameWithoutExtension + suffix + "." + DdsExtension;
    var tail := if useSafeName then "." + combinedFileNameIdentifier + ".dds" else fileNameWithoutExtension + ".dds";
    assert file[|file| - |tail|..] == tail;
    CombineEndsWithSecond(directory, file);
    EndsWithTransitive(Combine(directory, file), file, tail);
  }

  /** Whatever the directory, `Combine` keeps the second path as the end of the result. */
  lemma CombineEndsWithSecond(first: string, second: string)
    ensures EndsWith(Combine(first, second), second)
  {
    var p := Combine(first, second);
    if first != [] && second != [] && second[0] != Separator {
      var sep := if first[|first| - 1] == Separator then [] else [Separator];
      assert p == (first + sep) + second;
    }
  }

  lemma EndsWithTransitive(s: string, t: string, u: string)
    requires EndsWith(s, t) && EndsWith(t, u)
    ensures EndsWith(s, u)
  {
    assert s[|s| - |u|..] == t[|t| - |u|..];
  }

  /** The integration test's expectation: a safe name ends in ".combined.dds". */
  lemma SafeNameEndsWithCombinedDds(directory: string, fileNameWithoutExtension: string)
    ensures EndsWith(CreateOutputPath(directory, fileNameWithoutExtension, true, CombinedIdentifier), ".combined.dds")
  {
    CreateOutputPathSuffix(directory, fileNameWithoutExtension, true, CombinedIdentifier);
  }

  /** The output path lies in the directory it was built from and holds the expected file name. */
  lemma CreateOutputPathSplits(directory: string, fileNameWithoutExtension: string, useSafeName: bool,
                               combinedFileNameIdentifier: string)
    requires directory != [] && directory[|directory| - 1] != Separator
    requires NoSeparator(fileNameWithoutExtension) && NoSeparator(combinedFileNameIdentifier)
    ensures var p := CreateOutputPath(directory, fileNameWithoutExtension, useSafeName, combinedFileNameIdentifier);
      GetDirectoryName(p) == Some(directory) &&
      GetFileName(p) == fileNameWithoutExtension + (if useSafeName then "." + combinedFileNameIdentifier else "") + ".dds"
  {
    var suffix := if useSafeName then "." + combinedFileNameIdentifier else "";
    var file := fileNameWithoutExtension + suffix + "." + DdsExtension;
    assert NoSeparator(file) by {
      forall k | 0 <= k < |file| ensures file[k] != Separator {
        if k < |fileNameWithoutExtension| {
          assert file[k] == fileNameWithoutExtension[k];
        } else if useSafeName && |fileNameWithoutExtension| < k <= |fileNameWithoutExtension| + |combinedFileNameIdentifier| {
          assert file[k] == combinedFileNameIdentifier[k - |fileNameWithoutExtension| - 1];
        }
      }
    }
    CombineSplits(directory, file);
  }
}
