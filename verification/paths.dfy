/**
 * Path naming: std::filesystem's stem and extension of a file name, the
 * locations of callisto's own files under a project root, the temporary ROM
 * name, the escaping of a path for an asar command line and the conversion
 * of Windows separators. A path is the sequence of its components; what
 * exists on disk is not consulted.
 */
module Paths {
  import opened Wrappers
  import opened Strings

  type Path = seq<string>

  /** The last component, or the empty name for the empty path. */
  function FileName(p: Path): string
  {
    if |p| == 0 then "" else p[|p| - 1]
  }

  /** The last index at which c stands in s, if any. */
  function LastIndexOf(s: string, c: char): (r: Option<nat>)
    ensures r.Some? ==> r.value < |s| && s[r.value] == c && forall k :: r.value < k < |s| ==> s[k] != c
    ensures r.None? ==> Lacks(s, c)
  {
    if |s| == 0 then None
    else if s[|s| - 1] == c then Some(|s| - 1)
    else
      var r := LastIndexOf(s[..|s| - 1], c);
      assert forall k :: 0 <= k < |s| - 1 ==> s[k] == s[..|s| - 1][k];
      r
  }

  /**
   * path::extension of a file name: from the last period to the end, except
   * that "." and ".." have none and a period that starts the name does not
   * begin an extension.
   */
  function Extension(name: string): (e: string)
    ensures e == [] || (|e| < |name| && EndsWith(name, e) && e[0] == '.' && Lacks(e[1..], '.'))
  {
    if name == "." || name == ".." then []
    else match LastIndexOf(name, '.')
      case None => []
      case Some(k) =>
        if k == 0 then []
        else
          var e := name[k..];
          assert forall j :: 0 <= j < |e| - 1 ==> e[1..][j] == name[k + 1 + j];
          e
  }

  /** path::stem: the file name without its extension. */
  function Stem(name: string): (s: string)
    ensures s + Extension(name) == name
  {
    var e := Extension(name);
    name[..|name| - |e|]
  }

  /** A stem followed by ".<ext>", where ext has no period, has the extension ".<ext>". */
  lemma ExtensionOfStem(stem: string, ext: string)
    requires |stem| > 0 && Lacks(ext, '.')
    requires |ext| > 0 || stem != "."
    ensures Extension(stem + "." + ext) == "." + ext
  {
    var name := stem + "." + ext;
    var k := |stem|;
    assert name[k] == '.';
    assert name[..k] == stem;
    forall j | k < j < |name|
      ensures name[j] != '.'
    {
      assert name[j] == ext[j - k - 1];
    }
    var r := LastIndexOf(name, '.');
    assert r == Some(k);
    assert name[k..] == "." + ext;
  }

  /** A name that is only a period and a suffix is a hidden file without an extension. */
  lemma DotFileHasNoExtension(ext: string)
    requires Lacks(ext, '.')
    ensures Extension("." + ext) == []
  {
    var name := "." + ext;
    forall j | 0 < j < |name|
      ensures name[j] != '.'
    {
      assert name[j] == ext[j - 1];
    }
    assert name[0] == '.';
    var r := LastIndexOf(name, '.');
    assert r == Some(0);
  }

  const TemporarySuffix: string := "_temp"

  /** The file name getTemporaryRomPath gives the ROM while a build runs. */
  function TemporaryRomName(outputRom: Path): string
  {
    var name := FileName(outputRom);
    Stem(name) + TemporarySuffix + Extension(name)
  }

  /** getTemporaryRomPath: the temporary name inside the temporary folder. */
  function TemporaryRomPath(temporaryFolder: Path, outputRom: Path): (p: Path)
    ensures |p| == |temporaryFolder| + 1 && p[..|temporaryFolder|] == temporaryFolder
    ensures FileName(p) == TemporaryRomName(outputRom)
  {
    temporaryFolder + [TemporaryRomName(outputRom)]
  }

  /**
   * The temporary ROM keeps the output ROM's extension, and its stem is the
   * output's stem with "_temp" appended.
   */
  lemma TemporaryRomKeepsExtension(outputRom: Path)
    requires FileName(outputRom) != "." && FileName(outputRom) != ".."
    ensures Extension(TemporaryRomName(outputRom)) == Extension(FileName(outputRom))
    ensures Stem(TemporaryRomName(outputRom)) == Stem(FileName(outputRom)) + TemporarySuffix
  {
    hide *;
    var name := FileName(outputRom);
    var e := Extension(name);
    var st := Stem(name);
    var t := st + TemporarySuffix + e;
    TemporaryRomNameIs(outputRom);
    assert TemporaryRomName(outputRom) == t;
    SuffixKeepsExtension(name, st, e);
    StemIs(t);
    assert t[..|t| - |e|] == st + TemporarySuffix;
  }

  lemma TemporaryRomNameIs(outputRom: Path)
    ensures TemporaryRomName(outputRom) == Stem(FileName(outputRom)) + TemporarySuffix + Extension(FileName(outputRom))
  {
  }

  lemma StemIs(name: string)
    ensures Stem(name) == name[..|name| - |Extension(name)|]
  {
  }

  lemma SuffixKeepsExtension(name: string, st: string, e: string)
    requires name != "." && name != ".."
    requires e == Extension(name) && st == Stem(name)
    ensures Extension(st + TemporarySuffix + e) == e
  {
    if e == [] {
      SuffixWithoutExtension(name);
      assert st == name;
      assert st + TemporarySuffix + e == name + TemporarySuffix;
    } else {
      var stem2 := st + TemporarySuffix;
      ExtensionOfStem(stem2, e[1..]);
      assert "." + e[1..] == e;
      assert stem2 + "." + e[1..] == st + TemporarySuffix + e;
    }
  }

  /** Appending the suffix to a name without an extension gives a name without one. */
  lemma SuffixWithoutExtension(name: string)
    requires name != "." && name != ".." && Extension(name) == []
    ensures Extension(name + TemporarySuffix) == []
  {
    var t := name + TemporarySuffix;
    NoExtensionDots(name);
    forall k | 0 < k < |t|
      ensures t[k] != '.'
    {
      if k < |name| { assert t[k] == name[k]; }
    }
    if t[0] == '.' {
      assert LastIndexOf(t, '.') == Some(0);
    } else {
      LastIndexNone(t, '.');
    }
  }

  /** A name without an extension has a period at most at its start. */
  lemma NoExtensionDots(name: string)
    requires name != "." && name != ".." && Extension(name) == []
    ensures forall k :: 0 < k < |name| ==> name[k] != '.'
  {
    match LastIndexOf(name, '.')
    case None =>
    case Some(k) =>
  }

  lemma LastIndexNone(s: string, c: char)
    requires Lacks(s, c)
    ensures LastIndexOf(s, c) == None
  {
  }

  const CallistoDirectoryName: string := ".callisto"
  const CacheDirectoryName: string := ".cache"
  const ModulesDirectoryName: string := "modules"

  /** The files and folders callisto keeps for a project. */
  datatype ProjectFile =
    | CallistoDirectory | CallistoCache | BuildReport | LastRomSync | ModuleCacheDirectory
    | ModuleOldSymbolsDirectory | ModuleCleanupDirectory | UserModuleDirectory | CallistoAsmFile

  /** Where each of them lives, relative to the project root. */
  function RelativeLocation(f: ProjectFile): (p: Path)
    ensures |p| >= 1 && p[0] == CallistoDirectoryName
  {
    match f
    case CallistoDirectory => [CallistoDirectoryName]
    case CallistoCache => [CallistoDirectoryName, CacheDirectoryName]
    case BuildReport => [CallistoDirectoryName, CacheDirectoryName, "build_report.json"]
    case LastRomSync => [CallistoDirectoryName, CacheDirectoryName, "last_rom_sync.json"]
    case ModuleCacheDirectory => [CallistoDirectoryName, CacheDirectoryName, ModulesDirectoryName]
    case ModuleOldSymbolsDirectory => [CallistoDirectoryName, CacheDirectoryName, ModulesDirectoryName, "old"]
    case ModuleCleanupDirectory => [CallistoDirectoryName, CacheDirectoryName, ModulesDirectoryName, "cleanup"]
    case UserModuleDirectory => [CallistoDirectoryName, ModulesDirectoryName]
    case CallistoAsmFile => [CallistoDirectoryName, "callisto.asm"]
  }

  /** getBuildReportPath, getLastRomSyncPath and the other getters for a project root. */
  function ProjectPath(projectRoot: Path, f: ProjectFile): (p: Path)
    ensures |p| > |projectRoot|
    ensures p[..|projectRoot| + 1] == projectRoot + [CallistoDirectoryName]
  {
    projectRoot + RelativeLocation(f)
  }

  /** Different files of one project never share a location. */
  lemma ProjectPathsDistinct(projectRoot: Path, f: ProjectFile, g: ProjectFile)
    requires f != g
    ensures ProjectPath(projectRoot, f) != ProjectPath(projectRoot, g)
  {
    var a, b := RelativeLocation(f), RelativeLocation(g);
    assert a != b;
    assert (projectRoot + a)[|projectRoot|..] == a;
    assert (projectRoot + b)[|projectRoot|..] == b;
  }

  /** What sanitizeForAsar puts in place of one character. */
  function AsarEscape(c: char): string
  {
    if c == '!' then "\\!" else if c == '"' then "\"\"" else [c]
  }

  function EscapeEach(s: string): string
  {
    if |s| == 0 then [] else AsarEscape(s[0]) + EscapeEach(s[1..])
  }

  /** sanitizeForAsar: every '!' becomes "\!", then every '"' becomes "\"\"". */
  function SanitizeForAsar(path: string): (r: string)
    ensures r == EscapeEach(path)
  {
    var r := ReplaceChar(ReplaceChar(path, '!', "\\!"), '"', "\"\"");
    SanitizeEach(path);
    r
  }

  /** The two whole-string passes escape each character on its own. */
  lemma {:induction false} SanitizeEach(path: string)
    ensures ReplaceChar(ReplaceChar(path, '!', "\\!"), '"', "\"\"") == EscapeEach(path)
  {
    if |path| > 0 {
      var c := path[0];
      var first := if c == '!' then "\\!" else [c];
      assert ReplaceChar(path, '!', "\\!") == first + ReplaceChar(path[1..], '!', "\\!");
      ReplaceCharConcat(first, ReplaceChar(path[1..], '!', "\\!"), '"', "\"\"");
      SanitizeEach(path[1..]);
      if c == '!' {
        assert ReplaceChar(first, '"', "\"\"") == first by {
          assert Lacks(first, '"');
        }
      } else if c == '"' {
        assert ReplaceChar(first, '"', "\"\"") == "\"\"" by {
          assert first[1..] == [];
        }
      } else {
        assert ReplaceChar(first, '"', "\"\"") == [c] by {
          assert first[1..] == [];
        }
      }
    }
  }

  /** How asar reads the escapes back: "\!" is a '!' and "\"\"" a '"'. */
  function AsarUnescape(s: string): string
    decreases |s|
  {
    if |s| == 0 then []
    else if |s| >= 2 && s[0] == '\\' && s[1] == '!' then "!" + AsarUnescape(s[2..])
    else if |s| >= 2 && s[0] == '"' && s[1] == '"' then "\"" + AsarUnescape(s[2..])
    else [s[0]] + AsarUnescape(s[1..])
  }

  /** An escaped path never starts with a bare '!'. */
  lemma EscapedStart(s: string)
    requires |s| > 0
    ensures EscapeEach(s)[0] != '!'
  {
  }

  /** asar reads a sanitized path as the original path. */
  lemma {:induction false} UnescapeSanitized(path: string)
    ensures AsarUnescape(SanitizeForAsar(path)) == path
  {
    if |path| > 0 {
      var c := path[0];
      var rest := EscapeEach(path[1..]);
      UnescapeSanitized(path[1..]);
      var s := AsarEscape(c) + rest;
      assert EscapeEach(path) == s;
      if c == '!' {
        assert s[2..] == rest;
      } else if c == '"' {
        assert s[2..] == rest;
      } else {
        if |rest| > 0 {
          EscapedStart(path[1..]);
        }
        assert s[1..] == rest;
      }
      assert path == [c] + path[1..];
    }
  }

  /**
   * convertToPosixPath: on Windows every backslash becomes a forward slash;
   * elsewhere the path is left as it is.
   */
  function ConvertToPosixPath(path: string, onWindows: bool): (r: string)
    ensures !onWindows ==> r == path
    ensures onWindows ==> Lacks(r, '\\') && |r| == |path|
    ensures onWindows ==> forall k :: 0 <= k < |path| && path[k] != '\\' ==> r[k] == path[k]
  {
    if !onWindows then path else ReplaceAllBackslashes(path)
  }

  function ReplaceAllBackslashes(s: string): (r: string)
    ensures |r| == |s| && Lacks(r, '\\')
    ensures forall k :: 0 <= k < |s| ==> r[k] == (if s[k] == '\\' then '/' else s[k])
  {
    seq(|s|, k requires 0 <= k < |s| => if s[k] == '\\' then '/' else s[k])
  }

  /** Converting twice is converting once. */
  lemma PosixIdempotent(path: string, onWindows: bool)
    ensures ConvertToPosixPath(ConvertToPosixPath(path, onWindows), onWindows) == ConvertToPosixPath(path, onWindows)
  {
  }
}
