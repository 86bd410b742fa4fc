/**
 * The pure parts of the release script: the version tag and package name,
 * the refusal to build a version that was already published, the order in
 * which the script deletes, checks and creates things, the choice of
 * documentation pages and their titles, the rewriting of links between
 * pages, and how build outputs are copied into the package. Git, cmake,
 * pandoc and the file system are left to the caller: what they report
 * (the remote tag listing, which paths are files, the documentation
 * folder's names) comes in as parameters.
 */
module Release {
  import opened Wrappers
  import opened Strings
  import Numerals
  import Paths

  /** A release version: major, minor and patch numbers. */
  datatype Version = Version(major: nat, minor: nat, patch: nat)

  /** VERSION_FORMAT, 'v{}.{}.{}': the tag a version is published under. */
  function VersionString(v: Version): string
  {
    "v" + Numerals.ToDecimal(v.major) + "." + Numerals.ToDecimal(v.minor) + "." + Numerals.ToDecimal(v.patch)
  }

  /** The text between "v" and the first period, between the two periods, and after the second. */
  function SplitVersion(s: string): (r: Option<(string, string, string)>)
  {
    if |s| == 0 || s[0] != 'v' then None
    else match FindFrom(s, ".", 1)
      case None => None
      case Some(i) =>
        match FindFrom(s, ".", i + 1)
        case None => None
        case Some(j) => Some((s[1..i], s[i + 1..j], s[j + 1..]))
  }

  /** A decimal field of a version tag: one or more digits. */
  predicate Field(s: string)
  {
    |s| > 0 && Numerals.AllDigits(s)
  }

  /** Reading a tag of the form v<digits>.<digits>.<digits> back as a version. */
  function ParseVersion(s: string): (r: Option<Version>)
  {
    match SplitVersion(s)
    case None => None
    case Some((a, b, c)) =>
      if Field(a) && Field(b) && Field(c)
      then Some(Version(Numerals.ParseDecimal(a), Numerals.ParseDecimal(b), Numerals.ParseDecimal(c)))
      else None
  }

  /** Decimal numerals have no period in them. */
  lemma DigitsLackDot(s: string)
    requires Numerals.AllDigits(s)
    ensures Lacks(s, '.')
  {
    forall k | 0 <= k < |s| ensures s[k] != '.' {
      assert Numerals.IsDigit(s[k]);
    }
  }

  /** A version tag reads back as its version. */
  lemma VersionRoundTrip(v: Version)
    ensures ParseVersion(VersionString(v)) == Some(v)
  {
    var a, b, c := Numerals.ToDecimal(v.major), Numerals.ToDecimal(v.minor), Numerals.ToDecimal(v.patch);
    ParseParts(a, b, c);
  }

  /** "v", three runs of digits and two periods between them read back as the three numbers. */
  lemma ParseParts(a: string, b: string, c: string)
    requires Field(a) && Field(b) && Field(c)
    ensures ParseVersion("v" + a + "." + b + "." + c)
      == Some(Version(Numerals.ParseDecimal(a), Numerals.ParseDecimal(b), Numerals.ParseDecimal(c)))
  {
    SplitParts(a, b, c);
  }

  lemma SplitParts(a: string, b: string, c: string)
    requires Field(a) && Field(b) && Field(c)
    ensures SplitVersion("v" + a + "." + b + "." + c) == Some((a, b, c))
  {
    var s := "v" + a + "." + b + "." + c;
    var i := 1 + |a|;
    var j := i + 1 + |b|;
    FirstDot(a, b + "." + c);
    assert s == "v" + a + "." + (b + "." + c);
    SecondDot(a, b, c);
    assert s[1..i] == a && s[i + 1..j] == b && s[j + 1..] == c;
  }

  lemma SecondDot(a: string, b: string, c: string)
    requires Field(b)
    ensures FindFrom("v" + a + "." + b + "." + c, ".", 2 + |a|) == Some(2 + |a| + |b|)
  {
    DigitsLackDot(b);
    var front := "v" + a + "." + b;
    forall k | 2 + |a| <= k < |front| ensures front[k] != '.' {
      assert front[k] == b[k - 2 - |a|];
    }
    FindCharAfter(front, '.', c, 2 + |a|);
    assert "v" + a + "." + b + "." + c == front + ['.'] + c;
  }

  /** The first period after the "v" of "v" + a + "." + rest, where a has none, is the one after a. */
  lemma FirstDot(a: string, rest: string)
    requires Numerals.AllDigits(a)
    ensures FindFrom("v" + a + "." + rest, ".", 1) == Some(1 + |a|)
  {
    DigitsLackDot(a);
    FindCharAfter("v" + a, '.', rest, 1);
    assert "v" + a + "." + rest == ("v" + a) + ['.'] + rest;
  }

  /** Different versions are published under different tags. */
  lemma VersionStringInjective(v: Version, w: Version)
    requires VersionString(v) == VersionString(w)
    ensures v == w
  {
    VersionRoundTrip(v);
    VersionRoundTrip(w);
  }

  /** The folder a release is packaged in: "callisto-" and the version tag. */
  function PackagePath(v: Version): string
  {
    "callisto-" + VersionString(v)
  }

  /** Two versions never share a package folder. */
  lemma PackagePathsDistinct(v: Version, w: Version)
    requires v != w
    ensures PackagePath(v) != PackagePath(w)
  {
    if PackagePath(v) == PackagePath(w) {
      assert VersionString(v) == PackagePath(v)[9..];
      VersionStringInjective(v, w);
    }
  }

  datatype ReleaseError = VersionAlreadyUsed(version: string)

  /**
   * check_unique_version as written: the listing of the remote's tags is
   * one string, and `in` on a string looks for a substring.
   */
  function CheckUniqueVersion(listing: string, v: Version): (r: Result<(), ReleaseError>)
    ensures r.Failure? <==> exists k :: OccursAt(listing, VersionString(v), k)
    ensures r.Failure? ==> r.error == VersionAlreadyUsed(VersionString(v))
  {
    var tag := VersionString(v);
    if FindFrom(listing, tag, 0).Some? then Failure(VersionAlreadyUsed(tag)) else Success(())
  }

  /** One reference of the remote's tag listing: an object name and a tag name. */
  datatype TagRef = TagRef(objectName: string, name: string)

  /** The line `git ls-remote --tags` prints for a tag. */
  function ListingLine(t: TagRef): string
  {
    t.objectName + "\trefs/tags/" + t.name
  }

  /** What `git ls-remote --tags origin` returns: the lines, separated by newlines. */
  function Listing(refs: seq<TagRef>): string
  {
    if |refs| == 0 then ""
    else if |refs| == 1 then ListingLine(refs[0])
    else ListingLine(refs[0]) + "\n" + Listing(refs[1..])
  }

  /** The tag names in a listing. */
  function TagNames(refs: seq<TagRef>): (r: seq<string>)
    ensures |r| == |refs| && forall k :: 0 <= k < |refs| ==> r[k] == refs[k].name
  {
    seq(|refs|, k requires 0 <= k < |refs| => refs[k].name)
  }

  /** check_unique_version as intended: the version is refused when a tag has exactly its name. */
  function CheckUniqueTag(tags: seq<string>, v: Version): (r: Result<(), ReleaseError>)
    ensures r.Failure? <==> exists k :: 0 <= k < |tags| && tags[k] == VersionString(v)
  {
    var tag := VersionString(v);
    if exists k :: 0 <= k < |tags| && tags[k] == tag then Failure(VersionAlreadyUsed(tag)) else Success(())
  }

  lemma OccursAfter(a: string, b: string, pat: string, k: nat)
    requires OccursAt(b, pat, k)
    ensures OccursAt(a + b, pat, |a| + k)
  {
    assert (a + b)[|a| + k..|a| + k + |pat|] == b[k..k + |pat|];
  }

  lemma OccursBefore(a: string, b: string, pat: string, k: nat)
    requires OccursAt(a, pat, k)
    ensures OccursAt(a + b, pat, k)
  {
    assert (a + b)[k..k + |pat|] == a[k..k + |pat|];
  }

  /** A tag named in the listing occurs in the listing's text. */
  lemma {:induction false} NameOccurs(refs: seq<TagRef>, k: nat)
    requires k < |refs|
    ensures exists j :: OccursAt(Listing(refs), refs[k].name, j)
  {
    var line := ListingLine(refs[0]);
    if k == 0 {
      var at := |refs[0].objectName + "\trefs/tags/"|;
      OccursAfter(refs[0].objectName + "\trefs/tags/", refs[0].name, refs[0].name, 0);
      assert OccursAt(line, refs[0].name, at);
      if |refs| > 1 {
        OccursBefore(line, "\n" + Listing(refs[1..]), refs[0].name, at);
        assert Listing(refs) == line + ("\n" + Listing(refs[1..]));
        assert OccursAt(Listing(refs), refs[0].name, at);
      } else {
        assert OccursAt(Listing(refs), refs[0].name, at);
      }
    } else {
      NameOccurs(refs[1..], k - 1);
      var j :| OccursAt(Listing(refs[1..]), refs[1..][k - 1].name, j);
      assert refs[1..][k - 1] == refs[k];
      OccursAfter(line + "\n", Listing(refs[1..]), refs[k].name, j);
      assert Listing(refs) == (line + "\n") + Listing(refs[1..]);
      assert OccursAt(Listing(refs), refs[k].name, |line + "\n"| + j);
    }
  }

  /** Every version the intended check refuses, the check as written refuses too. */
  lemma AsWrittenRefusesEveryReuse(refs: seq<TagRef>, v: Version)
    requires CheckUniqueTag(TagNames(refs), v).Failure?
    ensures CheckUniqueVersion(Listing(refs), v).Failure?
  {
    var k :| 0 <= k < |refs| && TagNames(refs)[k] == VersionString(v);
    NameOccurs(refs, k);
  }

  /** A published v0.2.40 makes the check as written refuse v0.2.4, which was never published. */
  lemma LongerTagRefusesPrefix()
    ensures var refs := [TagRef("abc", "v0.2.40")];
      && CheckUniqueVersion(Listing(refs), Version(0, 2, 4)).Failure?
      && CheckUniqueTag(TagNames(refs), Version(0, 2, 4)).Success?
  {
    var refs := [TagRef("abc", "v0.2.40")];
    ShortVersionString();
    OneLineListing(refs);
    hide *;
    PrefixOfLongerTag();
    assert |TagNames(refs)| == 1 && TagNames(refs)[0] == "v0.2.40";
    assert |TagNames(refs)[0]| != |"v0.2.4"|;
  }

  lemma ShortVersionString()
    ensures VersionString(Version(0, 2, 4)) == "v0.2.4"
  {
    assert Numerals.ToDecimal(0) == "0" && Numerals.ToDecimal(2) == "2" && Numerals.ToDecimal(4) == "4";
  }

  lemma OneLineListing(refs: seq<TagRef>)
    requires refs == [TagRef("abc", "v0.2.40")]
    ensures Listing(refs) == "abc\trefs/tags/v0.2.40"
  {
  }

  /** "v0.2.4" is found inside the listing line of v0.2.40. */
  lemma PrefixOfLongerTag()
    ensures OccursAt("abc\trefs/tags/v0.2.40", "v0.2.4", 14)
  {
    assert "abc\trefs/tags/v0.2.40"[14..20] == "v0.2.4";
  }

  /** What the script does to the file system and with other tools, in order. */
  datatype Action =
    | RemoveTree(path: string)
    | MakeDirs(path: string)
    | BuildAsar(output: string, architecture: string)
    | CompileCallisto(output: string)
    | BuildDocs(output: string)

  /** The actions taken, and the error that stopped the script, if one did. */
  datatype Run = Run(actions: seq<Action>, error: Option<ReleaseError>)

  /**
   * The script's entry point followed by main: an old package folder of the
   * same name is removed, the version is checked against the remote, and
   * only then are the package folders made and filled.
   */
  function ReleaseRun(v: Version, packageExists: bool, listing: string): (r: Run)
    ensures r.error.Some? <==> CheckUniqueVersion(listing, v).Failure?
    ensures r.error.Some? ==> forall k :: 0 <= k < |r.actions| ==> !r.actions[k].MakeDirs?
    ensures r.error.None? ==> exists k :: 0 <= k < |r.actions| && r.actions[k] == MakeDirs(PackagePath(v))
    ensures forall k :: 0 <= k < |r.actions| && r.actions[k].RemoveTree? ==> k == 0 && packageExists
    ensures packageExists ==> |r.actions| > 0 && r.actions[0] == RemoveTree(PackagePath(v))
  {
    var p := PackagePath(v);
    var removed := if packageExists then [RemoveTree(p)] else [];
    match CheckUniqueVersion(listing, v)
    case Failure(e) => Run(removed, Some(e))
    case Success(_) =>
      var made := [MakeDirs(p), MakeDirs(p + "/asar/32-bit"), MakeDirs(p + "/asar/64-bit")];
      var built := [
        BuildAsar(p + "/asar/64-bit/asar.dll", "x64"),
        BuildAsar(p + "/asar/32-bit/asar.dll", "Win32"),
        CompileCallisto(p),
        BuildDocs(p + "/documentation")];
      var all := removed + made + built;
      assert all[|removed|] == MakeDirs(p);
      Run(all, None)
  }

  /** A used version stops the script before it has made any folder, whatever it removed first. */
  lemma UsedVersionMakesNothing(v: Version, packageExists: bool, refs: seq<TagRef>)
    requires CheckUniqueTag(TagNames(refs), v).Failure?
    ensures ReleaseRun(v, packageExists, Listing(refs)).error == Some(VersionAlreadyUsed(VersionString(v)))
    ensures forall k :: 0 <= k < |ReleaseRun(v, packageExists, Listing(refs)).actions| ==>
      !ReleaseRun(v, packageExists, Listing(refs)).actions[k].MakeDirs?
  {
    AsWrittenRefusesEveryReuse(refs, v);
  }

  /** os.path.splitext(name)[0] for a bare file name: the name before its last period, unless only periods precede it. */
  function SplitextRoot(name: string): (r: string)
    ensures |r| <= |name| && r == name[..|r|]
  {
    match Paths.LastIndexOf(name, '.')
    case None => name
    case Some(i) => if forall k :: 0 <= k < i ==> name[k] == '.' then name else name[..i]
  }

  /** The files converted to pages: Markdown files whose names do not start with an underscore. */
  predicate Selected(filename: string)
  {
    EndsWith(filename, ".md") && !StartsWith(filename, "_")
  }

  /** A Markdown file name with something other than periods before ".md" has that as its page name. */
  lemma RootOfMarkdown(filename: string)
    requires EndsWith(filename, ".md")
    requires exists k :: 0 <= k < |filename| - 3 && filename[k] != '.'
    ensures SplitextRoot(filename) == filename[..|filename| - 3]
  {
    var i := |filename| - 3;
    assert filename[i..] == ".md";
    assert filename[i] == '.' && filename[i + 1] == 'm' && filename[i + 2] == 'd';
    assert Paths.LastIndexOf(filename, '.') == Some(i);
  }

  /** The page names of the documentation folder's files, in listing order. */
  function Pages(files: seq<string>): (r: seq<string>)
    ensures |r| <= |files|
  {
    if |files| == 0 then []
    else (if Selected(files[0]) then [SplitextRoot(files[0])] else []) + Pages(files[1..])
  }

  /** Every selected file gives a page, and every page comes from a selected file. */
  lemma {:induction false} PagesExactly(files: seq<string>)
    ensures forall k :: 0 <= k < |files| && Selected(files[k]) ==> SplitextRoot(files[k]) in Pages(files)
    ensures forall p :: p in Pages(files) ==> exists k :: 0 <= k < |files| && Selected(files[k]) && p == SplitextRoot(files[k])
  {
    if |files| > 0 {
      PagesExactly(files[1..]);
      var head := if Selected(files[0]) then [SplitextRoot(files[0])] else [];
      assert Pages(files) == head + Pages(files[1..]);
      forall k | 0 < k < |files| && Selected(files[k]) ensures SplitextRoot(files[k]) in Pages(files) {
        assert files[1..][k - 1] == files[k];
      }
      forall p | p in Pages(files)
        ensures exists k :: 0 <= k < |files| && Selected(files[k]) && p == SplitextRoot(files[k])
      {
        if p !in head {
          var j :| 0 <= j < |files[1..]| && Selected(files[1..][j]) && p == SplitextRoot(files[1..][j]);
          assert files[j + 1] == files[1..][j];
        }
      }
    }
  }

  /** The file a page is written to. */
  function OutputName(page: string): string
  {
    page + ".html"
  }

  /** The page title: the page name with every '-' made a space. */
  function Title(page: string): (t: string)
    ensures |t| == |page|
    ensures forall k :: 0 <= k < |page| ==> t[k] == if page[k] == '-' then ' ' else page[k]
    ensures Lacks(t, '-')
  {
    var t := ReplaceChar(page, '-', " ");
    TitleChars(page);
    t
  }

  lemma {:induction false} TitleChars(page: string)
    ensures |ReplaceChar(page, '-', " ")| == |page|
    ensures forall k :: 0 <= k < |page| ==>
      ReplaceChar(page, '-', " ")[k] == if page[k] == '-' then ' ' else page[k]
  {
    if |page| > 0 {
      TitleChars(page[1..]);
      var rest := ReplaceChar(page[1..], '-', " ");
      assert ReplaceChar(page, '-', " ") == [if page[0] == '-' then ' ' else page[0]] + rest;
      forall k | 0 < k < |page|
        ensures ReplaceChar(page, '-', " ")[k] == if page[k] == '-' then ' ' else page[k]
      {
        assert page[1..][k - 1] == page[k];
      }
    }
  }

  /**
   * post_process_doc: every anchor whose href is exactly a page name gets
   * ".html" appended; other anchors, and anchors without an href, are left
   * as they are.
   */
  function RewriteLinks(hrefs: seq<Option<string>>, pages: seq<string>): (r: seq<Option<string>>)
    ensures |r| == |hrefs|
    ensures forall k :: 0 <= k < |hrefs| && r[k] != hrefs[k] ==>
      hrefs[k].Some? && hrefs[k].value in pages && r[k] == Some(OutputName(hrefs[k].value))
  {
    seq(|hrefs|, k requires 0 <= k < |hrefs| =>
      match hrefs[k]
      case None => None
      case Some(h) => if h in pages then Some(h + ".html") else Some(h))
  }

  /** A link naming another page of the documentation ends up naming the file that page is written to. */
  lemma LinksReachPages(files: seq<string>, hrefs: seq<Option<string>>, k: nat, i: nat)
    requires k < |hrefs| && i < |files| && Selected(files[i])
    requires hrefs[k] == Some(SplitextRoot(files[i]))
    ensures RewriteLinks(hrefs, Pages(files))[k] == Some(OutputName(SplitextRoot(files[i])))
  {
    PagesExactly(files);
  }

  /** A link that names no page is left alone. */
  lemma OtherLinksKept(files: seq<string>, hrefs: seq<Option<string>>, k: nat)
    requires k < |hrefs|
    requires hrefs[k].Some? ==> forall i :: 0 <= i < |files| && Selected(files[i]) ==> hrefs[k].value != SplitextRoot(files[i])
    ensures RewriteLinks(hrefs, Pages(files))[k] == hrefs[k]
  {
    PagesExactly(files);
  }

  /** Where a build output goes in the package, taken from and copied to. */
  datatype Copy = CopyFile(from: string, to: string) | CopyTree(from: string, to: string)

  /** CALLISTO_BUILD_OUTPUT_FRAGMENTS: what the build leaves, and its name in the package. */
  const BuildOutputFragments: seq<(string, string)> := [
    ("config", "config"),
    ("initial_patches", "initial_patches"),
    ("Release/asar.dll", "asar.dll"),
    ("Release/ASAR_LICENSE", "ASAR_LICENSE"),
    ("Release/callisto.exe", "callisto.exe"),
    ("Release/eloper.exe", "eloper.exe"),
    ("Release/LICENSE", "LICENSE")]

  /**
   * The copies compile_callisto makes: a fragment that is a file is copied
   * as one, anything else as a directory tree.
   */
  function FragmentCopies(output: string, buildFolder: string, fragments: seq<(string, string)>, files: set<string>): (r: seq<Copy>)
    ensures |r| == |fragments|
    ensures forall k :: 0 <= k < |fragments| ==>
      && r[k].from == buildFolder + "/callisto/" + fragments[k].0
      && r[k].to == output + "/" + fragments[k].1
      && (r[k].CopyFile? <==> r[k].from in files)
  {
    seq(|fragments|, k requires 0 <= k < |fragments| =>
      var from := buildFolder + "/callisto/" + fragments[k].0;
      var to := output + "/" + fragments[k].1;
      if from in files then CopyFile(from, to) else CopyTree(from, to))
  }

  /** No two fragments are copied to the same place in the package. */
  lemma FragmentTargetsDistinct(output: string, buildFolder: string, files: set<string>)
    ensures var r := FragmentCopies(output, buildFolder, BuildOutputFragments, files);
      forall i, j :: 0 <= i < j < |r| ==> r[i].to != r[j].to
  {
    var r := FragmentCopies(output, buildFolder, BuildOutputFragments, files);
    forall i, j | 0 <= i < j < |r| ensures r[i].to != r[j].to {
      var a, b := BuildOutputFragments[i].1, BuildOutputFragments[j].1;
      assert a != b;
      assert (output + "/" + a)[|output| + 1..] == a;
      assert (output + "/" + b)[|output| + 1..] == b;
    }
  }
}
