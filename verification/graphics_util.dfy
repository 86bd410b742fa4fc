/**
 * The naming rule for graphics files. Every .bin file in the "Graphics"
 * folder must be called GFXnn.bin and every .bin file in "ExGraphics" must
 * be called ExGFXnn.bin or ExGFXnnn.bin, with the number in upper-case
 * hexadecimal and inside the range the slot kind allows. Files with any
 * other extension are ignored.
 *
 * The check as callisto writes it neither looks at the "GFX"/"ExGFX" prefix
 * nor demands that std::stoi read the whole number part, so it is modelled
 * twice: as written (VerifyStemAsWritten) and as intended (VerifyStem).
 */
module GraphicsUtil {
  import opened Wrappers
  import opened Strings
  import Numerals
  import Paths

  /** Why a graphics file name was refused: not in the standard format, or a number part std::stoi reads no digit of. */
  datatype FilenameError =
    | NotStandard(start: string, name: string)
    | NoDigits(name: string)

  /** The name every file of the folder starts with. */
  function Start(exgfx: bool): string
  {
    if exgfx then "ExGFX" else "GFX"
  }

  /** Some letter of s is lower-case, so std::toupper changes s. */
  predicate HasLower(s: string)
  {
    exists k :: 0 <= k < |s| && Numerals.IsLower(s[k])
  }

  /**
   * The graphics slots a number of the given width names: the 0x34 GFX files
   * 00-33, and the ExGFX files 60-63, 80-FF and 100 upwards.
   */
  predicate SlotExists(number: nat, width: nat, exgfx: bool)
  {
    if !exgfx then width == 2 && number < 0x34
    else if width == 2 then number in {0x60, 0x61, 0x62, 0x63} || 0x80 <= number
    else width == 3 && 0x100 <= number
  }

  /** The standard name: the prefix, then two or three upper-case hexadecimal digits naming an existing slot. */
  predicate StandardStem(stem: string, exgfx: bool)
  {
    var start := Start(exgfx);
    && StartsWith(stem, start)
    && (|stem| == |start| + 2 || |stem| == |start| + 3)
    && Numerals.AllUpperHex(stem[|start|..])
    && SlotExists(Numerals.ParseHex(stem[|start|..]), |stem| - |start|, exgfx)
  }

  /** The range checks made once the number is read, in the order the source makes them. */
  function CheckNumber(number: int, parsed: nat, exgfx: bool, name: string): (r: Result<(), FilenameError>)
    requires parsed == 2 || parsed == 3
    ensures r.Success? <==> number >= 0 && SlotExists(number as nat, parsed, exgfx)
  {
    var fail := Failure(NotStandard(Start(exgfx), name));
    if !exgfx then
      if parsed != 2 || number < 0 || number > 0x33 then fail else Success(())
    else if parsed == 2 then
      if number < 0x60 || (number > 0x63 && number < 0x80) then fail else Success(())
    else if number < 0x100 then fail
    else Success(())
  }

  /**
   * verifyFilename on the stem of a .bin file, as written: the length, then
   * no lower-case letter in what follows the first |start| characters, then
   * std::stoi in base 16 on that number part. The number part is
   * substr(|start|, 3), which is the rest of the stem once the length check
   * has passed.
   */
  function VerifyStemAsWritten(stem: string, exgfx: bool, name: string): (r: Result<(), FilenameError>)
    ensures r.Success? ==>
      && |Start(exgfx)| + 2 <= |stem| <= |Start(exgfx)| + 3
      && !HasLower(stem[|Start(exgfx)|..])
      && Numerals.StoiHex(stem[|Start(exgfx)|..]).Some?
  {
    var start := Start(exgfx);
    var fail := Failure(NotStandard(start, name));
    if |stem| < |start| + 2 || |stem| > |start| + 3 then fail
    else
      var numberPart := stem[|start|..];
      if HasLower(numberPart) then fail
      else match Numerals.StoiHex(numberPart)
        case None => Failure(NoDigits(name))
        case Some((number, parsed)) =>
          if parsed != 2 && parsed != 3 then fail
          else CheckNumber(number, parsed, exgfx, name)
  }

  /** verifyFilename as written: files that are not .bin pass, the others have their stem checked. */
  function VerifyFilenameAsWritten(path: Paths.Path, exgfx: bool): (r: Result<(), FilenameError>)
    ensures Paths.Extension(Paths.FileName(path)) != ".bin" ==> r.Success?
  {
    var name := Paths.FileName(path);
    if Paths.Extension(name) != ".bin" then Success(())
    else VerifyStemAsWritten(Paths.Stem(name), exgfx, name)
  }

  /** Upper-case hexadecimal digits are never lower-case letters. */
  lemma UpperHexHasNoLower(s: string)
    requires Numerals.AllUpperHex(s)
    ensures !HasLower(s)
  {
    forall k | 0 <= k < |s| ensures !Numerals.IsLower(s[k]) {
      assert Numerals.IsUpperHexDigit(s[k]);
    }
  }

  /** Whatever has the standard form passes the check as written. */
  lemma AsWrittenAcceptsStandard(stem: string, exgfx: bool, name: string)
    requires StandardStem(stem, exgfx)
    ensures VerifyStemAsWritten(stem, exgfx, name).Success?
  {
    var numberPart := stem[|Start(exgfx)|..];
    UpperHexHasNoLower(numberPart);
    assert Numerals.AllHex(numberPart) by {
      forall k | 0 <= k < |numberPart| ensures Numerals.IsHexDigit(numberPart[k]) {
        assert Numerals.IsUpperHexDigit(numberPart[k]);
      }
    }
    Numerals.StoiHexOfDigits(numberPart);
  }

  /** The prefix is never compared: "XYZ10.bin" passes as a GFX file. */
  lemma PrefixNotChecked()
    ensures VerifyStemAsWritten("XYZ10", false, "XYZ10.bin").Success?
    ensures !StandardStem("XYZ10", false)
  {
    var numberPart := "XYZ10"[3..];
    assert numberPart == "10";
    assert "XYZ10"[..3] != Start(false) by {
      assert "XYZ10"[..3][0] == 'X';
    }
    UpperHexHasNoLower(numberPart);
    Numerals.StoiHexOfDigits(numberPart);
    assert Numerals.ParseHex(numberPart) == 0x10 by {
      assert numberPart[..1] == "1";
      assert numberPart[..1][..0] == "";
    }
  }

  /** std::stoi stops at the first non-digit: "GFX10Z.bin" passes with the number 0x10. */
  lemma TrailingCharacterAccepted()
    ensures VerifyStemAsWritten("GFX10Z", false, "GFX10Z.bin").Success?
    ensures !StandardStem("GFX10Z", false)
  {
    var numberPart := "GFX10Z"[3..];
    assert numberPart == "10Z";
    assert !HasLower(numberPart);
    assert Numerals.SkipSpaces(numberPart, 0) == 0;
    assert Numerals.PrefixEnd(numberPart, 0) == 0;
    HexRunStops("10Z");
    assert numberPart[0..2] == "10";
    assert Numerals.ParseHex("10") == 0x10 by {
      assert "10"[..1] == "1";
      assert "10"[..1][..0] == "";
    }
    assert !Numerals.IsUpperHexDigit(numberPart[2]);
  }

  /** The hexadecimal run of "10Z" is its first two characters. */
  lemma HexRunStops(s: string)
    requires s == "10Z"
    ensures Numerals.HexRun(s, 0) == 2
  {
    assert Numerals.IsHexDigit(s[0]) && Numerals.IsHexDigit(s[1]) && !Numerals.IsHexDigit(s[2]);
    assert Numerals.HexRun(s, 2) == 2;
  }

  /** std::stoi skips leading blanks: "GFX 5.bin" passes as GFX file 5. */
  lemma LeadingSpaceAccepted()
    ensures VerifyStemAsWritten("GFX 5", false, "GFX 5.bin").Success?
    ensures !StandardStem("GFX 5", false)
  {
    var numberPart := "GFX 5"[3..];
    assert numberPart == " 5";
    assert !HasLower(numberPart);
    assert Numerals.SkipSpaces(numberPart, 1) == 1;
    assert Numerals.SkipSpaces(numberPart, 0) == 1;
    assert Numerals.SignEnd(numberPart, 1) == 1;
    assert Numerals.PrefixEnd(numberPart, 1) == 1;
    assert Numerals.HexRun(numberPart, 2) == 2;
    assert Numerals.HexRun(numberPart, 1) == 2;
    assert numberPart[1..2] == "5";
    assert Numerals.ParseHex("5") == 5 by {
      assert "5"[..0] == "";
    }
    assert !Numerals.IsUpperHexDigit(numberPart[0]);
  }

  /**
   * verifyFilename's check of a stem as its comments describe it: the
   * prefix, two or three characters after it, all upper-case hexadecimal
   * digits, and a number inside the allowed range.
   */
  function VerifyStem(stem: string, exgfx: bool, name: string): (r: Result<(), FilenameError>)
    ensures r.Success? <==> StandardStem(stem, exgfx)
    ensures r.Failure? ==> r.error == NotStandard(Start(exgfx), name)
  {
    var start := Start(exgfx);
    if |stem| < |start| + 2 || |stem| > |start| + 3 then Failure(NotStandard(start, name))
    else if !StartsWith(stem, start) then Failure(NotStandard(start, name))
    else
      var numberPart := stem[|start|..];
      if !Numerals.AllUpperHex(numberPart) then Failure(NotStandard(start, name))
      else
        UpperHexIsHex(numberPart);
        CheckNumber(Numerals.ParseHex(numberPart), |numberPart|, exgfx, name)
  }

  lemma UpperHexIsHex(s: string)
    requires Numerals.AllUpperHex(s)
    ensures Numerals.AllHex(s)
  {
    forall k | 0 <= k < |s| ensures Numerals.IsHexDigit(s[k]) {
      assert Numerals.IsUpperHexDigit(s[k]);
    }
  }

  /** verifyFilename as intended: files that are not .bin pass, the others must have a standard stem. */
  function VerifyFilename(path: Paths.Path, exgfx: bool): (r: Result<(), FilenameError>)
    ensures r.Success? <==>
      Paths.Extension(Paths.FileName(path)) != ".bin" || StandardStem(Paths.Stem(Paths.FileName(path)), exgfx)
  {
    var name := Paths.FileName(path);
    if Paths.Extension(name) != ".bin" then Success(())
    else
      VerifyStem(Paths.Stem(name), exgfx, name)
  }

  /** Whatever the corrected check accepts, the check as written accepts too. */
  lemma CorrectedNarrowsAsWritten(path: Paths.Path, exgfx: bool)
    ensures VerifyFilename(path, exgfx).Success? ==> VerifyFilenameAsWritten(path, exgfx).Success?
  {
    var name := Paths.FileName(path);
    if Paths.Extension(name) == ".bin" && StandardStem(Paths.Stem(name), exgfx) {
      AsWrittenAcceptsStandard(Paths.Stem(name), exgfx, name);
    }
  }

  /** The check verifyFilenames makes on one file: the source's, or the corrected one. */
  function FileVerdict(path: Paths.Path, exgfx: bool, asWritten: bool): (r: Result<(), FilenameError>)
  {
    if asWritten then VerifyFilenameAsWritten(path, exgfx) else VerifyFilename(path, exgfx)
  }

  /** The verdict on every file of a folder, in listing order. */
  function Verdicts(folder: seq<Paths.Path>, exgfx: bool, asWritten: bool): (r: seq<Result<(), FilenameError>>)
    ensures |r| == |folder| && forall k :: 0 <= k < |folder| ==> r[k] == FileVerdict(folder[k], exgfx, asWritten)
  {
    seq(|folder|, k requires 0 <= k < |folder| => FileVerdict(folder[k], exgfx, asWritten))
  }

  /**
   * verifyFilenames: the first file of the folder that fails stops the
   * check. asWritten selects the source's per-file check, which is what
   * verifyFilenames calls; otherwise the corrected one.
   */
  function VerifyFilenames(folder: seq<Paths.Path>, exgfx: bool, asWritten: bool): (r: Result<(), FilenameError>)
    ensures r.Success? <==> forall k :: 0 <= k < |folder| ==> FileVerdict(folder[k], exgfx, asWritten).Success?
    ensures r.Failure? ==> exists k :: FailsFirstAt(Verdicts(folder, exgfx, asWritten), k, r.error)
  {
    FirstFailure(Verdicts(folder, exgfx, asWritten))
  }

  /** A folder the corrected check accepts passes the source's check too. */
  lemma FolderCorrectedNarrowsAsWritten(folder: seq<Paths.Path>, exgfx: bool)
    requires VerifyFilenames(folder, exgfx, false).Success?
    ensures VerifyFilenames(folder, exgfx, true).Success?
  {
    forall k | 0 <= k < |folder| ensures FileVerdict(folder[k], exgfx, true).Success? {
      assert FileVerdict(folder[k], exgfx, false).Success?;
      CorrectedNarrowsAsWritten(folder[k], exgfx);
    }
  }

  /** A folder holding only "XYZ10.bin" passes the source's check but not the corrected one. */
  lemma FolderPrefixNotChecked(path: Paths.Path)
    requires Paths.FileName(path) == "XYZ10.bin"
    ensures VerifyFilenames([path], false, true).Success?
    ensures VerifyFilenames([path], false, false).Failure?
  {
    assert "XYZ10" + "." + "bin" == "XYZ10.bin";
    Paths.ExtensionOfStem("XYZ10", "bin");
    var e := Paths.Extension("XYZ10.bin");
    assert "XYZ10.bin"[..|"XYZ10.bin"| - |e|] == "XYZ10";
    PrefixNotChecked();
    assert FileVerdict(path, false, true).Success?;
    assert FileVerdict(path, false, false).Failure?;
  }
}
