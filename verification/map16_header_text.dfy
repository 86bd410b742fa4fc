/**
 * header.txt, the text form of a Map16 header. from_map16 writes it with
 * write_header_file; to_map16 checks it line by line with verify_header_file
 * and reads it back with parse_header_file. The file is split into lines the
 * way std::getline splits it, every number is printed with printf's %X, and
 * the comment is printed between double quotes.
 */
module Map16HeaderText {
  import opened Wrappers
  import opened Numerals
  import opened Bytes
  import opened Strings
  import opened Map16Header

  /** The variable each of the eleven lines names, in order. */
  const HeaderVars: seq<string> := [
    "file_format_version_number", "game_id", "program_version", "program_id",
    "size_x", "size_y", "base_x", "base_y",
    "is_full_game_export", "has_tileset_specific_page_2", "comment_field"]

  /** The most hexadecimal digits each of the first ten values may have. */
  const MaxDigits: seq<nat> := [4, 4, 4, 4, 8, 8, 8, 8, 1, 1]

  /** The index of the comment line, the only one that is not a number. */
  const CommentLine: nat := 10

  /** What parse_header_file looks for in each line to find the comment: "comment_field: \"". */
  const CommentStart: string := HeaderVars[CommentLine] + ": \""

  datatype HeaderTextError =
    | HeaderFileMissing
    | WrongLineCount(count: nat)
    | WrongVariable(line: nat)
    | NonHexValue(line: nat)
    | ValueTooLong(line: nat)
    | MissingValue(line: nat)
    | FlagNotBoolean(line: nat)
    | CommentValueMissing
    | MissingOpeningQuote
    | MissingClosingQuote

  /** "<name>: ", what line i must start with. */
  function Prefix(i: nat): (p: string)
    requires i < 11
  {
    HeaderVars[i] + ": "
  }

  /** The lines std::getline reads: a final newline does not start another line. */
  function GetLines(text: string): (ls: seq<string>)
    ensures |ls| == 0 <==> |text| == 0
    decreases |text|
  {
    if |text| == 0 then []
    else match FindFrom(text, "\n", 0)
      case None => [text]
      case Some(k) => [text[..k]] + GetLines(text[k + 1..])
  }

  /** The lines written one after another, each ended by a newline. */
  function JoinLines(ls: seq<string>): (text: string)
  {
    if |ls| == 0 then [] else ls[0] + "\n" + JoinLines(ls[1..])
  }

  predicate NoLineBreaks(ls: seq<string>)
  {
    forall i :: 0 <= i < |ls| ==> Lacks(ls[i], '\n')
  }

  /** Lines without line breaks, written out, are read back as the same lines. */
  lemma {:induction false} GetLinesOfJoin(ls: seq<string>)
    requires NoLineBreaks(ls)
    ensures GetLines(JoinLines(ls)) == ls
  {
    if |ls| > 0 {
      var rest := JoinLines(ls[1..]);
      var t := JoinLines(ls);
      assert t == ls[0] + ['\n'] + rest;
      FindCharAfter(ls[0], '\n', rest, 0);
      assert t[..|ls[0]|] == ls[0];
      assert t[|ls[0]| + 1..] == rest;
      assert NoLineBreaks(ls[1..]) by {
        forall i | 0 <= i < |ls[1..]|
          ensures Lacks(ls[1..][i], '\n')
        {
          assert ls[1..][i] == ls[i + 1];
        }
      }
      GetLinesOfJoin(ls[1..]);
    }
  }

  datatype DigitFault = NotHex | TooLong

  /**
   * The digit loop of verify_header_file: each character is first checked to
   * be an upper-case hexadecimal digit and only then counted against max.
   */
  function CheckDigits(v: string, max: nat): (r: Option<DigitFault>)
    ensures r.None? <==> AllUpperHex(v) && |v| <= max
    ensures r == Some(NotHex) <==> exists j :: 0 <= j < |v| && j <= max && !IsUpperHexDigit(v[j])
  {
    if |v| == 0 then None
    else if !IsUpperHexDigit(v[0]) then Some(NotHex)
    else if max == 0 then Some(TooLong)
    else
      var r := CheckDigits(v[1..], max - 1);
      assert forall j :: 1 <= j < |v| ==> v[j] == v[1..][j - 1];
      r
  }

  /** The checks verify_header_file makes of line i; the value after "<name>: " on success. */
  function CheckLine(i: nat, line: string): (r: Result<string, HeaderTextError>)
    requires i < 11
    ensures r.Success? ==> StartsWith(line, Prefix(i)) && r.value == line[|Prefix(i)|..]
    ensures r.Success? && i < CommentLine ==> AllUpperHex(r.value) && 1 <= |r.value| <= MaxDigits[i]
  {
    var p := Prefix(i);
    if !StartsWith(line, p) then Failure(WrongVariable(i))
    else
      var v := line[|p|..];
      if i < CommentLine then
        match CheckDigits(v, MaxDigits[i])
        case Some(NotHex) => Failure(NonHexValue(i))
        case Some(TooLong) => Failure(ValueTooLong(i))
        case None =>
          if |v| == 0 then Failure(MissingValue(i))
          else if i >= 8 && v[0] != '0' && v[0] != '1' then Failure(FlagNotBoolean(i))
          else Success(v)
      else if |v| == 0 then Failure(CommentValueMissing)
      else if v[0] != '"' then Failure(MissingOpeningQuote)
      else if v[|v| - 1] != '"' then Failure(MissingClosingQuote)
      else Success(v)
  }

  /** What a well-formed line i of header.txt looks like. */
  predicate ValidLine(i: nat, line: string)
    requires i < 11
  {
    StartsWith(line, Prefix(i)) &&
    var v := line[|Prefix(i)|..];
    if i < CommentLine then
      1 <= |v| <= MaxDigits[i] && AllUpperHex(v) && (i >= 8 ==> v[0] == '0' || v[0] == '1')
    else
      |v| >= 1 && v[0] == '"' && v[|v| - 1] == '"'
  }

  /** A line passes its checks exactly when it is well formed. */
  lemma CheckLineValid(i: nat, line: string)
    requires i < 11
    ensures CheckLine(i, line).Success? <==> ValidLine(i, line)
  {
  }

  /** The checks of lines i to 10, in order; their values on success. */
  function VerifyFrom(lines: seq<string>, i: nat): (r: Result<seq<string>, HeaderTextError>)
    requires |lines| == 11 && i <= 11
    ensures r.Success? ==> |r.value| == 11 - i
    ensures r.Success? ==> forall k :: 0 <= k < |r.value| ==> CheckLine(i + k, lines[i + k]) == Success(r.value[k])
    decreases 11 - i
  {
    if i == 11 then Success([])
    else match CheckLine(i, lines[i])
      case Failure(e) => Failure(e)
      case Success(v) =>
        match VerifyFrom(lines, i + 1)
        case Failure(e) => Failure(e)
        case Success(rest) =>
          assert forall k :: 1 <= k < 1 + |rest| ==> ([v] + rest)[k] == rest[k - 1];
          Success([v] + rest)
  }

  /**
   * verify_header_file on the lines of header.txt: exactly eleven lines, each
   * checked in turn; the first failing line decides the error.
   */
  function VerifyHeaderLines(lines: seq<string>): (r: Result<seq<string>, HeaderTextError>)
    ensures |lines| != 11 ==> r == Failure(WrongLineCount(|lines|))
    ensures r.Success? ==> |lines| == 11 && |r.value| == 11
    ensures r.Success? ==> forall k :: 0 <= k < 11 ==> CheckLine(k, lines[k]) == Success(r.value[k])
  {
    if |lines| != 11 then Failure(WrongLineCount(|lines|)) else VerifyFrom(lines, 0)
  }

  predicate WellFormedLines(lines: seq<string>)
  {
    |lines| == 11 && forall i :: 0 <= i < 11 ==> ValidLine(i, lines[i])
  }

  lemma {:induction false} VerifyFromValid(lines: seq<string>, i: nat)
    requires |lines| == 11 && i <= 11
    ensures VerifyFrom(lines, i).Success? <==> forall k :: i <= k < 11 ==> ValidLine(k, lines[k])
    decreases 11 - i
  {
    if i < 11 {
      CheckLineValid(i, lines[i]);
      VerifyFromValid(lines, i + 1);
    }
  }

  /** header.txt passes verification exactly when it has eleven well-formed lines. */
  lemma VerifyHeaderLinesValid(lines: seq<string>)
    ensures VerifyHeaderLines(lines).Success? <==> WellFormedLines(lines)
  {
    if |lines| == 11 {
      VerifyFromValid(lines, 0);
    }
  }

  /** The first ill-formed line is the one whose error is reported. */
  lemma FirstBadLine(lines: seq<string>, k: nat)
    requires |lines| == 11 && k < 11
    requires forall j :: 0 <= j < k ==> ValidLine(j, lines[j])
    requires !ValidLine(k, lines[k])
    ensures VerifyHeaderLines(lines).Failure?
    ensures VerifyHeaderLines(lines).error == CheckLine(k, lines[k]).error
  {
    CheckLineValid(k, lines[k]);
    VerifyFromFirstBad(lines, 0, k);
  }

  lemma {:induction false} VerifyFromFirstBad(lines: seq<string>, i: nat, k: nat)
    requires |lines| == 11 && i <= k < 11
    requires forall j :: i <= j < k ==> ValidLine(j, lines[j])
    requires CheckLine(k, lines[k]).Failure?
    ensures VerifyFrom(lines, i).Failure?
    ensures VerifyFrom(lines, i).error == CheckLine(k, lines[k]).error
    decreases k - i
  {
    if i < k {
      CheckLineValid(i, lines[i]);
      VerifyFromFirstBad(lines, i + 1, k);
    }
  }

  /**
   * The text parse_header_file takes as the comment from one line: what
   * follows the first "comment_field: \"" up to the next double quote, or to
   * the end of the line when there is none.
   */
  function CommentIn(line: string): (r: Option<string>)
    ensures r.Some? <==> exists k :: OccursAt(line, CommentStart, k)
  {
    match FindFrom(line, CommentStart, 0)
    case None => None
    case Some(p) =>
      var pos := p + |CommentStart|;
      match FindFrom(line, "\"", pos)
      case None => Some(line[pos..])
      case Some(e) => Some(line[pos..e])
  }

  /** The comment parse_header_file keeps: the one from the last line that has one, else empty. */
  function CommentOfLines(lines: seq<string>): (c: string)
  {
    if |lines| == 0 then []
    else match CommentIn(lines[|lines| - 1])
      case Some(c) => c
      case None => CommentOfLines(lines[..|lines| - 1])
  }

  /** The values verify_header_file accepts: at most eight upper-case digits for each number. */
  predicate ScannableValues(values: seq<string>)
  {
    |values| == 11 && forall k :: 0 <= k < CommentLine ==> AllUpperHex(values[k]) && |values[k]| <= 8
  }

  /** scanf's %X of a checked value: at most eight digits always fit an unsigned 32-bit word. */
  function Scan(v: string): (w: bv32)
    requires AllUpperHex(v) && |v| <= 8
  {
    UpperIsHex(v);
    ParseHexBound(v);
    PowMonotone(16, |v|, 8);
    assert Pow(16, 8) == 0x1_0000_0000;
    ParseHex(v) as bv32
  }

  lemma UpperIsHex(v: string)
    requires AllUpperHex(v)
    ensures AllHex(v)
  {
  }

  /** The two flag values are single 0/1 digits. */
  predicate FlagDigits(values: seq<string>)
    requires |values| == 11
  {
    (values[8] == "0" || values[8] == "1") && (values[9] == "0" || values[9] == "1")
  }

  /** Number k of the eight header.txt carries, in the order of its lines. */
  function NumberField(h: Header, k: nat): (w: bv32)
    requires k < 8
  {
    if k == 0 then h.fileFormatVersionNumber
    else if k == 1 then h.gameId
    else if k == 2 then h.programVersion
    else if k == 3 then h.programId
    else if k == 4 then h.sizeX
    else if k == 5 then h.sizeY
    else if k == 6 then h.baseX
    else h.baseY
  }

  /**
   * The header parse_header_file builds from checked values: the extra
   * flags and the offset/size table fields stay zero, and the two flags are
   * packed into various_flags_and_info.
   */
  function HeaderOfValues(values: seq<string>, comment: seq<bv8>): (h: Header)
    requires ScannableValues(values) && FlagDigits(values)
    ensures h.extraFlags == 0 && h.offsetSizeTableOffset == 0 && h.offsetSizeTableSize == 0
    ensures h.variousFlagsAndInfo < 4
    ensures IsFullGameExport(h) <==> values[8] == "1"
    ensures HasTilesetSpecificPage2s(h) <==> values[9] == "1"
    ensures h.comment == comment
  {
    var isFull, hasPage2 := Scan(values[8]), Scan(values[9]);
    ScanDigit(values[8]);
    ScanDigit(values[9]);
    var h := Header(Scan(values[0]), Scan(values[1]), Scan(values[2]), Scan(values[3]), 0, 0, 0,
      Scan(values[4]), Scan(values[5]), Scan(values[6]), Scan(values[7]),
      FlagBits(isFull, hasPage2), comment);
    FlagsOfFlagBits(h, isFull, hasPage2);
    h
  }

  /** The eight numbers of the parsed header are the eight scanned values, in order. */
  lemma NumbersOfValues(values: seq<string>, comment: seq<bv8>)
    requires ScannableValues(values) && FlagDigits(values)
    ensures forall k :: 0 <= k < 8 ==> NumberField(HeaderOfValues(values, comment), k) == Scan(values[k])
  {
  }

  /** A flag digit scans as the number it shows. */
  lemma ScanDigit(v: string)
    requires v == "0" || v == "1"
    ensures AllUpperHex(v) && |v| <= 8
    ensures v == "0" ==> Scan(v) == 0
    ensures v == "1" ==> Scan(v) == 1
  {
    assert v[..0] == [];
    if v == "0" {
      assert ParseHex(v) == 0;
    } else {
      assert ParseHex(v) == 1;
    }
  }

  /** Characters of a text file as the bytes std::string holds. */
  function BytesOfChars(s: string): (b: seq<bv8>)
    ensures |b| == |s| && forall k :: 0 <= k < |s| ==> b[k] as int == s[k] as int % 256
  {
    seq(|s|, k requires 0 <= k < |s| => ByteOf(s[k] as int))
  }

  /** Bytes of the comment as the characters %s prints. */
  function CharsOfBytes(b: seq<bv8>): (s: string)
    ensures |s| == |b| && forall k :: 0 <= k < |b| ==> s[k] as int == b[k] as int
  {
    seq(|b|, k requires 0 <= k < |b| => (b[k] as int) as char)
  }

  /** Printing bytes as characters and reading the characters back gives the bytes. */
  lemma BytesOfCharsOfBytes(b: seq<bv8>)
    ensures BytesOfChars(CharsOfBytes(b)) == b
  {
    var c := BytesOfChars(CharsOfBytes(b));
    var s := CharsOfBytes(b);
    forall k | 0 <= k < |b|
      ensures c[k] == b[k]
    {
      assert s[k] == (b[k] as int) as char;
      assert c[k] == ByteOf(s[k] as int);
      ByteCharByte(b[k]);
    }
  }

  lemma ByteCharByte(x: bv8)
    ensures ByteOf(((x as int) as char) as int) == x
  {
    var n := x as int;
    var c := n as char;
    assert c as int == n;
    assert n % 256 == n;
    SameByte(ByteOf(c as int), x);
  }

  lemma SameByte(x: bv8, y: bv8)
    requires x as int == y as int
    ensures x == y
  {
    assert (x as int) as bv8 == x;
    assert (y as int) as bv8 == y;
  }

  /** parse_header_file: verify header.txt, scan its ten numbers, then find the comment. */
  function ParseHeaderFile(file: Option<string>): (r: Result<Header, HeaderTextError>)
    ensures r.Success? <==> file.Some? && WellFormedLines(GetLines(file.value))
    ensures file.None? ==> r == Failure(HeaderFileMissing)
    ensures r.Success? ==> r.value.extraFlags == 0 && r.value.offsetSizeTableOffset == 0 && r.value.offsetSizeTableSize == 0
    ensures r.Success? ==> r.value.variousFlagsAndInfo < 4
  {
    if file.None? then Failure(HeaderFileMissing)
    else
      var lines := GetLines(file.value);
      VerifyHeaderLinesValid(lines);
      match VerifyHeaderLines(lines)
      case Failure(e) => Failure(e)
      case Success(values) =>
        CheckedValues(lines, values);
        Success(HeaderOfValues(values, BytesOfChars(CommentOfLines(lines))))
  }

  /** The values of a verified header.txt can be scanned, and the flags are 0/1 digits. */
  lemma CheckedValues(lines: seq<string>, values: seq<string>)
    requires |lines| == 11 && |values| == 11
    requires forall k :: 0 <= k < 11 ==> CheckLine(k, lines[k]) == Success(values[k])
    ensures ScannableValues(values) && FlagDigits(values)
  {
    FlagValue(8, lines[8], values[8]);
    FlagValue(9, lines[9], values[9]);
    forall k | 0 <= k < CommentLine
      ensures AllUpperHex(values[k]) && |values[k]| <= 8
    {
      assert CheckLine(k, lines[k]) == Success(values[k]);
    }
  }

  lemma FlagValue(i: nat, line: string, v: string)
    requires i == 8 || i == 9
    requires CheckLine(i, line) == Success(v)
    ensures v == "0" || v == "1"
  {
    CheckLineValid(i, line);
    assert v == [v[0]];
  }

  /** The bytes %s prints of comment.c_str(): everything before the first NUL byte. */
  function CutAtNul(b: seq<bv8>): (r: seq<bv8>)
    ensures r <= b
    ensures forall k :: 0 <= k < |r| ==> r[k] != 0
    ensures |r| < |b| ==> b[|r|] == 0
  {
    if |b| == 0 || b[0] == 0 then [] else [b[0]] + CutAtNul(b[1..])
  }

  /** %X of a bool. */
  function Bit(b: bool): (s: string)
  {
    if b then "1" else "0"
  }

  /** The eleven values write_header_file prints, the comment with its quotes. */
  function HeaderValues(h: Header): (vs: seq<string>)
    ensures |vs| == 11
  {
    seq(8, k requires 0 <= k < 8 => ToHex(NumberField(h, k) as int)) +
    [Bit(IsFullGameExport(h)), Bit(HasTilesetSpecificPage2s(h)),
     "\"" + CharsOfBytes(CutAtNul(h.comment)) + "\""]
  }

  function HeaderLines(h: Header): (ls: seq<string>)
    ensures |ls| == 11
  {
    seq(11, i requires 0 <= i < 11 => Prefix(i) + HeaderValues(h)[i])
  }

  /** write_header_file: the eleven lines, each ended by a newline. */
  function WriteHeaderText(h: Header): (text: string)
  {
    JoinLines(HeaderLines(h))
  }

  /** The four 16-bit fields (the first four numbers) hold values %X prints in at most four digits. */
  predicate ShortFieldsFit(h: Header)
  {
    forall k :: 0 <= k < 4 ==> NumberField(h, k) < 0x10000
  }

  /** A comment that neither closes its quotes early nor breaks its line. */
  predicate PlainComment(c: seq<bv8>)
  {
    forall k :: 0 <= k < |c| ==> c[k] != 0x22 && c[k] != 0x0A
  }

  /** What a header read back from header.txt keeps of the header that was written. */
  predicate TextReadsBackAs(g: Header, h: Header)
  {
    (forall k :: 0 <= k < 8 ==> NumberField(g, k) == NumberField(h, k)) &&
    g.extraFlags == 0 && g.offsetSizeTableOffset == 0 && g.offsetSizeTableSize == 0 &&
    (IsFullGameExport(g) <==> IsFullGameExport(h)) &&
    (HasTilesetSpecificPage2s(g) <==> HasTilesetSpecificPage2s(h)) &&
    g.variousFlagsAndInfo < 4 &&
    g.comment == CutAtNul(h.comment)
  }

  /**
   * header.txt written from a header verifies and parses back to the same
   * numbers, flags and comment, as long as the 16-bit fields fit four digits
   * and the comment has no double quote or line break.
   */
  lemma HeaderTextRoundTrip(h: Header)
    requires ShortFieldsFit(h) && PlainComment(CutAtNul(h.comment))
    ensures ParseHeaderFile(Some(WriteHeaderText(h))).Success?
    ensures TextReadsBackAs(ParseHeaderFile(Some(WriteHeaderText(h))).value, h)
  {
    hide *;
    var c := CutAtNul(h.comment);
    WrittenLines(h);
    HeaderLinesVerify(h);
    ParseOfVerified(WriteHeaderText(h), HeaderValues(h));
    CommentOfHeaderLines(h);
    BytesOfCharsOfBytes(c);
    ValuesReadBack(h);
  }

  /** The lines of a written header.txt are the lines written. */
  lemma WrittenLines(h: Header)
    requires ShortFieldsFit(h) && PlainComment(CutAtNul(h.comment))
    ensures GetLines(WriteHeaderText(h)) == HeaderLines(h)
  {
    HeaderLinesVerify(h);
    GetLinesOfJoin(HeaderLines(h));
  }

  /** A header.txt whose lines verify parses to the header built from the verified values. */
  lemma ParseOfVerified(text: string, values: seq<string>)
    requires VerifyHeaderLines(GetLines(text)) == Success(values)
    ensures ScannableValues(values) && FlagDigits(values)
    ensures ParseHeaderFile(Some(text)) == Success(HeaderOfValues(values, BytesOfChars(CommentOfLines(GetLines(text)))))
  {
    CheckedValues(GetLines(text), values);
  }

  lemma HeaderLinesVerify(h: Header)
    requires ShortFieldsFit(h) && PlainComment(CutAtNul(h.comment))
    ensures NoLineBreaks(HeaderLines(h))
    ensures VerifyHeaderLines(HeaderLines(h)) == Success(HeaderValues(h))
  {
    HeaderLinesCheck(h);
    VerifiedValues(HeaderLines(h), HeaderValues(h));
  }

  lemma HeaderLinesCheck(h: Header)
    requires ShortFieldsFit(h) && PlainComment(CutAtNul(h.comment))
    ensures NoLineBreaks(HeaderLines(h))
    ensures forall i :: 0 <= i < 11 ==> CheckLine(i, HeaderLines(h)[i]) == Success(HeaderValues(h)[i])
  {
    var ls := HeaderLines(h);
    var vs := HeaderValues(h);
    forall i | 0 <= i < 11
      ensures CheckLine(i, ls[i]) == Success(vs[i]) && Lacks(ls[i], '\n')
    {
      ValueChecks(h, i);
      LineChecks(i, vs[i]);
    }
  }

  /** Lines that each pass their checks with the given values verify to those values. */
  lemma VerifiedValues(lines: seq<string>, vs: seq<string>)
    requires |lines| == 11 && |vs| == 11
    requires forall i :: 0 <= i < 11 ==> CheckLine(i, lines[i]) == Success(vs[i])
    ensures VerifyHeaderLines(lines) == Success(vs)
  {
    AllLinesValid(lines, vs);
    VerifyHeaderLinesValid(lines);
    var r := VerifyHeaderLines(lines);
    forall k | 0 <= k < 11 ensures r.value[k] == vs[k] {
      assert CheckLine(k, lines[k]) == Success(r.value[k]);
    }
    assert r.value == vs;
  }

  lemma AllLinesValid(lines: seq<string>, vs: seq<string>)
    requires |lines| == 11 && |vs| == 11
    requires forall i :: 0 <= i < 11 ==> CheckLine(i, lines[i]) == Success(vs[i])
    ensures WellFormedLines(lines)
  {
    forall i | 0 <= i < 11
      ensures ValidLine(i, lines[i])
    {
      CheckLineValid(i, lines[i]);
    }
  }

  /** Value i of a written header has the shape line i demands. */
  lemma ValueChecks(h: Header, i: nat)
    requires ShortFieldsFit(h) && PlainComment(CutAtNul(h.comment)) && i < 11
    ensures ValueShape(i, HeaderValues(h)[i])
  {
    var vs := HeaderValues(h);
    if i < 8 {
      NumberShape(i, NumberField(h, i));
    } else if i == CommentLine {
      CommentShape(CutAtNul(h.comment));
    }
  }

  lemma NumberShape(i: nat, w: bv32)
    requires i < 8 && (i < 4 ==> w < 0x10000)
    ensures ValueShape(i, ToHex(w as int))
  {
    assert Pow(16, 4) == 0x10000;
    assert Pow(16, 8) == 0x1_0000_0000;
    assert MaxDigits[i] == if i < 4 then 4 else 8;
    ToHexLength(w as int, MaxDigits[i]);
    UpperLacks(ToHex(w as int));
  }

  lemma CommentShape(c: seq<bv8>)
    requires PlainComment(c)
    ensures ValueShape(CommentLine, "\"" + CharsOfBytes(c) + "\"")
  {
    var s := CharsOfBytes(c);
    PlainChars(c);
    var v := "\"" + s + "\"";
    forall k | 0 <= k < |v|
      ensures v[k] != '\n'
    {
      if 0 < k < |v| - 1 {
        assert v[k] == s[k - 1];
      }
    }
  }

  /** The characters printed for a plain comment hold no double quote and no line break. */
  lemma PlainChars(c: seq<bv8>)
    requires PlainComment(c)
    ensures Lacks(CharsOfBytes(c), '\n') && Lacks(CharsOfBytes(c), '"')
  {
    var s := CharsOfBytes(c);
    forall k | 0 <= k < |s|
      ensures s[k] != '\n' && s[k] != '"'
    {
      assert s[k] as int == c[k] as int;
    }
  }

  lemma UpperLacks(v: string)
    requires AllUpperHex(v)
    ensures Lacks(v, '\n')
  {
  }

  /** The shape verify_header_file demands of value i, and no line break. */
  predicate ValueShape(i: nat, v: string)
    requires i < 11
  {
    Lacks(v, '\n') &&
    if i < CommentLine then
      1 <= |v| <= MaxDigits[i] && AllUpperHex(v) && (i >= 8 ==> v[0] == '0' || v[0] == '1')
    else
      |v| >= 1 && v[0] == '"' && v[|v| - 1] == '"'
  }

  /** "<name>: " followed by a value of the right shape passes line i's checks with that value. */
  lemma LineChecks(i: nat, v: string)
    requires i < 11 && ValueShape(i, v)
    ensures CheckLine(i, Prefix(i) + v) == Success(v)
    ensures Lacks(Prefix(i) + v, '\n')
  {
    var p := Prefix(i);
    var line := p + v;
    assert line[..|p|] == p && line[|p|..] == v;
    PrefixLacks(i);
    CheckLineValid(i, line);
  }

  /** No "<name>: " holds a line break. */
  lemma PrefixLacks(i: nat)
    requires i < 11
    ensures Lacks(Prefix(i), '\n')
  {
    if i < 3 {
      NamesLackA(i);
    } else if i < 6 {
      NamesLackB(i);
    } else if i < 9 {
      NamesLackC(i);
    } else {
      NamesLackD(i);
    }
  }

  lemma NamesLackA(i: nat)
    requires i < 3
    ensures '\n' !in Prefix(i)
  {
  }

  lemma NamesLackB(i: nat)
    requires 3 <= i < 6
    ensures '\n' !in Prefix(i)
  {
  }

  lemma NamesLackC(i: nat)
    requires 6 <= i < 9
    ensures '\n' !in Prefix(i)
  {
  }

  lemma NamesLackD(i: nat)
    requires 9 <= i < 11
    ensures '\n' !in Prefix(i)
  {
  }

  /** The comment line of a written header gives back the printed comment. */
  lemma CommentOfHeaderLines(h: Header)
    requires PlainComment(CutAtNul(h.comment))
    ensures CommentOfLines(HeaderLines(h)) == CharsOfBytes(CutAtNul(h.comment))
  {
    var ls := HeaderLines(h);
    var s := CharsOfBytes(CutAtNul(h.comment));
    PlainChars(CutAtNul(h.comment));
    CommentLineText(h);
    CommentInPlain(s);
  }

  lemma CommentLineText(h: Header)
    ensures HeaderLines(h)[10] == CommentStart + CharsOfBytes(CutAtNul(h.comment)) + "\""
  {
    hide *;
    var s := CharsOfBytes(CutAtNul(h.comment));
    LineOfValue(h, 10);
    CommentValue(h);
    CommentStartIs();
  }

  lemma LineOfValue(h: Header, i: nat)
    requires i < 11
    ensures HeaderLines(h)[i] == Prefix(i) + HeaderValues(h)[i]
  {
  }

  lemma CommentValue(h: Header)
    ensures HeaderValues(h)[10] == "\"" + CharsOfBytes(CutAtNul(h.comment)) + "\""
  {
  }

  lemma CommentStartIs()
    ensures CommentStart == Prefix(CommentLine) + "\""
    ensures CommentLine == 10
  {
  }

  /** A line "comment_field: \"<s>\"" with no quote inside s holds the comment s. */
  lemma CommentInPlain(s: string)
    requires Lacks(s, '"')
    ensures CommentIn(CommentStart + s + "\"") == Some(s)
  {
    var line := CommentStart + s + "\"";
    assert line[0..|CommentStart|] == CommentStart;
    assert FindFrom(line, CommentStart, 0) == Some(0);
    var a := CommentStart + s;
    forall k | |CommentStart| <= k < |a|
      ensures a[k] != '"'
    {
      assert a[k] == s[k - |CommentStart|];
    }
    FindCharAfter(a, '"', [], |CommentStart|);
    assert line == a + ['"'] + [];
    assert line[|CommentStart|..|a|] == s;
  }

  /** %X of a word, scanned, gives the word back. */
  lemma ScanOfHex(w: bv32)
    ensures AllUpperHex(ToHex(w as int)) && |ToHex(w as int)| <= 8
    ensures Scan(ToHex(w as int)) == w
  {
    assert Pow(16, 8) == 0x1_0000_0000;
    ToHexLength(w as int, 8);
    assert (w as int) as bv32 == w;
  }

  /** Scanning the printed values gives the header's numbers and flags back. */
  lemma ValuesReadBack(h: Header)
    requires ShortFieldsFit(h) && PlainComment(CutAtNul(h.comment))
    ensures ScannableValues(HeaderValues(h)) && FlagDigits(HeaderValues(h))
    ensures TextReadsBackAs(HeaderOfValues(HeaderValues(h), CutAtNul(h.comment)), h)
  {
    hide *;
    var vs := HeaderValues(h);
    var c := CutAtNul(h.comment);
    NumbersScan(h);
    FlagsScan(h);
    NumbersOfValues(vs, c);
    BitIsOne(IsFullGameExport(h));
    BitIsOne(HasTilesetSpecificPage2s(h));
    ReadsBackIntro(HeaderOfValues(vs, c), h);
  }

  lemma NumbersScan(h: Header)
    ensures forall k :: 0 <= k < 8 ==>
      AllUpperHex(HeaderValues(h)[k]) && |HeaderValues(h)[k]| <= 8 && Scan(HeaderValues(h)[k]) == NumberField(h, k)
  {
    forall k | 0 <= k < 8
      ensures AllUpperHex(HeaderValues(h)[k]) && |HeaderValues(h)[k]| <= 8 && Scan(HeaderValues(h)[k]) == NumberField(h, k)
    {
      NumberScan(h, k);
    }
  }

  lemma NumberScan(h: Header, k: nat)
    requires k < 8
    ensures AllUpperHex(HeaderValues(h)[k]) && |HeaderValues(h)[k]| <= 8 && Scan(HeaderValues(h)[k]) == NumberField(h, k)
  {
    var w := NumberField(h, k);
    assert HeaderValues(h)[k] == ToHex(w as int);
    ScanOfHex(w);
  }

  lemma FlagsScan(h: Header)
    ensures |HeaderValues(h)| == 11
    ensures HeaderValues(h)[8] == Bit(IsFullGameExport(h)) && HeaderValues(h)[9] == Bit(HasTilesetSpecificPage2s(h))
    ensures forall k :: 0 <= k < 8 ==> AllUpperHex(HeaderValues(h)[k]) && |HeaderValues(h)[k]| <= 8
    ensures ScannableValues(HeaderValues(h)) && FlagDigits(HeaderValues(h))
  {
    var vs := HeaderValues(h);
    NumbersScan(h);
    ScanDigit(vs[8]);
    ScanDigit(vs[9]);
  }

  lemma BitIsOne(b: bool)
    ensures Bit(b) == "1" <==> b
  {
  }

  lemma ReadsBackIntro(g: Header, h: Header)
    requires forall k :: 0 <= k < 8 ==> NumberField(g, k) == NumberField(h, k)
    requires g.extraFlags == 0 && g.offsetSizeTableOffset == 0 && g.offsetSizeTableSize == 0
    requires (IsFullGameExport(g) <==> IsFullGameExport(h)) && (HasTilesetSpecificPage2s(g) <==> HasTilesetSpecificPage2s(h))
    requires g.variousFlagsAndInfo < 4 && g.comment == CutAtNul(h.comment)
    ensures TextReadsBackAs(g, h)
  {
  }
}
