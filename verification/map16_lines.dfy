/**
 * One line of a text Map16 page file and its strict validation.
 *
 * A full line reads "TTTT: AAAA { NNN P XYP  NNN P XYP  NNN P XYP  NNN P XYP }"
 * (tile number, acts-like setting, four 8x8 tiles), a tiles-only line leaves
 * the acts-like field blank, an acts-like-only line stops after it, and
 * "TTTT: ~" is the shorthand for Lunar Magic's empty tile. The validators
 * walk the line with a character index exactly as to_map16 does; the
 * from_map16 printers produce the lines, and the round-trip lemmas show that
 * every printed line converts back to the bytes it was printed from.
 */
module Map16Lines {
  import opened Wrappers
  import opened Numerals
  import opened Bytes
  import opened Map16Tiles
  import opened Nibbles
  import opened Strings

  datatype LineError =
    | EndInTileNumber | WrongTileNumber
    | EndBeforeShorthand | TrailingAfterShorthand | ShorthandNotAllowed
    | EndInActsLike | ActsLikeNotHex | ActsLikeTooLarge
    | EndInBlankActsField | BlankActsFieldNotBlank
    | EndIn8x8Tiles | BadOpeningBracket | BadSeparator | BadClosingBracket
    | EndIn8x8Tile | TileDigitsNotUppercase | Malformed8x8Tile | TileNumberTooLarge
    | PaletteOutOfRange | BadXFlip | BadYFlip | BadPriority
    | TrailingCharacters
    | TilesUnassigned    // convert_full's sscanf stops inside the acts-like field and never assigns the tiles

  /** A validated full line. */
  datatype FullLine = FullShorthand | FullSpec(actsLike: bv16, tiles: seq<Tile8>)

  /** A validated tiles-only line. */
  datatype TilesLine = TilesShorthand | TilesSpec(tiles: seq<Tile8>)

  /** "%04X: ": what every line must start with. */
  function TileNumberPrefix(expected: nat): string
  {
    FormatHex(expected, 4) + ": "
  }

  /**
   * Compares the literal lit with the line from idx on, one character at a
   * time: running off the end of the line and a differing character are
   * different errors.
   */
  function MatchLiteral(lit: string, line: string, idx: nat, atEnd: LineError, mismatch: LineError): (r: Result<nat, LineError>)
    requires idx <= |line|
    ensures r.Success? <==> idx + |lit| <= |line| && line[idx..idx + |lit|] == lit
    ensures r.Success? ==> r.value == idx + |lit|
    ensures r.Failure? ==> r.error == atEnd || r.error == mismatch
    decreases |lit|
  {
    if |lit| == 0 then Success(idx)
    else if idx >= |line| then Failure(atEnd)
    else if line[idx] != lit[0] then Failure(mismatch)
    else
      var r := MatchLiteral(lit[1..], line, idx + 1, atEnd, mismatch);
      assert r.Success? ==> line[idx..idx + |lit|] == [line[idx]] + line[idx + 1..idx + 1 + |lit[1..]|];
      assert idx + |lit| <= |line| && line[idx..idx + |lit|] == lit ==> line[idx + 1..idx + |lit|] == lit[1..];
      r
  }

  /** verify_tile_number: the line starts with the expected number as four upper-case hex digits and ": ". */
  function VerifyTileNumber(line: string, expected: nat): (r: Result<nat, LineError>)
    ensures r.Success? <==> |TileNumberPrefix(expected)| <= |line| && line[..|TileNumberPrefix(expected)|] == TileNumberPrefix(expected)
    ensures r.Success? ==> r.value == |TileNumberPrefix(expected)|
  {
    MatchLiteral(TileNumberPrefix(expected), line, 0, EndInTileNumber, WrongTileNumber)
  }

  /**
   * scanf's %X into an unsigned int: white space is skipped, an optional sign
   * is read, then at least one hexadecimal digit; a minus sign negates modulo
   * 2^32. The result is the value and the index after the digits.
   */
  function ScanHex(s: string, j: nat): (r: Option<(bv32, nat)>)
    requires j <= |s|
    ensures r.Some? ==> j < r.value.1 <= |s|
  {
    var k := SkipSpaces(s, j);
    var negative := k < |s| && s[k] == '-';
    var start := if k < |s| && (s[k] == '+' || s[k] == '-') then k + 1 else k;
    var e := HexRun(s, start);
    if e == start then None
    else
      var v := ReadHex32(s[start..e]);
      Some((if negative then 0 - v else v, e))
  }

  /** What sscanf(window, "%1X%1X%1X %X %c%c%c") stores when it returns 7. */
  datatype Scanned8x8 = Scanned8x8(number: bv16, palette: bv32, x: char, y: char, p: char)

  /**
   * The seven conversions of the 8x8 tile window. The window's first three
   * characters have already been checked to be upper-case letters or digits,
   * so each %1X reads exactly one of them or fails.
   */
  function Scan8x8Window(w: string): (r: Option<Scanned8x8>)
    requires |w| == 9
    ensures r.Some? ==> AllHex(w[..3]) && r.value.number == ReadHex16(w[..3])
  {
    if !AllHex(w[..3]) then None
    else
      match ScanHex(w, SkipSpaces(w, 3))
      case None => None
      case Some((palette, next)) =>
        var k := SkipSpaces(w, next);
        if k + 3 > |w| then None
        else Some(Scanned8x8(ReadHex16(w[..3]), palette, w[k], w[k + 1], w[k + 2]))
  }

  /** verify_8x8_tile on the nine characters of one tile specification. */
  function Check8x8Window(w: string): (r: Result<Tile8, LineError>)
    requires |w| == 9
    ensures r.Success? ==> r.value.Valid()
    ensures r.Success? ==> forall i :: 0 <= i < 3 ==> IsUpperHexDigit(w[i])
    ensures r.Success? ==> AllHex(w[..3]) && r.value.number == ReadHex16(w[..3])
  {
    if !(IsUpperOrDigit(w[0]) && IsUpperOrDigit(w[1]) && IsUpperOrDigit(w[2])) then Failure(TileDigitsNotUppercase)
    else match Scan8x8Window(w)
      case None => Failure(Malformed8x8Tile)
      case Some(s) =>
        if s.number >= 0x400 then Failure(TileNumberTooLarge)
        else if s.palette > 7 then Failure(PaletteOutOfRange)
        else if s.x != XFlipOn && s.x != XFlipOff then Failure(BadXFlip)
        else if s.y != YFlipOn && s.y != YFlipOff then Failure(BadYFlip)
        else if s.p != PriorityOn && s.p != PriorityOff then Failure(BadPriority)
        else Success(Tile8(s.number as bv16, s.palette as bv16, s.x, s.y, s.p))
  }

  /** verify_8x8_tile: nine characters must remain; the index always advances by nine. */
  function Verify8x8Tile(line: string, idx: nat): (r: Result<(Tile8, nat), LineError>)
    requires idx <= |line|
    ensures r.Success? ==> r.value.1 == idx + 9 <= |line| && Check8x8Window(line[idx..idx + 9]) == Success(r.value.0)
  {
    if idx + 9 > |line| then Failure(EndIn8x8Tile)
    else
      var t :- Check8x8Window(line[idx..idx + 9]);
      Success((t, idx + 9))
  }

  /** The two spaces between consecutive 8x8 tiles. */
  function VerifySeparator(line: string, idx: nat): (r: Result<nat, LineError>)
    requires idx <= |line|
    ensures r.Success? <==> idx + 2 <= |line| && line[idx..idx + 2] == "  "
    ensures r.Success? ==> r.value == idx + 2
  {
    if idx + 2 > |line| then Failure(EndIn8x8Tiles)
    else if line[idx..idx + 2] != "  " then Failure(BadSeparator)
    else Success(idx + 2)
  }

  /**
   * The loop of verify_8x8_tiles from some tile on: count tiles, each but the
   * last followed by exactly two spaces.
   */
  function VerifyTileRun(line: string, idx: nat, count: nat): (r: Result<(seq<Tile8>, nat), LineError>)
    requires idx <= |line| && count >= 1
    ensures r.Success? ==> |r.value.0| == count && r.value.1 == idx + 11 * count - 2 <= |line|
    ensures r.Success? ==> forall i :: 0 <= i < count ==> r.value.0[i].Valid()
    decreases count
  {
    var a :- Verify8x8Tile(line, idx);
    if count == 1 then Success(([a.0], a.1))
    else
      var s :- VerifySeparator(line, a.1);
      var rest :- VerifyTileRun(line, s, count - 1);
      Success(([a.0] + rest.0, rest.1))
  }

  /** verify_8x8_tiles: " { ", four tiles separated by two spaces, " }". */
  function Verify8x8Tiles(line: string, idx: nat): (r: Result<(seq<Tile8>, nat), LineError>)
    requires idx <= |line|
    ensures r.Success? ==> |r.value.0| == 4 && r.value.1 == idx + 47 <= |line|
    ensures r.Success? ==> forall i :: 0 <= i < 4 ==> r.value.0[i].Valid()
  {
    var i0 :- MatchLiteral(" { ", line, idx, EndIn8x8Tiles, BadOpeningBracket);
    var run :- VerifyTileRun(line, i0, 4);
    var e :- MatchLiteral(" }", line, run.1, EndIn8x8Tiles, BadClosingBracket);
    Success((run.0, e))
  }

  /**
   * verify_acts_like as the source writes it: the four characters at index 6
   * must be upper-case letters or digits and the first three hexadecimal
   * digits; only those three are combined into the value, so the 0x7FFF
   * bound can never fail and the fourth character is never required to be
   * hexadecimal.
   */
  function VerifyActsLikeAsWritten(line: string): (r: Result<bv16, LineError>)
    ensures r.Success? <==> |line| >= 10 && AllHex(line[6..9]) && forall i :: 6 <= i < 10 ==> IsUpperOrDigit(line[i])
    ensures r.Success? ==> r.value < 0x1000
  {
    if |line| < 10 then Failure(EndInActsLike)
    else if !(AllHex(line[6..9]) && forall i :: 6 <= i < 10 ==> IsUpperOrDigit(line[i])) then Failure(ActsLikeNotHex)
    else
      var acts := ReadHex16(line[6..9]);
      ReadHex16Unfolded(line[6..9]);
      if acts > 0x7FFF then Failure(ActsLikeTooLarge)
      else Success(acts)
  }

  /**
   * verify_acts_like as evidently intended, and as the rest of this model
   * uses it: four upper-case hexadecimal digits whose value is at most 0x7FFF.
   */
  function VerifyActsLike(line: string): (r: Result<bv16, LineError>)
    ensures r.Success? <==> |line| >= 10 && AllUpperHex(line[6..10]) && ReadHex16(line[6..10]) <= 0x7FFF
    ensures r.Success? ==> r.value <= 0x7FFF && Hex4(r.value) == line[6..10]
  {
    if |line| < 10 then Failure(EndInActsLike)
    else
      var w := line[6..10];
      if !AllUpperHex(w) then Failure(ActsLikeNotHex)
      else if ReadHex16(w) > 0x7FFF then Failure(ActsLikeTooLarge)
      else
        Hex4OfRead(w);
        Success(ReadHex16(w))
  }

  /**
   * What the converters' sscanf "%04X" reads from an acts-like field that
   * the check as written let through: the first three characters are
   * hexadecimal digits, and the fourth is read too only when it is one.
   */
  function ScanActsLike(line: string): (v: bv16)
    requires |line| >= 10 && AllHex(line[6..9])
    ensures AllHex(line[6..10]) ==> v == ReadHex16(line[6..10])
    ensures !AllHex(line[6..10]) ==> v == ReadHex16(line[6..9]) && v < 0x1000
  {
    if IsHexDigit(line[9]) then
      assert forall i :: 0 <= i < 4 ==> IsHexDigit(line[6..10][i]) by {
        assert forall i :: 0 <= i < 3 ==> line[6..10][i] == line[6..9][i];
      }
      ReadHex16(line[6..10])
    else
      assert line[6..10][3] == line[9];
      ReadHex16Unfolded(line[6..9]);
      ReadHex16(line[6..9])
  }

  /**
   * The acts-like setting a line verifier takes from the field at index 6:
   * with the corrected check, VerifyActsLike's value; as the source is
   * written, VerifyActsLikeAsWritten decides whether the line passes and the
   * value is what the converter's sscanf then reads.
   */
  function ActsLikeField(line: string, asWritten: bool): (r: Result<bv16, LineError>)
    ensures !asWritten ==> r == VerifyActsLike(line)
    ensures asWritten ==> (r.Success? <==> VerifyActsLikeAsWritten(line).Success?)
    ensures r.Success? ==> |line| >= 10
    ensures asWritten && r.Success? ==> AllHex(line[6..9]) && r.value == ScanActsLike(line)
  {
    if !asWritten then VerifyActsLike(line)
    else
      var checked :- VerifyActsLikeAsWritten(line);
      Success(ScanActsLike(line))
  }

  /**
   * verify_full: tile number, then the "~" shorthand or an acts-like setting
   * and four tiles, then nothing. asWritten selects the source's acts-like
   * check; otherwise the corrected one.
   */
  function VerifyFull(line: string, expected: nat, asWritten: bool): (r: Result<FullLine, LineError>)
    ensures r == Success(FullShorthand) ==> line == FormatHex(expected, 4) + ": ~"
    ensures expected < 0x10000 && line == FormatHex(expected, 4) + ": ~" ==> r == Success(FullShorthand)
    ensures r.Success? && r.value.FullSpec? ==>
      |line| >= 10 && ActsLikeField(line, asWritten) == Success(r.value.actsLike) &&
      |r.value.tiles| == 4 && forall i :: 0 <= i < 4 ==> r.value.tiles[i].Valid()
  {
    var idx :- VerifyTileNumber(line, expected);
    ShorthandLength(expected);
    if idx >= |line| then Failure(EndBeforeShorthand)
    else if line[idx] == EmptyTileShorthand then
      if |line| == 7 then
        assert |FormatHex(expected, 4)| == 4;
        assert line == line[..idx] + [line[idx]];
        Success(FullShorthand)
      else Failure(TrailingAfterShorthand)
    else
      var acts :- ActsLikeField(line, asWritten);
      if idx + 4 > |line| then Failure(EndIn8x8Tiles)
      else
      var t :- Verify8x8Tiles(line, idx + 4);
      if t.1 != |line| then Failure(TrailingCharacters)
      else Success(FullSpec(acts, t.0))
  }

  /** verify_tiles_only: like VerifyFull, but the acts-like field must be four spaces. */
  function VerifyTilesOnly(line: string, expected: nat): (r: Result<TilesLine, LineError>)
    ensures r == Success(TilesShorthand) ==> line == FormatHex(expected, 4) + ": ~"
    ensures expected < 0x10000 && line == FormatHex(expected, 4) + ": ~" ==> r == Success(TilesShorthand)
    ensures r.Success? && r.value.TilesSpec? ==> |line| >= 10 && line[6..10] == "    "
  {
    var idx :- VerifyTileNumber(line, expected);
    ShorthandLength(expected);
    if idx >= |line| then Failure(EndBeforeShorthand)
    else if line[idx] == EmptyTileShorthand then
      if |line| == 7 then
        assert |FormatHex(expected, 4)| == 4;
        assert line == line[..idx] + [line[idx]];
        Success(TilesShorthand)
      else Failure(TrailingAfterShorthand)
    else if |line| < 10 then Failure(EndInBlankActsField)
    else if line[6..10] != "    " then Failure(BlankActsFieldNotBlank)
    else if idx + 4 > |line| then Failure(EndIn8x8Tiles)
    else
      var t :- Verify8x8Tiles(line, idx + 4);
      if t.1 != |line| then Failure(TrailingCharacters)
      else Success(TilesSpec(t.0))
  }

  /**
   * verify_acts_like_only: tile number and acts-like setting, no shorthand,
   * nothing after; asWritten as for VerifyFull.
   */
  function VerifyActsLikeOnly(line: string, expected: nat, asWritten: bool): (r: Result<bv16, LineError>)
    ensures r.Success? ==> |line| == |TileNumberPrefix(expected)| + 4 && line[..|TileNumberPrefix(expected)|] == TileNumberPrefix(expected)
    ensures r.Success? ==> line[|TileNumberPrefix(expected)|] != EmptyTileShorthand
    ensures r.Success? ==> ActsLikeField(line, asWritten) == Success(r.value)
  {
    var idx :- VerifyTileNumber(line, expected);
    if idx >= |line| then Failure(EndBeforeShorthand)
    else if line[idx] == EmptyTileShorthand then Failure(ShorthandNotAllowed)
    else
      var acts :- ActsLikeField(line, asWritten);
      if idx + 4 != |line| then Failure(TrailingCharacters)
      else Success(acts)
  }

  function TileWords(tiles: seq<Tile8>): (r: seq<bv16>)
    ensures |r| == |tiles| && forall i :: 0 <= i < |tiles| ==> r[i] == ToBytes(tiles[i])
  {
    if |tiles| == 0 then [] else [ToBytes(tiles[0])] + TileWords(tiles[1..])
  }

  /**
   * convert_full: the tile bytes and acts-like bytes one full line contributes.
   * The shorthand stands for four 0x1004 words and acts-like 0x130. As the
   * source is written, a fourth acts-like character that passed the check
   * but is not a hexadecimal digit stops sscanf before the tiles, which are
   * then never assigned.
   */
  function ConvertFull(line: string, expected: nat, asWritten: bool): (r: Result<(seq<bv8>, seq<bv8>), LineError>)
    ensures r.Success? ==> VerifyFull(line, expected, asWritten).Success?
    ensures VerifyFull(line, expected, asWritten).Success? ==>
      (r.Success? <==> VerifyFull(line, expected, asWritten).value.FullShorthand? || !asWritten || IsHexDigit(line[9]))
    ensures r.Failure? && VerifyFull(line, expected, asWritten).Success? ==> r.error == TilesUnassigned
    ensures r.Success? ==> |r.value.0| == Tile16ByteSize && |r.value.1| == ActsLikeSize
  {
    var parsed :- VerifyFull(line, expected, asWritten);
    match parsed
    case FullShorthand => Success((EmptyTileBytes(), Split2(EmptyTileActsLike)))
    case FullSpec(acts, tiles) =>
      if asWritten && !IsHexDigit(line[9]) then Failure(TilesUnassigned)
      else Success((WordsToBytes(TileWords(tiles)), Split2(acts)))
  }

  /** convert_tiles_only: the tile bytes of one tiles-only line. */
  function ConvertTilesOnly(line: string, expected: nat): (r: Result<seq<bv8>, LineError>)
    ensures r.Success? <==> VerifyTilesOnly(line, expected).Success?
    ensures r.Success? ==> |r.value| == Tile16ByteSize
  {
    var parsed :- VerifyTilesOnly(line, expected);
    match parsed
    case TilesShorthand => Success(EmptyTileBytes())
    case TilesSpec(tiles) => Success(WordsToBytes(TileWords(tiles)))
  }

  /** convert_acts_like_only: the acts-like bytes of one acts-like-only line. */
  function ConvertActsLikeOnly(line: string, expected: nat, asWritten: bool): (r: Result<seq<bv8>, LineError>)
    ensures r.Success? <==> VerifyActsLikeOnly(line, expected, asWritten).Success?
    ensures r.Success? ==> |r.value| == ActsLikeSize && JoinBytes(r.value) == VerifyActsLikeOnly(line, expected, asWritten).value as bv32
  {
    var acts :- VerifyActsLikeOnly(line, expected, asWritten);
    Success(Split2(acts))
  }

  /**
   * TILE_FORMAT under "%03X %d %c%c%c": the nine characters from_map16 prints
   * for one word. The palette is below 8, so %d writes the single digit
   * NibbleChar gives.
   */
  function FormatTile(w: bv16): (s: string)
    ensures |s| == 9
  {
    var t := TileFormat(w);
    Hex3(t.number) + " " + [NibbleChar(t.palette)] + " " + [t.x, t.y, t.p]
  }

  /** The printed tiles, two spaces between consecutive ones. */
  function FormatTileRun(words: seq<bv16>): (s: string)
    requires |words| >= 1
    ensures |s| == 11 * |words| - 2
  {
    if |words| == 1 then FormatTile(words[0])
    else FormatTile(words[0]) + "  " + FormatTileRun(words[1..])
  }

  function FormatTiles(words: seq<bv16>): (s: string)
    requires |words| == 4
    ensures |s| == 47
  {
    " { " + FormatTileRun(words) + " }"
  }

  /** convert_to_file, full overload: the empty shorthand or STANDARD_FORMAT. */
  function FormatFullLine(n: nat, acts: bv16, words: seq<bv16>): string
    requires |words| == 4
  {
    if IsLMEmpty(acts, words) then FormatHex(n, 4) + ": ~"
    else TileNumberPrefix(n) + Hex4(acts) + FormatTiles(words)
  }

  /** convert_to_file, tiles-only overload: the empty shorthand or NO_ACTS_FORMAT. */
  function FormatTilesOnlyLine(n: nat, words: seq<bv16>): string
    requires |words| == 4
  {
    if IsLMEmptyTilesOnly(words) then FormatHex(n, 4) + ": ~"
    else TileNumberPrefix(n) + "    " + FormatTiles(words)
  }

  /** convert_to_file, acts-like-only overload: NO_TILES_FORMAT. */
  function FormatActsLikeOnlyLine(n: nat, acts: bv16): string
  {
    TileNumberPrefix(n) + Hex4(acts)
  }

  /** Tile numbers below 0x10000 are printed in exactly four digits. */
  lemma ShorthandLength(expected: nat)
    ensures expected < 0x10000 <==> |FormatHex(expected, 4)| == 4
  {
    assert Pow(16, 4) == 0x10000;
    if expected < 0x10000 {
      FormatHexWidth(expected, 4);
    } else {
      ToHexLength(expected, 4);
    }
  }

  function TileFormats(words: seq<bv16>): (r: seq<Tile8>)
    ensures |r| == |words| && forall i :: 0 <= i < |words| ==> r[i] == TileFormat(words[i])
  {
    if |words| == 0 then [] else [TileFormat(words[0])] + TileFormats(words[1..])
  }

  /** The seven conversions on a window laid out as "DDD P XYP" with a one-digit palette. */
  lemma ScanWindowShape(s: string)
    requires |s| == 9 && AllHex(s[..3]) && s[3] == ' ' && IsDigit(s[4]) && s[5] == ' ' && !IsSpace(s[6])
    ensures Scan8x8Window(s) == Some(Scanned8x8(ReadHex16(s[..3]), NibbleValue(s[4]) as bv32, s[6], s[7], s[8]))
  {
    assert SkipSpaces(s, 4) == 4;
    assert SkipSpaces(s, 3) == 4;
    assert HexRun(s, 5) == 5;
    assert HexRun(s, 4) == 5;
    assert s[4..5] == [s[4]];
    assert ReadHex32(s[4..5]) == NibbleValue(s[4]) as bv32 by {
      assert s[4..5][..0] == [];
    }
    assert ScanHex(s, 4) == Some((NibbleValue(s[4]) as bv32, 5));
    assert SkipSpaces(s, 6) == 6;
    assert SkipSpaces(s, 5) == 6;
  }

  /** verify_8x8_tile on a window of that layout whose fields are all in range. */
  lemma CheckWindowShape(s: string)
    requires |s| == 9 && AllUpperHex(s[..3]) && AllHex(s[..3]) && s[3] == ' ' && IsDigit(s[4]) && s[5] == ' '
    requires ReadHex16(s[..3]) < 0x400 && NibbleValue(s[4]) < 8
    requires (s[6] == XFlipOn || s[6] == XFlipOff) && (s[7] == YFlipOn || s[7] == YFlipOff)
    requires s[8] == PriorityOn || s[8] == PriorityOff
    ensures Check8x8Window(s) == Success(Tile8(ReadHex16(s[..3]), NibbleValue(s[4]), s[6], s[7], s[8]))
  {
    assert s[..3][0] == s[0] && s[..3][1] == s[1] && s[..3][2] == s[2];
    ScanWindowShape(s);
    NarrowPalette(NibbleValue(s[4]));
  }

  lemma NarrowPalette(p: bv16)
    requires p < 8
    ensures (p as bv32) <= 7 && (p as bv32) as bv16 == p
  {
  }

  /** The nine printed characters of a word pass verify_8x8_tile and are read back as the printed fields. */
  lemma Check8x8WindowOfFormat(w: bv16)
    ensures Check8x8Window(FormatTile(w)) == Success(TileFormat(w))
  {
    var t := TileFormat(w);
    var s := FormatTile(w);
    var h := Hex3(t.number);
    assert s[..3] == h;
    assert s[3] == ' ' && s[5] == ' ';
    assert s[4] == NibbleChar(t.palette);
    assert s[6] == t.x && s[7] == t.y && s[8] == t.p;
    ReadHex3(t.number);
    NibbleValueOfChar(t.palette);
    CheckWindowShape(s);
  }

  /** A printed tile at idx passes verify_8x8_tile. */
  lemma TileOfFormat(line: string, idx: nat, w: bv16)
    requires idx + 9 <= |line| && line[idx..idx + 9] == FormatTile(w)
    ensures Verify8x8Tile(line, idx) == Success((TileFormat(w), idx + 9))
  {
    Check8x8WindowOfFormat(w);
  }

  /** Tiles ts sit at idx in the layout of the tile loop: each passes verify_8x8_tile, separated by two spaces. */
  ghost predicate TilesAt(line: string, idx: nat, ts: seq<Tile8>)
    requires idx <= |line|
    decreases |ts|
  {
    |ts| >= 1 && Verify8x8Tile(line, idx) == Success((ts[0], idx + 9)) &&
    (|ts| > 1 ==> idx + 11 <= |line| && line[idx + 9..idx + 11] == "  " && TilesAt(line, idx + 11, ts[1..]))
  }

  /** The tile loop accepts a line that holds its tiles in the expected layout. */
  lemma {:induction false} TileRunOfTiles(line: string, idx: nat, ts: seq<Tile8>)
    requires idx <= |line| && |ts| >= 1 && TilesAt(line, idx, ts)
    ensures VerifyTileRun(line, idx, |ts|) == Success((ts, idx + 11 * |ts| - 2))
    decreases |ts|
  {
    hide *;
    if |ts| > 1 {
      var tail := ts[1..];
      TilesAtTail(line, idx, ts);
      TileRunOfTiles(line, idx + 11, tail);
      TilesAtStep(line, idx, ts, idx + 11 + 11 * |tail| - 2);
    } else {
      TilesAtOne(line, idx, ts);
    }
  }

  /** The tiles after the first sit eleven characters further on. */
  lemma TilesAtTail(line: string, idx: nat, ts: seq<Tile8>)
    requires idx <= |line| && |ts| > 1 && TilesAt(line, idx, ts)
    ensures idx + 11 <= |line| && |ts[1..]| >= 1 && TilesAt(line, idx + 11, ts[1..])
  {
  }

  /** The base case of TileRunOfTiles. */
  lemma TilesAtOne(line: string, idx: nat, ts: seq<Tile8>)
    requires idx <= |line| && |ts| == 1 && TilesAt(line, idx, ts)
    ensures VerifyTileRun(line, idx, |ts|) == Success((ts, idx + 9))
  {
    TileRunOne(line, idx, ts[0]);
    assert [ts[0]] == ts;
  }

  /** The induction step of TileRunOfTiles, with the end position abstracted. */
  lemma TilesAtStep(line: string, idx: nat, ts: seq<Tile8>, e: nat)
    requires idx <= |line| && |ts| > 1 && TilesAt(line, idx, ts)
    requires VerifyTileRun(line, idx + 11, |ts[1..]|) == Success((ts[1..], e))
    ensures VerifyTileRun(line, idx, |ts|) == Success((ts, e))
  {
    assert |ts[1..]| == |ts| - 1;
    assert VerifySeparator(line, idx + 9) == Success(idx + 11);
    TileRunStep(line, idx, |ts|, ts[0], ts[1..], e);
    assert [ts[0]] + ts[1..] == ts;
  }

  /** The last round of the tile loop: one tile. */
  lemma TileRunOne(line: string, idx: nat, t: Tile8)
    requires idx <= |line|
    requires Verify8x8Tile(line, idx) == Success((t, idx + 9))
    ensures VerifyTileRun(line, idx, 1) == Success(([t], idx + 9))
  {
  }

  /** One step of the tile loop: a tile, a separator, then the rest of the run. */
  lemma TileRunStep(line: string, idx: nat, count: nat, t: Tile8, ts: seq<Tile8>, e: nat)
    requires idx + 11 <= |line| && count > 1
    requires Verify8x8Tile(line, idx) == Success((t, idx + 9))
    requires VerifySeparator(line, idx + 9) == Success(idx + 11)
    requires VerifyTileRun(line, idx + 11, count - 1) == Success((ts, e))
    ensures VerifyTileRun(line, idx, count) == Success(([t] + ts, e))
  {
  }

  /** A printed run of tiles lays its tiles out as the tile loop expects. */
  lemma {:induction false} TilesAtOfFormat(line: string, idx: nat, words: seq<bv16>)
    requires |words| >= 1
    requires idx + 11 * |words| - 2 <= |line| && line[idx..idx + 11 * |words| - 2] == FormatTileRun(words)
    ensures TilesAt(line, idx, TileFormats(words))
    decreases |words|
  {
    hide *;
    if |words| == 1 {
      FormatTileRunOne(words);
      TileOfFormat(line, idx, words[0]);
      TilesAtSingle(line, idx, TileFormats(words));
    } else {
      var rest := words[1..];
      FormatTileRunParts(words);
      SliceOfConcat3(line, idx, FormatTile(words[0]), "  ", FormatTileRun(rest));
      TileOfFormat(line, idx, words[0]);
      TilesAtOfFormat(line, idx + 11, rest);
      TilesAtCons(line, idx, TileFormats(words), TileFormats(rest));
    }
  }

  /** A run of more than one printed tile is the first tile, two spaces and the rest. */
  lemma FormatTileRunParts(words: seq<bv16>)
    requires |words| > 1
    ensures |FormatTile(words[0])| == 9 && |FormatTileRun(words[1..])| == 11 * |words| - 13
    ensures FormatTileRun(words) == FormatTile(words[0]) + "  " + FormatTileRun(words[1..])
  {
  }

  /** A run of one printed tile is that tile. */
  lemma FormatTileRunOne(words: seq<bv16>)
    requires |words| == 1
    ensures FormatTileRun(words) == FormatTile(words[0]) && |FormatTile(words[0])| == 9
  {
  }

  /** TilesAt of a single tile. */
  lemma TilesAtSingle(line: string, idx: nat, ts: seq<Tile8>)
    requires |ts| == 1 && idx + 9 <= |line|
    requires Verify8x8Tile(line, idx) == Success((ts[0], idx + 9))
    ensures TilesAt(line, idx, ts)
  {
  }

  /** TilesAt of a run from its first tile, the separator and TilesAt of the rest. */
  lemma TilesAtCons(line: string, idx: nat, ts: seq<Tile8>, rest: seq<Tile8>)
    requires |ts| > 1 && rest == ts[1..] && idx + 11 <= |line|
    requires Verify8x8Tile(line, idx) == Success((ts[0], idx + 9))
    requires line[idx + 9..idx + 11] == "  " && TilesAt(line, idx + 11, rest)
    ensures TilesAt(line, idx, ts)
  {
  }

  /** A printed run of tiles passes the tile loop and reads back as the printed fields. */
  lemma TileRunOfFormat(line: string, idx: nat, words: seq<bv16>)
    requires |words| >= 1
    requires idx + 11 * |words| - 2 <= |line| && line[idx..idx + 11 * |words| - 2] == FormatTileRun(words)
    ensures VerifyTileRun(line, idx, |words|) == Success((TileFormats(words), idx + 11 * |words| - 2))
  {
    hide *;
    TilesAtOfFormat(line, idx, words);
    TileRunOfTiles(line, idx, TileFormats(words));
  }

  /** The printed tile block is the run between its brackets. */
  lemma FormatTilesParts(words: seq<bv16>)
    requires |words| == 4
    ensures FormatTiles(words) == " { " + FormatTileRun(words) + " }" && |FormatTileRun(words)| == 42
  {
  }

  /** verify_8x8_tiles succeeds when both brackets are in place around an accepted run. */
  lemma TilesOfRun(line: string, idx: nat, ts: seq<Tile8>)
    requires idx + 47 <= |line| && |ts| == 4
    requires line[idx..idx + 3] == " { " && line[idx + 45..idx + 47] == " }"
    requires VerifyTileRun(line, idx + 3, 4) == Success((ts, idx + 45))
    ensures Verify8x8Tiles(line, idx) == Success((ts, idx + 47))
  {
  }

  /** Printed tiles pass verify_8x8_tiles. */
  lemma TilesOfFormat(line: string, idx: nat, words: seq<bv16>)
    requires |words| == 4
    requires idx + 47 <= |line| && line[idx..idx + 47] == FormatTiles(words)
    ensures Verify8x8Tiles(line, idx) == Success((TileFormats(words), idx + 47))
  {
    hide *;
    FormatTilesParts(words);
    SliceOfConcat3(line, idx, " { ", FormatTileRun(words), " }");
    TileRunOfFormat(line, idx + 3, words);
    TilesOfRun(line, idx, TileFormats(words));
  }

  /** Packing the printed fields of each word gives the words back. */
  lemma TileWordsOfFormats(words: seq<bv16>)
    ensures TileWords(TileFormats(words)) == words
  {
    forall i | 0 <= i < |words|
      ensures TileWords(TileFormats(words))[i] == words[i]
    {
      ToBytesOfTileFormat(words[i]);
    }
  }

  /** A tile number below 0x10000 is printed as a six-character prefix. */
  lemma PrefixLength(n: nat)
    requires n < 0x10000
    ensures |TileNumberPrefix(n)| == 6
  {
    ShorthandLength(n);
  }

  /** A line whose prefix is the printed tile number passes verify_tile_number. */
  lemma TileNumberOfPrefix(line: string, n: nat)
    requires n < 0x10000 && 6 <= |line| && line[0..6] == TileNumberPrefix(n)
    ensures VerifyTileNumber(line, n) == Success(6)
  {
    PrefixLength(n);
  }

  /** A printed acts-like setting up to 0x7FFF passes verify_acts_like and is not the shorthand. */
  lemma ActsLikeOfHex4(line: string, acts: bv16)
    requires acts <= 0x7FFF && 10 <= |line| && line[6..10] == Hex4(acts)
    ensures VerifyActsLike(line) == Success(acts)
    ensures line[6] != EmptyTileShorthand
  {
    ReadHex4(acts);
    assert line[6] == Hex4(acts)[0];
  }

  /**
   * A printed acts-like setting passes either check with its own value: the
   * corrected one up to 0x7FFF, the one as written for every setting.
   */
  lemma ActsLikeFieldOfHex4(line: string, acts: bv16, asWritten: bool)
    requires asWritten || acts <= 0x7FFF
    requires 10 <= |line| && line[6..10] == Hex4(acts)
    ensures ActsLikeField(line, asWritten) == Success(acts)
    ensures IsHexDigit(line[9]) && line[6] != EmptyTileShorthand
  {
    assert line[9] == Hex4(acts)[3] && line[6] == Hex4(acts)[0];
    if asWritten {
      assert forall i :: 6 <= i < 10 ==> line[i] == Hex4(acts)[i - 6];
      assert forall i :: 6 <= i < 10 ==> IsUpperOrDigit(line[i]);
      assert AllHex(line[6..9]) by {
        assert forall i :: 0 <= i < 3 ==> line[6..9][i] == Hex4(acts)[i];
      }
      ReadHex4(acts);
    } else {
      ActsLikeOfHex4(line, acts);
    }
  }

  /** verify_full and convert_full on a line in STANDARD_FORMAT whose parts each pass. */
  lemma FullOfParts(line: string, n: nat, acts: bv16, ts: seq<Tile8>, asWritten: bool)
    requires |line| == 57 && |ts| == 4
    requires VerifyTileNumber(line, n) == Success(6)
    requires line[6] != EmptyTileShorthand
    requires ActsLikeField(line, asWritten) == Success(acts)
    requires Verify8x8Tiles(line, 10) == Success((ts, 57))
    ensures VerifyFull(line, n, asWritten) == Success(FullSpec(acts, ts))
  {
    var idx := VerifyTileNumber(line, n).value;
    assert idx == 6 && idx < |line| && line[idx] != EmptyTileShorthand;
    assert Verify8x8Tiles(line, idx + 4).value.1 == |line|;
  }

  /** convert_full packs the tiles verify_full read. */
  lemma ConvertFullOfSpec(line: string, n: nat, acts: bv16, ts: seq<Tile8>, asWritten: bool)
    requires VerifyFull(line, n, asWritten) == Success(FullSpec(acts, ts))
    requires !asWritten || IsHexDigit(line[9])
    ensures ConvertFull(line, n, asWritten) == Success((WordsToBytes(TileWords(ts)), Split2(acts)))
  {
  }

  /** verify_tiles_only and convert_tiles_only on a line in NO_ACTS_FORMAT whose parts each pass. */
  lemma TilesOnlyOfParts(line: string, n: nat, ts: seq<Tile8>)
    requires |line| == 57 && |ts| == 4
    requires VerifyTileNumber(line, n) == Success(6)
    requires line[6..10] == "    "
    requires Verify8x8Tiles(line, 10) == Success((ts, 57))
    ensures VerifyTilesOnly(line, n) == Success(TilesSpec(ts))
    ensures ConvertTilesOnly(line, n) == Success(WordsToBytes(TileWords(ts)))
  {
    assert line[6] == line[6..10][0];
  }

  /** The printed shorthand converts back to four 0x1004 words and acts-like 0x130. */
  lemma FullShorthandOfFormat(n: nat, acts: bv16, words: seq<bv16>, asWritten: bool)
    requires n < 0x10000 && |words| == 4 && IsLMEmpty(acts, words)
    ensures ConvertFull(FormatFullLine(n, acts, words), n, asWritten) == Success((WordsToBytes(words), Split2(acts)))
  {
    var line := FormatFullLine(n, acts, words);
    assert line == FormatHex(n, 4) + ": ~";
    EmptyWords(acts, words);
    hide *;
    assert VerifyFull(line, n, asWritten) == Success(FullShorthand);
    ConvertFullOfShorthand(line, n, asWritten);
  }

  /** The words of the empty tile are four 0x1004 words with acts-like 0x130. */
  lemma EmptyWords(acts: bv16, words: seq<bv16>)
    requires |words| == 4 && IsLMEmpty(acts, words)
    ensures words == [EmptyTileWord, EmptyTileWord, EmptyTileWord, EmptyTileWord] && acts == EmptyTileActsLike
    ensures EmptyTileBytes() == WordsToBytes(words)
  {
  }

  /** A line that verifies as the shorthand converts to the empty tile. */
  lemma ConvertFullOfShorthand(line: string, n: nat, asWritten: bool)
    requires VerifyFull(line, n, asWritten) == Success(FullShorthand)
    ensures ConvertFull(line, n, asWritten) == Success((EmptyTileBytes(), Split2(EmptyTileActsLike)))
  {
  }

  /** A tiles-only line that verifies as the shorthand converts to the empty tile. */
  lemma ConvertTilesOnlyOfShorthand(line: string, n: nat)
    requires VerifyTilesOnly(line, n) == Success(TilesShorthand)
    ensures ConvertTilesOnly(line, n) == Success(EmptyTileBytes())
  {
  }

  /** STANDARD_FORMAT is the prefix, the acts-like digits and the tile block. */
  lemma FullLineParts(n: nat, acts: bv16, words: seq<bv16>)
    requires |words| == 4 && !IsLMEmpty(acts, words)
    ensures FormatFullLine(n, acts, words) == TileNumberPrefix(n) + Hex4(acts) + FormatTiles(words)
  {
  }

  /** NO_ACTS_FORMAT is the prefix, four spaces and the tile block. */
  lemma TilesOnlyLineParts(n: nat, words: seq<bv16>)
    requires |words| == 4 && !IsLMEmptyTilesOnly(words)
    ensures FormatTilesOnlyLine(n, words) == TileNumberPrefix(n) + "    " + FormatTiles(words)
  {
  }

  /**
   * Round trip of a full line: what from_map16 prints for a 16x16 tile
   * converts back to the same eight tile bytes and two acts-like bytes,
   * for every tile number below 0x10000: with the corrected check for every
   * acts-like setting up to 0x7FFF, as the source is written for every one.
   */
  lemma ConvertFullOfFormat(n: nat, acts: bv16, words: seq<bv16>, asWritten: bool)
    requires n < 0x10000 && (asWritten || acts <= 0x7FFF) && |words| == 4
    ensures ConvertFull(FormatFullLine(n, acts, words), n, asWritten) == Success((WordsToBytes(words), Split2(acts)))
  {
    if IsLMEmpty(acts, words) {
      FullShorthandOfFormat(n, acts, words, asWritten);
    } else {
      hide *;
      var line := FormatFullLine(n, acts, words);
      var p, h, f := TileNumberPrefix(n), Hex4(acts), FormatTiles(words);
      FullLineParts(n, acts, words);
      PrefixLength(n);
      SliceOfConcat3(line, 0, p, h, f);
      TileNumberOfPrefix(line, n);
      ActsLikeFieldOfHex4(line, acts, asWritten);
      TilesOfFormat(line, 10, words);
      FullOfParts(line, n, acts, TileFormats(words), asWritten);
      ConvertFullOfSpec(line, n, acts, TileFormats(words), asWritten);
      TileWordsOfFormats(words);
    }
  }

  /** The printed shorthand of a tiles-only line converts back to four 0x1004 words. */
  lemma TilesOnlyShorthandOfFormat(n: nat, words: seq<bv16>)
    requires n < 0x10000 && |words| == 4 && IsLMEmptyTilesOnly(words)
    ensures ConvertTilesOnly(FormatTilesOnlyLine(n, words), n) == Success(WordsToBytes(words))
  {
    var line := FormatTilesOnlyLine(n, words);
    assert line == FormatHex(n, 4) + ": ~";
    EmptyWords(EmptyTileActsLike, words);
    hide *;
    assert VerifyTilesOnly(line, n) == Success(TilesShorthand);
    ConvertTilesOnlyOfShorthand(line, n);
  }

  /** Round trip of a tiles-only line. */
  lemma ConvertTilesOnlyOfFormat(n: nat, words: seq<bv16>)
    requires n < 0x10000 && |words| == 4
    ensures ConvertTilesOnly(FormatTilesOnlyLine(n, words), n) == Success(WordsToBytes(words))
  {
    if IsLMEmptyTilesOnly(words) {
      TilesOnlyShorthandOfFormat(n, words);
    } else {
      hide *;
      var line := FormatTilesOnlyLine(n, words);
      var p, f := TileNumberPrefix(n), FormatTiles(words);
      TilesOnlyLineParts(n, words);
      PrefixLength(n);
      SliceOfConcat3(line, 0, p, "    ", f);
      TileNumberOfPrefix(line, n);
      TilesOfFormat(line, 10, words);
      TilesOnlyOfParts(line, n, TileFormats(words));
      TileWordsOfFormats(words);
    }
  }

  /** Round trip of an acts-like-only line, with the same range of settings as for a full line. */
  lemma ConvertActsLikeOnlyOfFormat(n: nat, acts: bv16, asWritten: bool)
    requires n < 0x10000 && (asWritten || acts <= 0x7FFF)
    ensures ConvertActsLikeOnly(FormatActsLikeOnlyLine(n, acts), n, asWritten) == Success(Split2(acts))
  {
    var line := FormatActsLikeOnlyLine(n, acts);
    var p := TileNumberPrefix(n);
    PrefixLength(n);
    assert line[..6] == p;
    TileNumberOfPrefix(line, n);
    assert line[6..10] == Hex4(acts);
    ActsLikeFieldOfHex4(line, acts, asWritten);
  }

  /** The upper bound check in verify_acts_like as written can never fail. */
  lemma ActsLikeBoundUnreachable(line: string)
    ensures VerifyActsLikeAsWritten(line) != Failure(ActsLikeTooLarge)
  {
    if |line| >= 10 && AllHex(line[6..9]) {
      ReadHex16Unfolded(line[6..9]);
    }
  }

  /**
   * Wherever the intended reading accepts, the source as written accepts too,
   * but yields the setting without its last digit.
   */
  lemma ActsLikeAsWrittenDropsLastDigit(line: string)
    requires VerifyActsLike(line).Success?
    ensures VerifyActsLikeAsWritten(line) == Success(VerifyActsLike(line).value >> 4)
  {
    var w := line[6..10];
    assert forall i :: 0 <= i < 4 ==> IsHexDigit(w[i]) && IsUpperOrDigit(w[i]);
    var p := line[6..9];
    assert p == w[..3];
    assert AllHex(p);
    assert w[..|w| - 1] == p;
    ReadHex16Unfolded(p);
    DropNibble(ReadHex16(p), NibbleValue(w[3]));
  }

  lemma DropNibble(x: bv16, d: bv16)
    requires x < 0x1000 && d < 16
    ensures ((x << 4) | d) >> 4 == x
  {
  }

  /** "8000" passes verify_acts_like as written, read as 0x800, though 0x8000 is out of range. */
  lemma ActsLike8000Accepted()
    ensures VerifyActsLikeAsWritten("0000: 8000") == Success(0x800)
    ensures VerifyActsLike("0000: 8000") == Failure(ActsLikeTooLarge)
  {
    var line := "0000: 8000";
    assert line[6..10] == "8000" && line[6..9] == "800";
    assert "800"[..2] == "80" && "80"[..1] == "8" && "8"[..0] == "";
    assert "8000"[..3] == "800";
  }

  /** A fourth character that is not a hexadecimal digit passes verify_acts_like as written. */
  lemma ActsLikeNonHexAccepted()
    ensures VerifyActsLikeAsWritten("0000: 123G") == Success(0x123)
    ensures VerifyActsLike("0000: 123G") == Failure(ActsLikeNotHex)
  {
    var line := "0000: 123G";
    assert line[6..10] == "123G" && line[6..9] == "123";
    assert "123"[..2] == "12" && "12"[..1] == "1" && "1"[..0] == "";
    assert !IsUpperHexDigit(line[6..10][3]);
  }

  /** Where the corrected acts-like check accepts, the check as written reads the same setting. */
  lemma ActsLikeFieldAgrees(line: string)
    requires VerifyActsLike(line).Success?
    ensures ActsLikeField(line, true) == VerifyActsLike(line)
  {
    var w := line[6..10];
    assert forall i :: 6 <= i < 10 ==> line[i] == w[i - 6];
    assert forall i :: 6 <= i < 10 ==> IsUpperOrDigit(line[i]) && IsHexDigit(line[i]);
    assert AllHex(line[6..9]) by {
      assert forall i :: 0 <= i < 3 ==> line[6..9][i] == w[i];
    }
  }

  /**
   * Every full line the corrected verifier accepts passes verify_full as
   * written with the same reading and converts to the same bytes: the
   * correction only narrows what the source accepts.
   */
  lemma FullCorrectedNarrowsAsWritten(line: string, n: nat)
    requires VerifyFull(line, n, false).Success?
    ensures VerifyFull(line, n, true) == VerifyFull(line, n, false)
    ensures ConvertFull(line, n, true) == ConvertFull(line, n, false)
  {
    if VerifyFull(line, n, false).value.FullSpec? {
      ActsLikeFieldAgrees(line);
      assert IsHexDigit(line[9]) by {
        assert line[9] == line[6..10][3];
      }
    }
  }

  /** The same for acts-like-only lines. */
  lemma ActsLikeOnlyCorrectedNarrowsAsWritten(line: string, n: nat)
    requires VerifyActsLikeOnly(line, n, false).Success?
    ensures VerifyActsLikeOnly(line, n, true) == VerifyActsLikeOnly(line, n, false)
    ensures ConvertActsLikeOnly(line, n, true) == ConvertActsLikeOnly(line, n, false)
  {
    ActsLikeFieldAgrees(line);
  }

  /** "0000: " is the prefix of tile 0. */
  lemma TileZeroPrefix(line: string)
    requires |line| >= 6 && line[..6] == "0000: "
    ensures VerifyTileNumber(line, 0) == Success(6)
  {
    FormatHexWidth(0, 4);
    assert FormatHex(0, 4) == "0000";
    TileNumberOfPrefix(line, 0);
  }

  /**
   * As the source is written, the acts-like-only line "0000: 8000" converts
   * to the setting 0x8000 that the 0x7FFF bound was meant to refuse; the
   * corrected check refuses the line.
   */
  lemma ActsLikeOnly8000Converts()
    ensures ConvertActsLikeOnly("0000: 8000", 0, true) == Success(Split2(0x8000))
    ensures ConvertActsLikeOnly("0000: 8000", 0, false) == Failure(ActsLikeTooLarge)
  {
    var line := "0000: 8000";
    TileZeroPrefix(line);
    ActsLike8000Accepted();
    Scan8000();
    assert line[6] != EmptyTileShorthand;
  }

  lemma Scan8000()
    ensures |"0000: 8000"| == 10 && AllHex("0000: 8000"[6..9]) && ScanActsLike("0000: 8000") == 0x8000
  {
    var line := "0000: 8000";
    assert line[6..10] == "8000" && line[6..9] == "800" && "8000"[..3] == "800";
    assert "800"[..2] == "80" && "80"[..1] == "8" && "8"[..0] == "";
  }

  /**
   * As the source is written, "0000: 123G" converts to the setting 0x123:
   * sscanf stops at the 'G' the check let through. The corrected check
   * refuses the line.
   */
  lemma ActsLikeOnlyNonHexConverts()
    ensures ConvertActsLikeOnly("0000: 123G", 0, true) == Success(Split2(0x123))
    ensures ConvertActsLikeOnly("0000: 123G", 0, false) == Failure(ActsLikeNotHex)
  {
    var line := "0000: 123G";
    TileZeroPrefix(line);
    ActsLikeNonHexAccepted();
    Scan123G();
    assert line[6] != EmptyTileShorthand;
  }

  lemma Scan123G()
    ensures |"0000: 123G"| == 10 && AllHex("0000: 123G"[6..9]) && ScanActsLike("0000: 123G") == 0x123
  {
    var line := "0000: 123G";
    assert line[6..9] == "123" && line[6..10][3] == 'G' && !IsHexDigit(line[9]);
    assert "123"[..2] == "12" && "12"[..1] == "1" && "1"[..0] == "";
  }
}
