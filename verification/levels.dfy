/**
 * Level files (.mwl) in the levels folder. A level file names the level it
 * belongs to twice: in its file name ("level 105.mwl", three hexadecimal
 * digits) and inside the file, behind two little-endian pointers. Before
 * inserting, every entry of the folder must be a level file whose two
 * numbers agree. The file's bytes are passed in.
 */
module Levels {
  import opened Wrappers
  import opened Strings
  import Numerals
  import Bytes
  import Paths

  /** Levels are numbered from 0 to 0x1FF. */
  const LevelCount: nat := 0x200

  /** Where the pointer to the data pointer table is kept (MWL_DATA_POINTER_TABLE_POINTER_OFFSET). */
  const DataPointerTablePointerOffset: nat := 4

  /**
   * readBytesAt: count bytes from offset, little-endian. Reading past the
   * end of the file is modelled as yielding nothing.
   */
  function ReadBytesAt(data: seq<bv8>, offset: nat, count: nat): (r: Option<nat>)
    ensures r.Some? <==> offset + count <= |data|
    ensures r.Some? ==> r.value < Numerals.Pow(256, count) && Bytes.LeBytes(r.value, count) == data[offset..offset + count]
  {
    if offset + count <= |data| then
      Bytes.LeBytesOfValue(data[offset..offset + count]);
      Some(Bytes.LeValue(data[offset..offset + count]))
    else None
  }

  /** The pointer to the data pointer table, read from its fixed place. */
  function TablePointer(mwl: seq<bv8>): Option<nat>
  {
    ReadBytesAt(mwl, DataPointerTablePointerOffset, 4)
  }

  /** Where the level number is kept: the level information pointer, the first entry of the data pointer table. */
  function LevelSlot(mwl: seq<bv8>): (r: Option<nat>)
    ensures r.Some? ==> TablePointer(mwl).Some? && TablePointer(mwl).value + 4 <= |mwl|
  {
    match TablePointer(mwl)
    case None => None
    case Some(table) => ReadBytesAt(mwl, table, 4)
  }

  /** getInternalLevelNumber: the two bytes at the level slot, when they name a level. */
  function InternalLevelNumber(mwl: seq<bv8>): (r: Option<nat>)
    ensures r.Some? ==> r.value < LevelCount
    ensures r.Some? <==>
      && LevelSlot(mwl).Some?
      && LevelSlot(mwl).value + 2 <= |mwl|
      && ReadBytesAt(mwl, LevelSlot(mwl).value, 2).value < LevelCount
  {
    match LevelSlot(mwl)
    case None => None
    case Some(slot) =>
      match ReadBytesAt(mwl, slot, 2)
      case None => None
      case Some(n) => if n < LevelCount then Some(n) else None
  }

  /**
   * setInternalLevelNumber: the low byte, then the high byte, written at the
   * level slot; every other byte is kept.
   */
  function SetInternalLevelNumber(mwl: seq<bv8>, n: nat): (r: Option<seq<bv8>>)
    ensures r.Some? <==> LevelSlot(mwl).Some? && LevelSlot(mwl).value + 2 <= |mwl|
    ensures r.Some? ==>
      && |r.value| == |mwl|
      && r.value[LevelSlot(mwl).value] as int == n % 256
      && r.value[LevelSlot(mwl).value + 1] as int == (n / 256) % 256
      && forall k :: 0 <= k < |mwl| && k != LevelSlot(mwl).value && k != LevelSlot(mwl).value + 1 ==> r.value[k] == mwl[k]
  {
    match LevelSlot(mwl)
    case None => None
    case Some(slot) =>
      if slot + 2 <= |mwl| then Some(mwl[..slot] + [Bytes.ByteOf(n), Bytes.ByteOf(n / 256)] + mwl[slot + 2..])
      else None
  }

  /** The level slot does not overlap either pointer it is found through. */
  predicate SlotApart(mwl: seq<bv8>)
    requires LevelSlot(mwl).Some?
  {
    var table, slot := TablePointer(mwl).value, LevelSlot(mwl).value;
    (slot + 2 <= DataPointerTablePointerOffset || DataPointerTablePointerOffset + 4 <= slot)
    && (slot + 2 <= table || table + 4 <= slot)
  }

  /** Setting a level number and reading it back gives that number. */
  lemma SetThenGet(mwl: seq<bv8>, n: nat)
    requires n < LevelCount
    requires LevelSlot(mwl).Some? && LevelSlot(mwl).value + 2 <= |mwl| && SlotApart(mwl)
    ensures SetInternalLevelNumber(mwl, n).Some?
    ensures InternalLevelNumber(SetInternalLevelNumber(mwl, n).value) == Some(n)
  {
    var r := SetInternalLevelNumber(mwl, n).value;
    var table, slot := TablePointer(mwl).value, LevelSlot(mwl).value;
    ReadApart(mwl, r, slot, DataPointerTablePointerOffset, 4);
    assert TablePointer(r) == Some(table);
    ReadApart(mwl, r, slot, table, 4);
    assert LevelSlot(r) == Some(slot);
    assert r[slot..slot + 2] == [Bytes.ByteOf(n), Bytes.ByteOf(n / 256)];
    TwoBytes(n);
  }

  /** Bytes away from the two written ones read the same after the write. */
  lemma ReadApart(mwl: seq<bv8>, r: seq<bv8>, slot: nat, offset: nat, count: nat)
    requires |r| == |mwl| && offset + count <= |mwl|
    requires forall k :: 0 <= k < |mwl| && k != slot && k != slot + 1 ==> r[k] == mwl[k]
    requires slot + 2 <= offset || offset + count <= slot
    ensures ReadBytesAt(r, offset, count) == ReadBytesAt(mwl, offset, count)
  {
    assert r[offset..offset + count] == mwl[offset..offset + count];
  }

  /** A level number below 0x200 written low byte first reads back as itself. */
  lemma TwoBytes(n: nat)
    requires n < LevelCount
    ensures Bytes.LeValue([Bytes.ByteOf(n), Bytes.ByteOf(n / 256)]) == n
  {
    var lo, hi := Bytes.ByteOf(n), Bytes.ByteOf(n / 256);
    assert lo as int == n % 256;
    assert hi as int == n / 256;
    LeValueOfTwo(lo, hi);
    hide *;
    assert n == 256 * (n / 256) + n % 256;
  }

  /** Two bytes read little-endian: the first plus 256 times the second. */
  lemma LeValueOfTwo(lo: bv8, hi: bv8)
    ensures Bytes.LeValue([lo, hi]) == lo as int + 256 * (hi as int)
  {
    var two := [lo, hi];
    assert two[1..] == [hi];
    assert [hi][1..] == [];
    assert Bytes.LeValue([hi]) == hi as int;
  }

  /**
   * std::stoi(s, &parsed, 16) on the three letters or digits of a level file
   * name, when it reads all three; letters and digits carry no sign.
   */
  function HexField(s: string): (r: Option<nat>)
    requires |s| == 3 && forall k :: 0 <= k < 3 ==> Numerals.IsAlnum(s[k])
    ensures r.Some? <==> Numerals.StoiHex(s).Some? && Numerals.StoiHex(s).value.1 == 3
    ensures r.Some? ==> r.value == Numerals.StoiHex(s).value.0
  {
    assert Numerals.IsAlnum(s[0]);
    assert !Numerals.IsSpace(s[0]) && s[0] != '+' && s[0] != '-';
    match Numerals.StoiHex(s)
    case None => None
    case Some((v, parsed)) => if parsed == 3 then Some(v) else None
  }

  const LevelPrefix: string := "level "

  /** The level number a file stem spells: "level " and three letters or digits, read as hexadecimal. */
  function ExternalFromStem(stem: string): (r: Option<nat>)
    ensures r.Some? ==> r.value < LevelCount && |stem| == 9 && StartsWith(stem, LevelPrefix)
  {
    if !StartsWith(stem, LevelPrefix) then None
    else if |stem| != 9 then None
    else if !(forall k :: 6 <= k < 9 ==> Numerals.IsAlnum(stem[k])) then None
    else match HexField(stem[6..9])
      case None => None
      case Some(n) => if n < LevelCount then Some(n) else None
  }

  /** getExternalLevelNumber: the level number the file name spells, if it spells one. */
  function ExternalLevelNumber(name: string): Option<nat>
  {
    ExternalFromStem(Paths.Stem(name))
  }

  /** The stem of a level's canonical file name ("level {:03X}"). */
  function CanonicalStem(n: nat): string
  {
    LevelPrefix + Numerals.FormatHex(n, 3)
  }

  /** The canonical name of a level reads back as that level. */
  lemma CanonicalStemRoundTrip(n: nat)
    requires n < LevelCount
    ensures ExternalFromStem(CanonicalStem(n)) == Some(n)
  {
    assert Numerals.Pow(16, 3) == 0x1000;
    Numerals.FormatHexWidth(n, 3);
    var s := CanonicalStem(n);
    var digits := Numerals.FormatHex(n, 3);
    assert s[6..9] == digits;
    assert s[..6] == LevelPrefix;
    forall k | 6 <= k < 9 ensures Numerals.IsAlnum(s[k]) {
      assert s[k] == digits[k - 6];
      assert Numerals.IsUpperHexDigit(digits[k - 6]);
    }
    assert Numerals.AllHex(digits);
    Numerals.StoiHexOfDigits(digits);
  }

  /** The canonical file name's extension and stem. */
  lemma CanonicalFileName(n: nat)
    ensures Paths.Extension(CanonicalStem(n) + ".mwl") == ".mwl"
    ensures Paths.Stem(CanonicalStem(n) + ".mwl") == CanonicalStem(n)
  {
    var stem := CanonicalStem(n);
    Paths.ExtensionOfStem(stem, "mwl");
    assert stem + "." + "mwl" == stem + ".mwl";
    Paths.StemIs(stem + ".mwl");
    assert (stem + ".mwl")[..|stem|] == stem;
  }

  /** An entry of the levels folder with what reading it gives. */
  datatype FolderEntry = FolderEntry(name: string, isDirectory: bool, contents: seq<bv8>)

  datatype NormalizeError =
    | DirectoryInLevels(name: string)
    | NotALevelFile(name: string)
    | UnreadableLevelNumber(name: string)
    | MalformedFileName(name: string)
    | NumberMismatch(name: string, internal: nat, external: nat)

  /** The checks normalizeMwls makes of one entry when it may not ask the user, in order. */
  function CheckEntry(e: FolderEntry): (r: Result<(), NormalizeError>)
    ensures r.Success? <==>
      && !e.isDirectory
      && Paths.Extension(e.name) == ".mwl"
      && InternalLevelNumber(e.contents).Some?
      && ExternalLevelNumber(e.name) == InternalLevelNumber(e.contents)
    ensures r.Failure? && r.error.NumberMismatch? ==> r.error.internal != r.error.external
  {
    if e.isDirectory then Failure(DirectoryInLevels(e.name))
    else if Paths.Extension(e.name) != ".mwl" then Failure(NotALevelFile(e.name))
    else match InternalLevelNumber(e.contents)
      case None => Failure(UnreadableLevelNumber(e.name))
      case Some(internal) =>
        match ExternalLevelNumber(e.name)
        case None => Failure(MalformedFileName(e.name))
        case Some(external) =>
          if external != internal then Failure(NumberMismatch(e.name, internal, external)) else Success(())
  }

  /** The checks of every entry, in folder order. */
  function Checks(entries: seq<FolderEntry>): (r: seq<Result<(), NormalizeError>>)
    ensures |r| == |entries| && forall k :: 0 <= k < |entries| ==> r[k] == CheckEntry(entries[k])
  {
    seq(|entries|, k requires 0 <= k < |entries| => CheckEntry(entries[k]))
  }

  /** normalizeMwls without user input: the first entry that fails a check stops the build. */
  function NormalizeMwls(entries: seq<FolderEntry>): (r: Result<(), NormalizeError>)
    ensures r.Success? <==> forall k :: 0 <= k < |entries| ==> CheckEntry(entries[k]).Success?
    ensures r.Failure? ==> exists k :: FailsFirstAt(Checks(entries), k, r.error)
  {
    FirstFailure(Checks(entries))
  }

  /** A level file under its canonical name whose contents name the same level passes the checks. */
  lemma CanonicalEntryPasses(n: nat, contents: seq<bv8>)
    requires InternalLevelNumber(contents) == Some(n)
    ensures CheckEntry(FolderEntry(CanonicalStem(n) + ".mwl", false, contents)).Success?
  {
    CanonicalFileName(n);
    CanonicalStemRoundTrip(n);
  }
}
