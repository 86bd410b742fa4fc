/**
 * Reading and writing the numbers inside an exported level file (.mwl), as
 * the level extractable does when it normalizes a file: pointers are read
 * as four little-endian bytes, level objects and screen exits as big-endian
 * runs. A level object is a run of three to eight bytes whose length the
 * object's number decides; screen exits are four or five bytes long and
 * carry a "new screen" flag in their top bit.
 */
module LevelObjects {
  import opened Wrappers
  import Numerals
  import Bytes

  /** fourBytesToInt: four bytes from offset, least significant first, as an unsigned 32-bit word. */
  function FourBytesToInt(bytes: seq<bv8>, offset: nat): (r: Option<bv32>)
    ensures r.Some? <==> offset + 4 <= |bytes|
    ensures r.Some? ==> r.value as int == Bytes.LeValue(bytes[offset..offset + 4])
  {
    if offset + 4 <= |bytes| then
      var s := bytes[offset..offset + 4];
      Bytes.JoinBytes4(s);
      Bytes.JoinBytesValue(s);
      OrIsSum(s[3] as bv32, s[2] as bv32, s[1] as bv32, s[0] as bv32);
      Some(((s[3] as bv32) << 24) | ((s[2] as bv32) << 16) | ((s[1] as bv32) << 8) | (s[0] as bv32))
    else None
  }

  /** Bytes shifted into separate places combine the same with | as with +. */
  lemma OrIsSum(a: bv32, b: bv32, c: bv32, d: bv32)
    requires a <= 0xFF && b <= 0xFF && c <= 0xFF && d <= 0xFF
    ensures (a << 24) | (b << 16) | (c << 8) | d == d + (c << 8) + (b << 16) + (a << 24)
  {
  }

  /** The number a big-endian run of bytes denotes: the last byte is the least significant one. */
  function BeValue(s: seq<bv8>): (n: nat)
    ensures n < Numerals.Pow(256, |s|)
  {
    if |s| == 0 then 0
    else
      var front := BeValue(s[..|s| - 1]);
      BelowNextPower(front, s[|s| - 1] as int, Numerals.Pow(256, |s| - 1));
      256 * front + s[|s| - 1] as int
  }

  lemma BelowNextPower(front: nat, last: nat, p: nat)
    requires front < p && last < 256
    ensures 256 * front + last < 256 * p
  {
  }

  /**
   * bytesToInt: `number` bytes from offset, most significant first. Nothing
   * is read when `number` is 0; otherwise every byte must exist.
   */
  function BytesAt(bytes: seq<bv8>, offset: nat, number: nat): (r: Option<nat>)
    ensures r.Some? <==> number == 0 || offset + number <= |bytes|
  {
    if number == 0 then Some(0)
    else if offset + number <= |bytes| then Some(BeValue(bytes[offset..offset + number]))
    else None
  }

  /**
   * bytesToInt as a loop: each byte is shifted into its place and or-ed into
   * a 64-bit accumulator, so at most eight bytes fit. The first byte that is
   * not there stops the reading.
   */
  method BytesToInt(bytes: seq<bv8>, offset: nat, number: nat) returns (r: Option<nat>)
    requires number <= 8
    ensures r == BytesAt(bytes, offset, number)
    ensures r.Some? ==> r.value < Numerals.Pow(256, number)
  {
    hide *;
    var comb := 0;
    var i := 0;
    ReadNothing(bytes, offset, number);
    while i != number
      invariant 0 <= i <= number
      invariant i > 0 ==> offset + i <= |bytes|
      invariant comb == ReadSoFar(bytes, offset, i) * Numerals.Pow(256, number - i)
    {
      if offset + i >= |bytes| {
        return None;
      }
      var x := bytes[offset + i];
      var p := Numerals.Pow(256, number - i - 1);
      NextByte(bytes, offset, i);
      PowStep(number - i);
      ShiftInto(ReadSoFar(bytes, offset, i), x as int, p);
      comb := comb + x as int * p;
      i := i + 1;
    }
    ReadAll(bytes, offset, number);
    return Some(comb);
  }

  /** Before the loop nothing is read. */
  lemma ReadNothing(bytes: seq<bv8>, offset: nat, number: nat)
    ensures ReadSoFar(bytes, offset, 0) * Numerals.Pow(256, number) == 0
  {
  }

  lemma PowStep(e: nat)
    requires e > 0
    ensures Numerals.Pow(256, e) == 256 * Numerals.Pow(256, e - 1)
  {
  }

  /** After the loop every byte is read, and that is what BytesAt gives. */
  lemma ReadAll(bytes: seq<bv8>, offset: nat, number: nat)
    requires number == 0 || offset + number <= |bytes|
    ensures Numerals.Pow(256, 0) == 1
    ensures BytesAt(bytes, offset, number) == Some(ReadSoFar(bytes, offset, number))
    ensures ReadSoFar(bytes, offset, number) < Numerals.Pow(256, number)
  {
    if number > 0 {
      assert ReadSoFar(bytes, offset, number) == BeValue(bytes[offset..offset + number]);
    }
  }

  /** The value of the first i bytes from offset. */
  function ReadSoFar(bytes: seq<bv8>, offset: nat, i: nat): nat
    requires i == 0 || offset + i <= |bytes|
  {
    if i == 0 then 0 else BeValue(bytes[offset..offset + i])
  }

  /** The value of one more byte of a big-endian run. */
  lemma NextByte(bytes: seq<bv8>, offset: nat, i: nat)
    requires offset + i < |bytes|
    ensures ReadSoFar(bytes, offset, i + 1) == 256 * ReadSoFar(bytes, offset, i) + bytes[offset + i] as int
  {
    assert bytes[offset..offset + i + 1][..i] == bytes[offset..offset + i];
  }

  /** Adding the next byte at its place extends the value read so far by one byte. */
  lemma ShiftInto(before: nat, x: nat, p: nat)
    ensures before * (256 * p) + x * p == (256 * before + x) * p
  {
  }

  /** The word bytesToInt(bytes, offset, 2) gives, as sixteen bits. */
  function Word(bytes: seq<bv8>, offset: nat): (w: bv16)
    requires offset + 2 <= |bytes|
    ensures BytesAt(bytes, offset, 2) == Some(w as int)
  {
    var hi, lo := bytes[offset], bytes[offset + 1];
    var s := bytes[offset..offset + 2];
    assert s[..1][..0] == [];
    assert BeValue(s[..1]) == hi as int;
    assert BeValue(s) == 256 * hi as int + lo as int;
    WordValue(hi, lo);
    ((hi as bv16) << 8) | (lo as bv16)
  }

  lemma WordValue(hi: bv8, lo: bv8)
    ensures (((hi as bv16) << 8) | (lo as bv16)) as int == 256 * (hi as int) + lo as int
  {
  }

  /**
   * getStandardObjectId: bits 13-14 and 4-7 of the object's first word.
   * Read on the two bytes: bits 5-6 of the first byte give the high two bits
   * of the number, the high nibble of the second byte the low four.
   */
  function StandardObjectId(bytes: seq<bv8>, offset: nat): (r: Option<bv8>)
    ensures r.Some? <==> offset + 2 <= |bytes|
    ensures r.Some? ==> r.value < 0x40
    ensures r.Some? ==> r.value as int == 16 * ((bytes[offset] as int / 32) % 4) + bytes[offset + 1] as int / 16
  {
    if offset + 2 <= |bytes| then
      var two := Word(bytes, offset);
      IdBits(bytes[offset], bytes[offset + 1]);
      Some((((two & 0x6000) >> 9) | ((two & 0x00F0) >> 4)) as bv8)
    else None
  }

  lemma IdBits(hi: bv8, lo: bv8)
    ensures var two := ((hi as bv16) << 8) | (lo as bv16);
      var id := ((two & 0x6000) >> 9) | ((two & 0x00F0) >> 4);
      id < 0x40 && id as int == 16 * ((hi as int / 32) % 4) + lo as int / 16
  {
    var two := ((hi as bv16) << 8) | (lo as bv16);
    var x, y := ((hi as bv16 >> 5) & 3) << 4, lo as bv16 >> 4;
    HighIdBits(hi, lo);
    LowIdBits(hi, lo);
    HighIdValue(hi);
    LowIdValue(lo);
    OrOfDisjoint(x, y);
  }

  lemma HighIdBits(hi: bv8, lo: bv8)
    ensures ((((hi as bv16) << 8) | (lo as bv16)) & 0x6000) >> 9 == ((hi as bv16 >> 5) & 3) << 4
  {
  }

  lemma LowIdBits(hi: bv8, lo: bv8)
    ensures ((((hi as bv16) << 8) | (lo as bv16)) & 0x00F0) >> 4 == lo as bv16 >> 4
  {
  }

  lemma HighIdValue(hi: bv8)
    ensures ((hi as bv16 >> 5) & 3) << 4 <= 0x30 && (((hi as bv16 >> 5) & 3) << 4) & 0xF == 0
    ensures (((hi as bv16 >> 5) & 3) << 4) as int == 16 * ((hi as int / 32) % 4)
  {
  }

  lemma LowIdValue(lo: bv8)
    ensures lo as bv16 >> 4 < 16 && (lo as bv16 >> 4) as int == lo as int / 16
  {
  }

  lemma OrOfDisjoint(x: bv16, y: bv16)
    requires x <= 0x30 && x & 0xF == 0 && y < 16
    ensures x | y < 0x40 && (x | y) as int == x as int + y as int
  {
  }

  /** getExtendedObjectNumber: the third byte of an extended object. */
  function ExtendedObjectNumber(bytes: seq<bv8>, offset: nat): (r: Option<bv8>)
    ensures r.Some? <==> offset + 3 <= |bytes|
    ensures r.Some? ==> r.value == bytes[offset + 2]
  {
    if offset + 3 <= |bytes| then
      assert bytes[offset + 2..offset + 3][..0] == [];
      Some(bytes[offset + 2])
    else None
  }

  /**
   * get27_29Size: objects 0x27 and 0x29 are five to eight bytes long, told
   * apart by the top two bits of their fourth byte and, when both are set,
   * the top bit of the third.
   */
  function Get27_29Size(bytes: seq<bv8>, offset: nat): (r: Option<nat>)
    ensures r.Some? <==> offset + 4 <= |bytes|
    ensures r.Some? ==>
      && 5 <= r.value <= 8
      && (r.value == 5 <==> bytes[offset + 3] < 0x80)
      && (r.value == 6 <==> 0x80 <= bytes[offset + 3] < 0xC0)
      && (r.value == 7 <==> 0xC0 <= bytes[offset + 3] && bytes[offset + 2] < 0x80)
  {
    if offset + 4 <= |bytes| then
      var masked := (bytes[offset + 3] & 0xC0) >> 6;
      if masked != 3 then
        if masked == 0 then Some(5)
        else if masked == 1 then Some(5)
        else Some(6)
      else
        var masked2 := (bytes[offset + 2] & 0x80) >> 7;
        if masked2 == 0 then Some(7) else Some(8)
    else None
  }

  /** How far to skip over one level object, and whether it is a screen exit. */
  datatype Skip = Skip(screenExit: bool, length: nat)

  /** The object at offset is a screen exit: standard number 0 and extended number 0 (four bytes) or 2 (five bytes). */
  predicate IsScreenExitAt(bytes: seq<bv8>, offset: nat)
  {
    && offset + 3 <= |bytes|
    && StandardObjectId(bytes, offset) == Some(0)
    && (bytes[offset + 2] == 0 || bytes[offset + 2] == 2)
  }

  /**
   * determineSkip: the length of the object at offset, by its standard and
   * extended numbers. Reading a byte past the end throws in the source
   * (std::vector::at) and gives None here.
   */
  function DetermineSkip(bytes: seq<bv8>, offset: nat): (r: Option<Skip>)
    ensures r.None? <==>
      || offset + 2 > |bytes|
      || (StandardObjectId(bytes, offset) == Some(0) && offset + 3 > |bytes|)
      || (StandardObjectId(bytes, offset) in {Some(0x27), Some(0x29)} && offset + 4 > |bytes|)
    ensures r.Some? ==> 3 <= r.value.length <= 8 && offset + 2 <= |bytes|
    ensures r.Some? ==> (r.value.screenExit <==> IsScreenExitAt(bytes, offset))
    ensures r.Some? && r.value.screenExit ==> r.value.length == (if bytes[offset + 2] == 0 then 4 else 5)
    ensures r.Some? ==>
      var id := StandardObjectId(bytes, offset).value;
      && (id == 0 && !r.value.screenExit ==> r.value.length == 3)
      && (0x22 <= id <= 0x25 ==> r.value.length == 4)
      && (id == 0x26 || id == 0x28 ==> r.value.length == 3)
      && (id == 0x27 || id == 0x29 ==> Get27_29Size(bytes, offset) == Some(r.value.length))
      && (id == 0x2D ==> r.value.length == 5)
      && (id != 0 && !(0x22 <= id <= 0x29) && id != 0x2D ==> r.value.length == 3)
  {
    match StandardObjectId(bytes, offset)
    case None => None
    case Some(id) =>
      if id == 0x0 then
        match ExtendedObjectNumber(bytes, offset)
        case None => None
        case Some(extended) =>
          if extended == 0x0 then Some(Skip(true, 4))
          else if extended == 0x2 then Some(Skip(true, 5))
          else Some(Skip(false, 3))
      else if id == 0x22 || id == 0x23 then Some(Skip(false, 4))
      else if id == 0x24 || id == 0x25 then Some(Skip(false, 4))
      else if id == 0x26 then Some(Skip(false, 3))
      else if id == 0x27 || id == 0x29 then
        match Get27_29Size(bytes, offset)
        case None => None
        case Some(size) => Some(Skip(false, size))
      else if id == 0x28 then Some(Skip(false, 3))
      else if id == 0x2D then Some(Skip(false, 5))
      else Some(Skip(false, 3))
  }

  /** The k low bytes of n, most significant first. */
  function BeBytes(n: nat, k: nat): (r: seq<bv8>)
    ensures |r| == k
  {
    if k == 0 then [] else BeBytes(n / 256, k - 1) + [Bytes.ByteOf(n)]
  }

  /** Reading back k bytes written by BeBytes gives n modulo 256^k. */
  lemma {:induction false} BeValueOfBytes(n: nat, k: nat)
    ensures BeValue(BeBytes(n, k)) == n % Numerals.Pow(256, k)
  {
    if k > 0 {
      var s := BeBytes(n, k);
      assert s[..k - 1] == BeBytes(n / 256, k - 1);
      BeValueOfBytes(n / 256, k - 1);
      Bytes.DivMod256(n, Numerals.Pow(256, k - 1));
    }
  }

  /** k bytes of mwl from offset replaced by the big-endian bytes of n. */
  function WriteBytes(mwl: seq<bv8>, offset: nat, n: nat, k: nat): (r: seq<bv8>)
    requires offset + k <= |mwl|
    ensures |r| == |mwl|
    ensures r[offset..offset + k] == BeBytes(n, k)
    ensures forall j :: 0 <= j < |mwl| && !(offset <= j < offset + k) ==> r[j] == mwl[j]
  {
    var r := mwl[..offset] + BeBytes(n, k) + mwl[offset + k..];
    assert r[offset..offset + k] == BeBytes(n, k);
    r
  }

  /** What WriteBytes puts in place reads back with bytesToInt, when it fits in k bytes. */
  lemma WrittenReadsBack(mwl: seq<bv8>, offset: nat, n: nat, k: nat)
    requires offset + k <= |mwl| && n < Numerals.Pow(256, k)
    ensures BytesAt(WriteBytes(mwl, offset, n, k), offset, k) == Some(n)
  {
    if k > 0 {
      var r := WriteBytes(mwl, offset, n, k);
      assert r[offset..offset + k] == BeBytes(n, k);
      BeValueOfBytes(n, k);
      Bytes.DivModUnique(n, Numerals.Pow(256, k), 0, n);
    }
  }

  /**
   * writeFourBytes: bits 24-31, 16-23, 8-15 and 0-7 of a 32-bit value at
   * offset to offset + 3. The vector is indexed without a bounds check, so
   * the four places must exist.
   */
  function WriteFourBytes(mwl: seq<bv8>, offset: nat, value: nat): (r: seq<bv8>)
    requires offset + 4 <= |mwl| && value < 0x1_0000_0000
    ensures |r| == |mwl|
    ensures forall j :: 0 <= j < |mwl| && !(offset <= j < offset + 4) ==> r[j] == mwl[j]
    ensures BytesAt(r, offset, 4) == Some(value)
  {
    assert Numerals.Pow(256, 4) == 0x1_0000_0000;
    WrittenReadsBack(mwl, offset, value, 4);
    WriteBytes(mwl, offset, value, 4)
  }

  /** A screen exit without its "new screen" flag, and the flag. */
  datatype ScreenExit = ScreenExit(value: nat, isNew: bool)

  /** The top bit of a screen exit of `length` bytes. */
  function NewScreenFlag(length: nat): (m: nat)
    requires length >= 1
    ensures m > 0
  {
    0x80 * Numerals.Pow(256, length - 1)
  }

  /** The exit normalize reads: the big-endian value with its top bit taken off as the flag. */
  function ReadScreenExit(mwl: seq<bv8>, offset: nat, length: nat): (r: Option<ScreenExit>)
    requires length == 4 || length == 5
    ensures r.Some? <==> offset + length <= |mwl|
    ensures r.Some? ==> r.value.value < NewScreenFlag(length)
  {
    match BytesAt(mwl, offset, length)
    case None => None
    case Some(v) =>
      var flag := NewScreenFlag(length);
      var isNew := (v / flag) % 2 == 1;
      TopBit(v, length);
      Some(ScreenExit(if isNew then v - flag else v, isNew))
  }

  /** A value of `length` bytes is below twice its top bit, and its top bit is set exactly when it reaches it. */
  lemma TopBit(v: nat, length: nat)
    requires length >= 1 && v < Numerals.Pow(256, length)
    ensures (v / NewScreenFlag(length)) % 2 == 1 <==> v >= NewScreenFlag(length)
    ensures v >= NewScreenFlag(length) ==> v - NewScreenFlag(length) < NewScreenFlag(length)
  {
    var flag := NewScreenFlag(length);
    assert Numerals.Pow(256, length) == 2 * flag;
    if v >= flag {
      Bytes.DivModUnique(v, flag, 1, v - flag);
    } else {
      Bytes.DivModUnique(v, flag, 0, v);
    }
  }

  /** A four-byte exit written back: the flag or-ed into its top bit, then writeFourBytes. */
  function RewriteFourByteExit(mwl: seq<bv8>, offset: nat, e: ScreenExit): (r: seq<bv8>)
    requires offset + 4 <= |mwl| && e.value < NewScreenFlag(4)
    ensures |r| == |mwl|
  {
    Flag4();
    WriteFourBytes(mwl, offset, if e.isNew then e.value + 0x8000_0000 else e.value)
  }

  lemma Flag4()
    ensures NewScreenFlag(4) == 0x8000_0000
  {
  }

  /** A four-byte exit written back reads as the same exit. */
  lemma FourByteExitRoundTrip(mwl: seq<bv8>, offset: nat, e: ScreenExit)
    requires offset + 4 <= |mwl| && e.value < NewScreenFlag(4)
    ensures ReadScreenExit(RewriteFourByteExit(mwl, offset, e), offset, 4) == Some(e)
  {
    Flag4();
    var v := if e.isNew then e.value + 0x8000_0000 else e.value;
    assert BytesAt(RewriteFourByteExit(mwl, offset, e), offset, 4) == Some(v);
    assert Numerals.Pow(256, 4) == 0x1_0000_0000;
    TopBit(v, 4);
  }

  /**
   * A five-byte exit written back as normalize writes it: the exit was kept
   * in a vector of unsigned int, so only its low 32 bits survive; the flag
   * 0x8000000000 or-ed in lies above those bits and is lost when the value
   * is passed to writeFourBytes, which writes four bytes at the exit's
   * first four places.
   */
  function RewriteFiveByteExitAsWritten(mwl: seq<bv8>, offset: nat, e: ScreenExit): (r: seq<bv8>)
    requires offset + 5 <= |mwl|
    ensures |r| == |mwl| && r[offset + 4] == mwl[offset + 4]
  {
    var kept := e.value % 0x1_0000_0000;
    var masked := if e.isNew then kept + 0x80_0000_0000 else kept;
    WriteFourBytes(mwl, offset, masked % 0x1_0000_0000)
  }

  /**
   * The extended screen exit 00 00 02 00 00 is rewritten as 00 02 00 00 00,
   * which reads as a four-byte screen exit: the walk over the objects would
   * no longer step over the same bytes.
   */
  lemma FiveByteExitCorrupted()
    ensures var mwl: seq<bv8> := [0x00, 0x00, 0x02, 0x00, 0x00];
      && DetermineSkip(mwl, 0) == Some(Skip(true, 5))
      && ReadScreenExit(mwl, 0, 5) == Some(ScreenExit(0x02_0000, false))
      && RewriteFiveByteExitAsWritten(mwl, 0, ScreenExit(0x02_0000, false)) == [0x00, 0x02, 0x00, 0x00, 0x00]
      && DetermineSkip([0x00, 0x02, 0x00, 0x00, 0x00], 0) == Some(Skip(true, 4))
  {
    var mwl: seq<bv8> := [0x00, 0x00, 0x02, 0x00, 0x00];
    assert StandardObjectId(mwl, 0) == Some(0);
    ExitValue(mwl);
    assert mwl[0..5] == mwl;
    assert NewScreenFlag(5) == 0x80_0000_0000 by {
      assert Numerals.Pow(256, 4) == 0x1_0000_0000;
    }
    var r := RewriteFiveByteExitAsWritten(mwl, 0, ScreenExit(0x02_0000, false));
    assert r[0..4] == BeBytes(0x02_0000, 4);
    WrittenExitBytes();
    assert r == [0x00, 0x02, 0x00, 0x00, 0x00];
    assert StandardObjectId(r, 0) == Some(0x00);
  }

  lemma ExitValue(s: seq<bv8>)
    requires s == [0x00, 0x00, 0x02, 0x00, 0x00]
    ensures BeValue(s) == 0x02_0000
  {
    var one: seq<bv8> := [0x00];
    var two: seq<bv8> := [0x00, 0x00];
    var three: seq<bv8> := [0x00, 0x00, 0x02];
    var four: seq<bv8> := [0x00, 0x00, 0x02, 0x00];
    assert one[..0] == [] && two[..1] == one && three[..2] == two && four[..3] == three && s[..4] == four;
    assert BeValue(one) == 0;
    assert BeValue(two) == 0;
    assert BeValue(three) == 2;
    assert BeValue(four) == 0x200;
  }

  lemma WrittenExitBytes()
    ensures BeBytes(0x02_0000, 4) == [0x00, 0x02, 0x00, 0x00]
  {
    assert BeBytes(0, 1) == [Bytes.ByteOf(0)];
    assert BeBytes(0x02, 2) == BeBytes(0, 1) + [Bytes.ByteOf(0x02)];
    assert BeBytes(0x0200, 3) == BeBytes(0x02, 2) + [Bytes.ByteOf(0x0200)];
  }

  /** A five-byte exit written back as intended: all five bytes, flag included. */
  function RewriteFiveByteExit(mwl: seq<bv8>, offset: nat, e: ScreenExit): (r: seq<bv8>)
    requires offset + 5 <= |mwl| && e.value < NewScreenFlag(5)
    ensures |r| == |mwl|
    ensures forall j :: 0 <= j < |mwl| && !(offset <= j < offset + 5) ==> r[j] == mwl[j]
    ensures BytesAt(r, offset, 5) == Some(if e.isNew then e.value + NewScreenFlag(5) else e.value)
  {
    var v := if e.isNew then e.value + NewScreenFlag(5) else e.value;
    assert Numerals.Pow(256, 5) == 2 * NewScreenFlag(5);
    WrittenReadsBack(mwl, offset, v, 5);
    WriteBytes(mwl, offset, v, 5)
  }

  /** A five-byte exit written back as intended reads as the same exit. */
  lemma FiveByteExitRoundTrip(mwl: seq<bv8>, offset: nat, e: ScreenExit)
    requires offset + 5 <= |mwl| && e.value < NewScreenFlag(5)
    ensures ReadScreenExit(RewriteFiveByteExit(mwl, offset, e), offset, 5) == Some(e)
  {
    var v := if e.isNew then e.value + NewScreenFlag(5) else e.value;
    assert Numerals.Pow(256, 5) == 2 * NewScreenFlag(5);
    TopBit(v, 5);
  }
}
