/**
 * The marker a build leaves in the ROM: which kinds of resource were in the
 * project when the ROM was last synced (a 16-bit field, one bit per kind)
 * and when (a timestamp stored as a 16-bit high part and a 24-bit low
 * part). On the next sync only kinds that are new since then need to be
 * extracted again, unless the marker cannot be trusted.
 */
module Marker {
  import opened Wrappers
  import Numerals

  /** The kinds of resource extracted from a ROM, in declaration order. */
  datatype ExtractableType =
    | BinaryMap16 | TextMap16 | Credits | GlobalExAnimation | Overworld
    | TitleScreen | Levels | SharedPalettes | Graphics | ExGraphics

  /** The number of kinds (the enumeration's end marker). */
  const ExtractableCount: nat := 10

  function Ordinal(t: ExtractableType): (i: nat)
    ensures i < ExtractableCount
  {
    match t
    case BinaryMap16 => 0
    case TextMap16 => 1
    case Credits => 2
    case GlobalExAnimation => 3
    case Overworld => 4
    case TitleScreen => 5
    case Levels => 6
    case SharedPalettes => 7
    case Graphics => 8
    case ExGraphics => 9
  }

  /** The kind with ordinal i (static_cast<ExtractableType>(i)). */
  function OfOrdinal(i: nat): (t: ExtractableType)
    requires i < ExtractableCount
    ensures Ordinal(t) == i
  {
    if i == 0 then BinaryMap16 else if i == 1 then TextMap16 else if i == 2 then Credits
    else if i == 3 then GlobalExAnimation else if i == 4 then Overworld else if i == 5 then TitleScreen
    else if i == 6 then Levels else if i == 7 then SharedPalettes else if i == 8 then Graphics
    else ExGraphics
  }

  /** The ordinal names its kind and no other. */
  lemma OrdinalInjective(s: ExtractableType, t: ExtractableType)
    ensures Ordinal(s) == Ordinal(t) <==> s == t
  {
  }

  /** 1 << i for a kind's ordinal. */
  function Bit(i: nat): (b: bv16)
    requires i < ExtractableCount
  {
    if i == 0 then 1 else if i == 1 then 2 else if i == 2 then 4 else if i == 3 then 8
    else if i == 4 then 0x10 else if i == 5 then 0x20 else if i == 6 then 0x40
    else if i == 7 then 0x80 else if i == 8 then 0x100 else 0x200
  }

  lemma BitIsShift(i: nat)
    requires i < ExtractableCount
    ensures Bit(i) == (1 as bv16) << i
  {
  }

  predicate HasBit(field: bv16, i: nat)
    requires i < ExtractableCount
  {
    field & Bit(i) != 0
  }

  /** Distinct ordinals have disjoint bits. */
  lemma BitsDisjoint(i: nat, j: nat)
    requires i < ExtractableCount && j < ExtractableCount
    ensures HasBit(Bit(i), j) <==> i == j
  {
  }

  /** The bits of all kinds together. */
  const AllKinds: bv16 := 0x3FF

  /** extractablesToBitField: the bit of each listed kind. */
  function ExtractablesToBitField(xs: seq<ExtractableType>): (field: bv16)
    ensures field & !AllKinds == 0
  {
    if |xs| == 0 then 0 else ExtractablesToBitField(xs[..|xs| - 1]) | Bit(Ordinal(xs[|xs| - 1]))
  }

  /** Bit i of the field is set exactly when a kind with ordinal i is listed. */
  lemma {:induction false} BitFieldHasKind(xs: seq<ExtractableType>, t: ExtractableType)
    ensures HasBit(ExtractablesToBitField(xs), Ordinal(t)) <==> t in xs
  {
    hide *;
    if |xs| == 0 {
      EmptyField(xs, Ordinal(t));
    } else {
      var init, last := xs[..|xs| - 1], xs[|xs| - 1];
      BitFieldHasKind(init, t);
      FieldOfLast(xs);
      OrBit(ExtractablesToBitField(init), Ordinal(last), Ordinal(t));
      OrdinalInjective(last, t);
      InInitOrLast(xs, t);
    }
  }

  /** No bit is set for the empty list. */
  lemma EmptyField(xs: seq<ExtractableType>, i: nat)
    requires |xs| == 0 && i < ExtractableCount
    ensures !HasBit(ExtractablesToBitField(xs), i)
  {
    assert ExtractablesToBitField(xs) == 0;
  }

  /** The field of a non-empty list adds the last kind's bit to the field of the others. */
  lemma FieldOfLast(xs: seq<ExtractableType>)
    requires |xs| > 0
    ensures ExtractablesToBitField(xs) == ExtractablesToBitField(xs[..|xs| - 1]) | Bit(Ordinal(xs[|xs| - 1]))
  {
  }

  lemma InInitOrLast<T>(xs: seq<T>, t: T)
    requires |xs| > 0
    ensures t in xs <==> t in xs[..|xs| - 1] || t == xs[|xs| - 1]
  {
    assert xs == xs[..|xs| - 1] + [xs[|xs| - 1]];
  }

  lemma OrBit(field: bv16, i: nat, j: nat)
    requires i < ExtractableCount && j < ExtractableCount
    ensures HasBit(field | Bit(i), j) <==> HasBit(field, j) || i == j
  {
    hide *;
    HasBitIs(field | Bit(i), j);
    HasBitIs(field, j);
    HasBitIs(Bit(i), j);
    BitsDisjoint(i, j);
    OrMasked(field, Bit(i), Bit(j));
  }

  lemma HasBitIs(field: bv16, i: nat)
    requires i < ExtractableCount
    ensures HasBit(field, i) <==> field & Bit(i) != 0
  {
  }

  /** A bit is newly set exactly when it is set in the new field and not in the old one. */
  lemma AddedBit(oldField: bv16, newField: bv16, i: nat)
    requires i < ExtractableCount
    ensures HasBit(!oldField & newField, i) <==> HasBit(newField, i) && !HasBit(oldField, i)
  {
    var b := Bit(i);
    assert b == 1 || b == 2 || b == 4 || b == 8 || b == 0x10 || b == 0x20 || b == 0x40 || b == 0x80 || b == 0x100 || b == 0x200;
    SingleBitMask(oldField, newField, b);
  }

  lemma SingleBitMask(a: bv16, c: bv16, b: bv16)
    requires b == 1 || b == 2 || b == 4 || b == 8 || b == 0x10 || b == 0x20 || b == 0x40 || b == 0x80 || b == 0x100 || b == 0x200
    ensures (!a & c) & b != 0 <==> c & b != 0 && a & b == 0
  {
  }

  lemma OrMasked(a: bv16, b: bv16, c: bv16)
    ensures (a | b) & c != 0 <==> a & c != 0 || b & c != 0
  {
    assert (a | b) & c == (a & c) | (b & c);
  }

  /** The kinds whose bit is set in field, taken in ascending ordinal order from `from` on. */
  function KindsFrom(field: bv16, from: nat): (r: seq<ExtractableType>)
    requires from <= ExtractableCount
    ensures forall t :: t in r <==> from <= Ordinal(t) && HasBit(field, Ordinal(t))
    ensures forall a, b :: 0 <= a < b < |r| ==> Ordinal(r[a]) < Ordinal(r[b])
    decreases ExtractableCount - from
  {
    if from == ExtractableCount then []
    else
      var rest := KindsFrom(field, from + 1);
      if HasBit(field, from) then [OfOrdinal(from)] + rest else rest
  }

  /**
   * determineAddedExtractables: the kinds set in the new field but not in
   * the old one, by ascending ordinal.
   */
  function DetermineAddedExtractables(oldField: bv16, newField: bv16): (r: seq<ExtractableType>)
    ensures forall t :: t in r <==> HasBit(newField, Ordinal(t)) && !HasBit(oldField, Ordinal(t))
    ensures forall a, b :: 0 <= a < b < |r| ==> Ordinal(r[a]) < Ordinal(r[b])
    ensures oldField == newField ==> r == []
  {
    var added := !oldField & newField;
    forall i | 0 <= i < ExtractableCount
      ensures HasBit(added, i) <==> HasBit(newField, i) && !HasBit(oldField, i)
    {
      AddedBit(oldField, newField, i);
    }
    KindsFrom(added, 0)
  }

  /** Compared through their fields, the added kinds are the new list's kinds missing from the old list. */
  lemma AddedBetweenLists(oldKinds: seq<ExtractableType>, newKinds: seq<ExtractableType>, t: ExtractableType)
    ensures t in DetermineAddedExtractables(ExtractablesToBitField(oldKinds), ExtractablesToBitField(newKinds))
      <==> t in newKinds && t !in oldKinds
  {
    BitFieldHasKind(oldKinds, t);
    BitFieldHasKind(newKinds, t);
  }

  /** The part of the timestamp stored as a 16-bit word. */
  function HighTimestamp(ts: bv64): (h: bv64)
    ensures h < 0x1_0000
  {
    (ts & 0xFF_FF00_0000) >> 24
  }

  /** The part of the timestamp stored as a 24-bit long. */
  function LowTimestamp(ts: bv64): (l: bv64)
    ensures l < 0x100_0000
  {
    ts & 0xFF_FFFF
  }

  /** The timestamp read back from the two stored parts. */
  function JoinTimestamp(high: bv64, low: bv64): bv64
  {
    (high << 24) | low
  }

  /** A timestamp survives being split and joined exactly when it fits in 40 bits. */
  lemma TimestampRoundTrip(ts: bv64)
    ensures JoinTimestamp(HighTimestamp(ts), LowTimestamp(ts)) == ts <==> ts < 0x100_0000_0000
  {
  }

  /** Splitting a joined pair of parts gives the parts back. */
  lemma TimestampPartsRoundTrip(high: bv64, low: bv64)
    requires high < 0x1_0000 && low < 0x100_0000
    ensures HighTimestamp(JoinTimestamp(high, low)) == high
    ensures LowTimestamp(JoinTimestamp(high, low)) == low
  {
  }

  /** The two stored parts put back in place, high part above the 24 bits of the low part. */
  function PlacedTimestamp(high: nat, low: nat): nat
  {
    high * 0x100_0000 + low
  }

  /**
   * The timestamp as extractInformation reads it back: asar's hex() prints
   * each stored part without leading zeros, and the two texts, high part
   * first, are read together as one hexadecimal number.
   */
  function TextJoinTimestamp(high: nat, low: nat): (t: nat)
    ensures t == high * Numerals.Pow(16, |Numerals.ToHex(low)|) + low
  {
    Numerals.ParseHexAppend(Numerals.ToHex(high), Numerals.ToHex(low));
    Numerals.ParseHex(Numerals.ToHex(high) + Numerals.ToHex(low))
  }

  /**
   * Read back as text, two stored parts give the timestamp they were split
   * from exactly when the high part is zero or the low part's first hex
   * digit is not zero.
   */
  lemma TextJoinExact(high: nat, low: nat)
    requires high < 0x1_0000 && low < 0x100_0000
    ensures TextJoinTimestamp(high, low) == PlacedTimestamp(high, low) <==> high == 0 || low >= 0x10_0000
  {
    var k := |Numerals.ToHex(low)|;
    var p := Numerals.Pow(16, k);
    assert TextJoinTimestamp(high, low) == high * p + low;
    assert Numerals.Pow(16, 5) == 0x10_0000 && Numerals.Pow(16, 6) == 0x100_0000;
    Numerals.ToHexLength(low, 5);
    Numerals.ToHexLength(low, 6);
    if k == 6 {
      assert low >= 0x10_0000 && p == 0x100_0000;
    } else {
      assert k <= 5 && low < 0x10_0000;
      Numerals.PowMonotone(16, k, 5);
      ShorterShift(high, p);
    }
  }

  /** A non-zero high part shifted by at most five digits stays below its place in the timestamp. */
  lemma ShorterShift(high: nat, p: nat)
    requires p <= 0x10_0000
    ensures high * p == high * 0x100_0000 <==> high == 0
  {
    if high > 0 {
      assert high * p <= high * 0x10_0000;
    }
  }

  /**
   * A timestamp from September 2023: its low part 05 3F10 is printed as
   * "53F10", so it is read back as 0x655_3F10 and no longer matches the ROM.
   */
  lemma TextJoinDropsZero()
    ensures HighTimestamp(0x6505_3F10) == 0x65 && LowTimestamp(0x6505_3F10) == 0x05_3F10
    ensures JoinTimestamp(0x65, 0x05_3F10) == 0x6505_3F10 && PlacedTimestamp(0x65, 0x05_3F10) == 0x6505_3F10
    ensures TextJoinTimestamp(0x65, 0x05_3F10) == 0x655_3F10
  {
    assert Numerals.Pow(16, 4) == 0x1_0000;
    assert Numerals.Pow(16, 5) == 0x10_0000;
    Numerals.ToHexLength(0x05_3F10, 5);
    Numerals.ToHexLength(0x05_3F10, 4);
  }

  /** What extractInformation found in the ROM: the stored field and the joined timestamp. */
  datatype Extracted = Extracted(bitfield: bv16, timestamp: bv64)

  /** The marker that inserting kinds with a timestamp leaves behind. */
  function MarkerOf(kinds: seq<ExtractableType>, ts: bv64): (m: Extracted)
    ensures m.timestamp == ts <==> ts < 0x100_0000_0000
    ensures forall t :: HasBit(m.bitfield, Ordinal(t)) <==> t in kinds
  {
    TimestampRoundTrip(ts);
    forall t ensures HasBit(ExtractablesToBitField(kinds), Ordinal(t)) <==> t in kinds {
      BitFieldHasKind(kinds, t);
    }
    Extracted(ExtractablesToBitField(kinds), JoinTimestamp(HighTimestamp(ts), LowTimestamp(ts)))
  }

  /**
   * getNeededExtractions. Whether the last-sync file exists, the marker
   * read from the ROM, the ROM's write time in seconds and the sync time
   * recorded in the file are passed in.
   */
  function NeededExtractions(syncFileExists: bool, marker: Option<Extracted>, romEpoch: bv64, lastSyncTime: bv64,
                             kinds: seq<ExtractableType>): (r: seq<ExtractableType>)
    ensures !syncFileExists || marker.None? ==> r == kinds
    ensures marker.Some? && (romEpoch != marker.value.timestamp || romEpoch != lastSyncTime) ==> r == kinds
    ensures syncFileExists && marker.Some? && romEpoch == marker.value.timestamp && romEpoch == lastSyncTime ==>
      forall t :: t in r <==> t in kinds && !HasBit(marker.value.bitfield, Ordinal(t))
  {
    if !syncFileExists then kinds
    else if marker.None? then kinds
    else if romEpoch != marker.value.timestamp then kinds
    else if romEpoch != lastSyncTime then kinds
    else
      var r := DetermineAddedExtractables(marker.value.bitfield, ExtractablesToBitField(kinds));
      forall t ensures t in r <==> t in kinds && !HasBit(marker.value.bitfield, Ordinal(t)) {
        BitFieldHasKind(kinds, t);
      }
      r
  }

  /**
   * After a sync that left a marker for oldKinds at a time that fits the
   * marker, the next sync at the same time extracts just the kinds added
   * to the project since.
   */
  lemma NextSyncExtractsAdded(oldKinds: seq<ExtractableType>, kinds: seq<ExtractableType>, ts: bv64, t: ExtractableType)
    requires ts < 0x100_0000_0000
    ensures t in NeededExtractions(true, Some(MarkerOf(oldKinds, ts)), ts, ts, kinds) <==> t in kinds && t !in oldKinds
  {
  }
}
