/**
 * The bookkeeping a full rebuild does beside running the tools: the map of
 * which ROM bytes each build step wrote (to report conflicts between
 * steps), the setting that says which bytes are watched, the dependency
 * report written for the next quick build, and the text of a conflict
 * report. ROM offsets are PC offsets into the unheadered ROM.
 */
module Rebuilder {
  import opened Wrappers
  import Numerals
  import Configuration

  /** settings.check_conflicts. */
  datatype ConflictPolicy = CheckAll | CheckHijacks | CheckNone

  /** The word that spells each setting. */
  function PolicyName(p: ConflictPolicy): string
  {
    match p
    case CheckAll => "all"
    case CheckHijacks => "hijacks"
    case CheckNone => "none"
  }

  /** determineConflictCheckSetting: "hijacks" when unset, one of three words otherwise. */
  function DetermineConflictCheckSetting(setting: Option<string>): (r: Result<ConflictPolicy, string>)
    ensures setting.None? ==> r == Success(CheckHijacks)
    ensures setting.Some? ==> (r.Success? <==> setting.value in {"all", "hijacks", "none"})
    ensures r.Failure? ==> r.error == setting.value
  {
    var word := setting.GetOr("hijacks");
    if word == "all" then Success(CheckAll)
    else if word == "hijacks" then Success(CheckHijacks)
    else if word == "none" then Success(CheckNone)
    else Failure(word)
  }

  /** Each setting reads back from its own word. */
  lemma SettingRoundTrip(p: ConflictPolicy)
    ensures DetermineConflictCheckSetting(Some(PolicyName(p))) == Success(p)
  {
  }

  /** pcToSnes: the LoROM address of a PC offset: bank from bits 15 up, the low 15 bits in the upper half of the bank. */
  function PcToSnes(address: bv32): (snes: bv32)
    ensures snes & 0x8000 == 0x8000 && snes & 0x80_0000 == 0x80_0000
    ensures snes & 0x7FFF == address & 0x7FFF
    ensures snes < 0x100_0000
  {
    ((address << 1) & 0x7F_0000) | (address & 0x7FFF) | 0x8000 | 0x80_0000
  }

  /** The PC offset a LoROM address stands for. */
  function SnesToPc(snes: bv32): (address: bv32)
    ensures address < 0x40_0000
  {
    ((snes & 0x7F_0000) >> 1) | (snes & 0x7FFF)
  }

  /** Within the 4 MiB a LoROM bank byte can reach, mapping to SNES and back gives the offset. */
  lemma PcToSnesRoundTrip(address: bv32)
    requires address < 0x40_0000
    ensures SnesToPc(PcToSnes(address)) == address
  {
  }

  /** One write to a byte: who wrote it and the value. */
  datatype Write = Write(writer: string, value: bv8)

  /** The writer the first entry of every address is attributed to. */
  const OriginalBytes: string := "Original bytes"

  /** Per ROM offset, the writes to it in build order. */
  type WriteMap = map<nat, seq<Write>>

  /**
   * writesAreIdentical: every write from the second on left the byte the
   * second left. With fewer than two writes `at(1)` throws, modelled as None.
   */
  function WritesAreIdentical(writes: seq<Write>): (r: Option<bool>)
    ensures r.None? <==> |writes| < 2
    ensures r == Some(true) <==> |writes| >= 2 && forall i, j :: 1 <= i < j < |writes| ==> writes[i].value == writes[j].value
  {
    if |writes| < 2 then None
    else Some(forall k :: 1 <= k < |writes| ==> writes[k].value == writes[1].value)
  }

  /** A build step that wrote what the original ROM held leaves no conflict behind it. */
  lemma OneWriterIsIdentical(original: bv8, writer: string, value: bv8)
    ensures WritesAreIdentical([Write(OriginalBytes, original), Write(writer, value)]) == Some(true)
  {
  }

  /** The four bytes of the internal header checksum and its complement, never watched. */
  predicate Skipped(i: nat)
  {
    0x7FDC <= i <= 0x7FDF
  }

  /** How many leading bytes are compared under a policy. */
  function CompareSize(oldRom: seq<bv8>, newRom: seq<bv8>, policy: ConflictPolicy): (size: nat)
    ensures size <= |oldRom| && size <= |newRom|
    ensures policy == CheckHijacks ==> size <= 0x8_0000
  {
    var common := if |oldRom| < |newRom| then |oldRom| else |newRom|;
    if policy == CheckHijacks && common > 0x8_0000 then 0x8_0000 else common
  }

  /** The step changed the byte at i, and i is watched. */
  predicate Changes(oldRom: seq<bv8>, newRom: seq<bv8>, size: nat, i: nat)
    requires size <= |oldRom| && size <= |newRom|
  {
    i < size && !Skipped(i) && oldRom[i] != newRom[i]
  }

  /** The writes at i after the step wrote value there. */
  function Recorded(writes: WriteMap, i: nat, original: bv8, writer: string, value: bv8): seq<Write>
  {
    (if i in writes then writes[i] else [Write(OriginalBytes, original)]) + [Write(writer, value)]
  }

  /** The loop of updateWrites from offset i on, the bound compared with `<`. */
  function UpdateFrom(oldRom: seq<bv8>, newRom: seq<bv8>, size: nat, i: nat, writes: WriteMap, writer: string): (r: WriteMap)
    requires size <= |oldRom| && size <= |newRom|
    requires !(0x7FDC < i < 0x7FE0)
    ensures forall a :: a in r <==> a in writes || (i <= a && Changes(oldRom, newRom, size, a))
    ensures forall a :: a in r && i <= a && Changes(oldRom, newRom, size, a) ==>
      r[a] == Recorded(writes, a, oldRom[a], writer, newRom[a])
    ensures forall a :: a in writes && !(i <= a && Changes(oldRom, newRom, size, a)) ==> r[a] == writes[a]
    decreases size - i
  {
    if i >= size then writes
    else if i == 0x7FDC then UpdateFrom(oldRom, newRom, size, i + 4, writes, writer)
    else if oldRom[i] != newRom[i] then
      assert Changes(oldRom, newRom, size, i);
      UpdateFrom(oldRom, newRom, size, i + 1, writes[i := Recorded(writes, i, oldRom[i], writer, newRom[i])], writer)
    else UpdateFrom(oldRom, newRom, size, i + 1, writes, writer)
  }

  /**
   * updateWrites: for every watched offset the step changed, the original
   * byte is recorded the first time the offset is written, then the step's
   * byte. Checking nothing leaves the map alone.
   */
  function UpdateWrites(oldRom: seq<bv8>, newRom: seq<bv8>, policy: ConflictPolicy, writes: WriteMap, writer: string): (r: WriteMap)
    ensures policy == CheckNone ==> r == writes
    ensures policy != CheckNone ==> forall a :: a in r <==> a in writes || Changes(oldRom, newRom, CompareSize(oldRom, newRom, policy), a)
    ensures policy == CheckHijacks ==> forall a :: a in r && a !in writes ==> a < 0x8_0000
    ensures forall a :: a in r && a !in writes ==> !Skipped(a) && a < |oldRom| && a < |newRom| && oldRom[a] != newRom[a]
    ensures forall a :: a in r && a !in writes ==> r[a] == [Write(OriginalBytes, oldRom[a]), Write(writer, newRom[a])]
    ensures forall a :: a in writes ==> |r[a]| >= |writes[a]| && r[a][..|writes[a]|] == writes[a]
  {
    if policy == CheckNone then writes
    else UpdateFrom(oldRom, newRom, CompareSize(oldRom, newRom, policy), 0, writes, writer)
  }

  /** Every recorded offset starts with the original byte and holds at least one write after it. */
  predicate WellFormed(writes: WriteMap)
  {
    forall a :: a in writes ==> |writes[a]| >= 2 && writes[a][0].writer == OriginalBytes
  }

  /** updateWrites keeps the map well formed, so the conflict report never meets an offset with a single write. */
  lemma UpdateKeepsWellFormed(oldRom: seq<bv8>, newRom: seq<bv8>, policy: ConflictPolicy, writes: WriteMap, writer: string)
    requires WellFormed(writes)
    ensures WellFormed(UpdateWrites(oldRom, newRom, policy, writes, writer))
    ensures forall a :: a in UpdateWrites(oldRom, newRom, policy, writes, writer) ==>
      WritesAreIdentical(UpdateWrites(oldRom, newRom, policy, writes, writer)[a]).Some?
  {
    var r: WriteMap := UpdateWrites(oldRom, newRom, policy, writes, writer);
    forall a: nat | a in r ensures |r[a]| >= 2 && r[a][0].writer == OriginalBytes {
      var w: seq<Write> := r[a];
      if a in writes {
        assert w[0] == w[..|writes[a]|][0];
      }
    }
  }

  /** A step that changes nothing records nothing. */
  lemma UnchangedRomRecordsNothing(rom: seq<bv8>, policy: ConflictPolicy, writes: WriteMap, writer: string)
    ensures UpdateWrites(rom, rom, policy, writes, writer) == writes
  {
  }

  /** The offsets the loop of updateWrites visits from i on, its bound compared with `!=` as written, within `fuel` steps. */
  function VisitedAsWritten(size: nat, i: nat, fuel: nat): seq<nat>
    decreases fuel
  {
    if i == size || fuel == 0 then []
    else if i == 0x7FDC then VisitedAsWritten(size, i + 4, fuel - 1)
    else [i] + VisitedAsWritten(size, i + 1, fuel - 1)
  }

  /**
   * With the `!=` bound, a compared size that ends inside the skipped
   * checksum bytes is jumped over: the loop goes on to offset 0x7FE0, past
   * the end of the shorter ROM, where reading it throws.
   */
  lemma {:induction false} AsWrittenRunsPastSize(size: nat, i: nat, fuel: nat)
    requires 0x7FDC < size < 0x7FE0
    requires i <= 0x7FDC && fuel > 0x7FDC - i + 1
    ensures 0x7FE0 in VisitedAsWritten(size, i, fuel)
    ensures 0x7FE0 >= size
    decreases 0x7FDC - i
  {
    if i == 0x7FDC {
      assert VisitedAsWritten(size, i, fuel) == VisitedAsWritten(size, 0x7FE0, fuel - 1);
      assert VisitedAsWritten(size, 0x7FE0, fuel - 1) == [0x7FE0] + VisitedAsWritten(size, 0x7FE1, fuel - 2);
    } else {
      AsWrittenRunsPastSize(size, i + 1, fuel - 1);
      assert VisitedAsWritten(size, i, fuel) == [i] + VisitedAsWritten(size, i + 1, fuel - 1);
    }
  }

  /** With the bound compared with `<`, every visited offset is below the compared size. */
  lemma CorrectedStaysInside(oldRom: seq<bv8>, newRom: seq<bv8>, size: nat, writes: WriteMap, writer: string)
    requires 0x7FDC < size < 0x7FE0 && size <= |oldRom| && size <= |newRom|
    ensures forall a :: a in UpdateFrom(oldRom, newRom, size, 0, writes, writer) && a !in writes ==> a < size
  {
  }

  /** A dependency block of the build report: the item, its recorded dependencies and its hijacks if it had any. */
  datatype Block<P, H> = Block(descriptor: Configuration.Descriptor, dependencies: P, hijacks: Option<H>)

  /** An item built later under the same descriptor supersedes the one at i. */
  predicate Superseded<P>(deps: seq<(Configuration.Descriptor, P)>, i: nat)
    requires i < |deps|
  {
    exists j :: i < j < |deps| && deps[j].0 == deps[i].0
  }

  /** The block for item i. */
  function BlockAt<P, H>(deps: seq<(Configuration.Descriptor, P)>, hijacks: seq<Option<H>>, i: nat): Block<P, H>
    requires i < |deps| && i < |hijacks|
  {
    Block(deps[i].0, deps[i].1, hijacks[i])
  }

  /** The report's contents: the blocks of the first n items that nothing later supersedes, in build order. */
  function LastOccurrences<P, H>(deps: seq<(Configuration.Descriptor, P)>, hijacks: seq<Option<H>>, n: nat): seq<Block<P, H>>
    requires n <= |deps| && |deps| <= |hijacks|
  {
    if n == 0 then []
    else LastOccurrences(deps, hijacks, n - 1) + (if Superseded(deps, n - 1) then [] else [BlockAt(deps, hijacks, n - 1)])
  }

  /** The descriptors of items at n and after. */
  function DescriptorsFrom<P>(deps: seq<(Configuration.Descriptor, P)>, n: nat): (r: set<Configuration.Descriptor>)
    requires n <= |deps|
    ensures forall d :: d in r <==> exists j :: n <= j < |deps| && deps[j].0 == d
  {
    set j | n <= j < |deps| :: deps[j].0
  }

  /**
   * The walk of getJsonDependencies over the first n items, last to first,
   * with the descriptors met so far; each block is put in front of the
   * blocks of later items.
   */
  function CollectBackwards<P, H>(deps: seq<(Configuration.Descriptor, P)>, hijacks: seq<Option<H>>, n: nat,
                                  seen: set<Configuration.Descriptor>): seq<Block<P, H>>
    requires n <= |deps| && |deps| <= |hijacks|
  {
    if n == 0 then []
    else if deps[n - 1].0 in seen then CollectBackwards(deps, hijacks, n - 1, seen)
    else CollectBackwards(deps, hijacks, n - 1, seen + {deps[n - 1].0}) + [BlockAt(deps, hijacks, n - 1)]
  }

  /** getJsonDependencies. */
  function JsonDependencies<P, H>(deps: seq<(Configuration.Descriptor, P)>, hijacks: seq<Option<H>>): (r: seq<Block<P, H>>)
    requires |deps| <= |hijacks|
    ensures r == LastOccurrences(deps, hijacks, |deps|)
  {
    assert DescriptorsFrom(deps, |deps|) == {};
    CollectBackwardsKeepsLast(deps, hijacks, |deps|);
    CollectBackwards(deps, hijacks, |deps|, {})
  }

  /** Walking back with the later descriptors as seen keeps exactly the items nothing supersedes. */
  lemma {:induction false} CollectBackwardsKeepsLast<P, H>(deps: seq<(Configuration.Descriptor, P)>, hijacks: seq<Option<H>>, n: nat)
    requires n <= |deps| && |deps| <= |hijacks|
    ensures CollectBackwards(deps, hijacks, n, DescriptorsFrom(deps, n)) == LastOccurrences(deps, hijacks, n)
  {
    if n > 0 {
      var d := deps[n - 1].0;
      assert d in DescriptorsFrom(deps, n) <==> Superseded(deps, n - 1);
      assert DescriptorsFrom(deps, n) + {d} == DescriptorsFrom(deps, n - 1);
      CollectBackwardsKeepsLast(deps, hijacks, n - 1);
      if d in DescriptorsFrom(deps, n) {
        assert DescriptorsFrom(deps, n) == DescriptorsFrom(deps, n - 1);
      }
    }
  }

  /** Some block is about d. */
  predicate Reported<P, H>(blocks: seq<Block<P, H>>, d: Configuration.Descriptor)
  {
    exists k :: 0 <= k < |blocks| && blocks[k].descriptor == d
  }

  /** One of the first n items is the last one built under d. */
  predicate LastBefore<P>(deps: seq<(Configuration.Descriptor, P)>, n: nat, d: Configuration.Descriptor)
    requires n <= |deps|
  {
    exists k :: 0 <= k < n && deps[k].0 == d && !Superseded(deps, k)
  }

  /** No descriptor is reported twice, and every built descriptor is reported. */
  lemma {:induction false} LastOccurrencesDistinct<P, H>(deps: seq<(Configuration.Descriptor, P)>, hijacks: seq<Option<H>>, n: nat)
    requires n <= |deps| && |deps| <= |hijacks|
    ensures forall i, j :: 0 <= i < j < |LastOccurrences(deps, hijacks, n)| ==>
      LastOccurrences(deps, hijacks, n)[i].descriptor != LastOccurrences(deps, hijacks, n)[j].descriptor
    ensures forall d :: Reported(LastOccurrences(deps, hijacks, n), d) <==> LastBefore(deps, n, d)
  {
    if n > 0 {
      LastOccurrencesDistinct(deps, hijacks, n - 1);
      var prev := LastOccurrences(deps, hijacks, n - 1);
      if !Superseded(deps, n - 1) {
        var r := LastOccurrences(deps, hijacks, n);
        assert r == prev + [BlockAt(deps, hijacks, n - 1)];
        forall i | 0 <= i < |prev| ensures prev[i].descriptor != deps[n - 1].0 {
          assert Reported(prev, prev[i].descriptor);
          var k :| 0 <= k < n - 1 && deps[k].0 == prev[i].descriptor && !Superseded(deps, k);
        }
        forall d ensures Reported(r, d) <==> Reported(prev, d) || deps[n - 1].0 == d {
          if Reported(r, d) {
            var k :| 0 <= k < |r| && r[k].descriptor == d;
            if k < |prev| {
              assert prev[k] == r[k];
            }
          }
          if Reported(prev, d) {
            var k :| 0 <= k < |prev| && prev[k].descriptor == d;
            assert r[k] == prev[k];
          }
          if deps[n - 1].0 == d {
            assert r[|prev|].descriptor == d;
          }
        }
      } else {
        assert LastOccurrences(deps, hijacks, n) == prev;
        forall d | LastBefore(deps, n, d) ensures LastBefore(deps, n - 1, d) {
          var k :| 0 <= k < n && deps[k].0 == d && !Superseded(deps, k);
          assert k != n - 1;
        }
      }
    }
  }

  /** The report text of the bytes one writer wrote, from index i on, sixteen to a line, cut off after 0x100 when limited. */
  function ByteRows(bytes: seq<bv8>, i: nat, limit: bool): string
    requires i <= |bytes|
    decreases |bytes| - i
  {
    if i == |bytes| then ""
    else if limit && i == 0x100 then "..."
    else (if i % 0x10 == 0 then "\n\t\t" else "") + Numerals.FormatHex(bytes[i] as nat, 2) + " " + ByteRows(bytes, i + 1, limit)
  }

  /** A limited listing of more than 0x100 bytes is the full listing of the first 0x100 followed by "...". */
  lemma {:induction false} LimitedRows(bytes: seq<bv8>, i: nat)
    requires i <= 0x100 < |bytes|
    ensures ByteRows(bytes, i, true) == ByteRows(bytes[..0x100], i, false) + "..."
    decreases 0x100 - i
  {
    if i < 0x100 {
      LimitedRows(bytes, i + 1);
      assert bytes[..0x100][i] == bytes[i];
    }
  }

  /** Up to 0x100 bytes, limiting the listing changes nothing. */
  lemma {:induction false} ShortRowsUnlimited(bytes: seq<bv8>, i: nat)
    requires i <= |bytes| <= 0x100
    ensures ByteRows(bytes, i, true) == ByteRows(bytes, i, false)
    decreases |bytes| - i
  {
    if i < |bytes| {
      ShortRowsUnlimited(bytes, i + 1);
      var head := (if i % 0x10 == 0 then "\n\t\t" else "") + Numerals.FormatHex(bytes[i] as nat, 2) + " ";
      assert ByteRows(bytes, i, true) == head + ByteRows(bytes, i + 1, true);
      assert ByteRows(bytes, i, false) == head + ByteRows(bytes, i + 1, false);
    }
  }

  /** getConflictString's first line. */
  function ConflictHeader(pcStart: bv32, size: nat): string
  {
    "Conflict - 0x" + Numerals.FormatHex(size, 0) + " " + (if size == 1 then "byte" else "bytes")
    + " at SNES: $" + Numerals.FormatHex(PcToSnes(pcStart) as nat, 6) + " (unheadered), PC: 0x"
    + Numerals.FormatHex(pcStart as nat + 0x200, 6) + " (headered):\n"
  }

  /** The lines of every writer after the header. */
  function WriterLines(conflicts: seq<(string, seq<bv8>)>, limit: bool): string
  {
    if |conflicts| == 0 then ""
    else "\t" + conflicts[0].0 + ":" + ByteRows(conflicts[0].1, 0, limit) + "\n" + WriterLines(conflicts[1..], limit)
  }

  /** getConflictString. */
  function ConflictString(conflicts: seq<(string, seq<bv8>)>, pcStart: bv32, size: nat, limit: bool): (r: string)
    ensures StartsWithHeader(r, pcStart, size)
  {
    ConflictHeader(pcStart, size) + WriterLines(conflicts, limit)
  }

  /** The text opens with the header naming the size, the SNES address and the headered PC offset. */
  predicate StartsWithHeader(s: string, pcStart: bv32, size: nat)
  {
    |ConflictHeader(pcStart, size)| <= |s| && s[..|ConflictHeader(pcStart, size)|] == ConflictHeader(pcStart, size)
  }
}
