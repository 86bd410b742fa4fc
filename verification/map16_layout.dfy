/**
 * The layout of a whole .map16 file: the header, the offset/size table that
 * get_offset_size_vec builds, and the seven data blocks that combine appends
 * after it; and get_offset_size_table, which reads the table back.
 */
module Map16Layout {
  import opened Wrappers
  import opened Bytes
  import opened Strings
  import opened Map16Header
  import opened Map16HeaderRead

  /** A table entry as computed: offset and size in size_t, narrowed to _4Bytes when written. */
  datatype Region = Region(offset: nat, size: nat)

  /** A table entry as read back from a file. */
  datatype OffsetSizePair = OffsetSizePair(offset: bv32, size: bv32)

  /** The seven data blocks, in the order combine appends them. */
  datatype Blocks = Blocks(
    fgTiles: seq<bv8>,
    bgTiles: seq<bv8>,
    actsLike: seq<bv8>,
    tilesetSpecific: seq<bv8>,
    tilesetGroupSpecific: seq<bv8>,
    normalPipeTiles: seq<bv8>,
    diagonalPipeTiles: seq<bv8>)

  function Parts(header: seq<bv8>, table: seq<bv8>, b: Blocks): (ps: seq<seq<bv8>>)
    ensures |ps| == 9
  {
    [header, table, b.fgTiles, b.bgTiles, b.actsLike, b.tilesetSpecific, b.tilesetGroupSpecific,
     b.normalPipeTiles, b.diagonalPipeTiles]
  }

  /** combine: the header, the table, then the blocks, back to back. */
  function Combine(header: seq<bv8>, table: seq<bv8>, b: Blocks): seq<bv8>
  {
    Flatten(Parts(header, table, b))
  }

  /**
   * get_offset_size_vec: where each block lies, counted from the end of the
   * header plus the table. Entry 0 covers the FG and BG tiles together,
   * entry 1 the acts-like block, entries 2 and 3 the FG and BG tiles
   * separately, then tileset-specific, tileset-group-specific, normal pipe
   * and diagonal pipe tiles.
   */
  function OffsetSizeVec(headerSize: nat, fg: nat, bg: nat, acts: nat, tilesetSpecific: nat,
                         tilesetGroupSpecific: nat, normalPipes: nat, diagonalPipes: nat): (rs: seq<Region>)
    ensures |rs| == 8
    ensures rs[0].offset == headerSize + OffsetSizeTableSize
  {
    var globalPages := fg + bg;
    var globalAndActs := globalPages + acts;
    var base := headerSize + OffsetSizeTableSize;
    [Region(base, globalPages),
     Region(base + globalPages, acts),
     Region(base, fg),
     Region(base + fg, bg),
     Region(base + globalAndActs, tilesetSpecific),
     Region(base + globalAndActs + tilesetSpecific, tilesetGroupSpecific),
     Region(base + globalAndActs + tilesetSpecific + tilesetGroupSpecific, normalPipes),
     Region(base + globalAndActs + tilesetSpecific + tilesetGroupSpecific + normalPipes, diagonalPipes)]
  }

  /** The table for a header of the given size and the given blocks. */
  function TableFor(headerSize: nat, b: Blocks): (rs: seq<Region>)
    ensures |rs| == 8
  {
    OffsetSizeVec(headerSize, |b.fgTiles|, |b.bgTiles|, |b.actsLike|, |b.tilesetSpecific|,
      |b.tilesetGroupSpecific|, |b.normalPipeTiles|, |b.diagonalPipeTiles|)
  }

  /** The table's bytes: each entry's offset then size, four little-endian bytes each. */
  function OffsetSizeBytes(rs: seq<Region>): (r: seq<bv8>)
    ensures |r| == 8 * |rs|
  {
    if |rs| == 0 then [] else LeBytes(rs[0].offset, 4) + LeBytes(rs[0].size, 4) + OffsetSizeBytes(rs[1..])
  }

  /** The whole file to_map16 writes for a header and its blocks. */
  function Map16File(h: Header, b: Blocks): seq<bv8>
  {
    var header := HeaderBytes(h);
    Combine(header, OffsetSizeBytes(TableFor(|header|, b)), b)
  }

  lemma Map16FileParts(h: Header, b: Blocks)
    ensures Map16File(h, b) == Combine(HeaderBytes(h), OffsetSizeBytes(TableFor(|HeaderBytes(h)|, b)), b)
  {
  }

  /** Where each entry points in the combined file. */
  lemma {:induction false} PrefixLengths(header: seq<bv8>, table: seq<bv8>, b: Blocks)
    ensures var ps := Parts(header, table, b);
      |Flatten(ps[..2])| == |header| + |table| &&
      |Flatten(ps[..3])| == |header| + |table| + |b.fgTiles| &&
      |Flatten(ps[..4])| == |header| + |table| + |b.fgTiles| + |b.bgTiles| &&
      |Flatten(ps[..5])| == |Flatten(ps[..4])| + |b.actsLike| &&
      |Flatten(ps[..6])| == |Flatten(ps[..5])| + |b.tilesetSpecific| &&
      |Flatten(ps[..7])| == |Flatten(ps[..6])| + |b.tilesetGroupSpecific| &&
      |Flatten(ps[..8])| == |Flatten(ps[..7])| + |b.normalPipeTiles| &&
      |Flatten(ps[..9])| == |Flatten(ps[..8])| + |b.diagonalPipeTiles|
  {
    var ps := Parts(header, table, b);
    assert ps[..0] == [];
    FlattenPrefixStep(ps, 0);
    FlattenPrefixStep(ps, 1);
    FlattenPrefixStep(ps, 2);
    FlattenPrefixStep(ps, 3);
    FlattenPrefixStep(ps, 4);
    FlattenPrefixStep(ps, 5);
    FlattenPrefixStep(ps, 6);
    FlattenPrefixStep(ps, 7);
    FlattenPrefixStep(ps, 8);
  }

  /** The region lies inside the file and holds exactly the block. */
  predicate Locates(file: seq<bv8>, r: Region, block: seq<bv8>)
  {
    r.offset + r.size <= |file| && file[r.offset..r.offset + r.size] == block
  }

  lemma LocatesBounds(file: seq<bv8>, r: Region, block: seq<bv8>)
    requires Locates(file, r, block)
    ensures r.offset + r.size <= |file| && file[r.offset..r.offset + r.size] == block
  {
  }

  /** One block found at its region: part k of the file is at the region starting after parts 0..k. */
  lemma BlockAt(ps: seq<seq<bv8>>, k: nat, r: Region)
    requires k < |ps|
    requires r.offset == |Flatten(ps[..k])| && r.size == |ps[k]|
    ensures Locates(Flatten(ps), r, ps[k])
  {
    FlattenSlice(ps, k, k + 1);
    FlattenPrefixStep(ps, k);
  }

  /**
   * Every table entry get_offset_size_vec writes points at exactly the
   * block it names in the file combine builds, entry 0 at the FG and BG
   * tiles together.
   */
  lemma RegionsLocateBlocks(header: seq<bv8>, b: Blocks)
    ensures var rs := TableFor(|header|, b);
      var file := Combine(header, OffsetSizeBytes(rs), b);
      Locates(file, rs[0], b.fgTiles + b.bgTiles) &&
      Locates(file, rs[1], b.actsLike) &&
      Locates(file, rs[2], b.fgTiles) &&
      Locates(file, rs[3], b.bgTiles) &&
      Locates(file, rs[4], b.tilesetSpecific) &&
      Locates(file, rs[5], b.tilesetGroupSpecific) &&
      Locates(file, rs[6], b.normalPipeTiles) &&
      Locates(file, rs[7], b.diagonalPipeTiles)
  {
    hide *;
    var rs := TableFor(|header|, b);
    var table := OffsetSizeBytes(rs);
    var ps := Parts(header, table, b);
    RegionsOfParts(header, b);
    BlockAt(ps, 2, rs[2]);
    BlockAt(ps, 3, rs[3]);
    BlockAt(ps, 4, rs[1]);
    BlockAt(ps, 5, rs[4]);
    BlockAt(ps, 6, rs[5]);
    BlockAt(ps, 7, rs[6]);
    BlockAt(ps, 8, rs[7]);
    PairAt(ps, 2, rs[0]);
  }

  /** Each entry's offset is the length of the parts before its block, its size the block's length. */
  lemma RegionsOfParts(header: seq<bv8>, b: Blocks)
    ensures var rs := TableFor(|header|, b);
      var ps := Parts(header, OffsetSizeBytes(rs), b);
      |ps| == 9 && |rs| == 8 &&
      ps[2] == b.fgTiles && ps[3] == b.bgTiles && ps[4] == b.actsLike && ps[5] == b.tilesetSpecific &&
      ps[6] == b.tilesetGroupSpecific && ps[7] == b.normalPipeTiles && ps[8] == b.diagonalPipeTiles &&
      Combine(header, OffsetSizeBytes(rs), b) == Flatten(ps) &&
      rs[0] == Region(|Flatten(ps[..2])|, |ps[2]| + |ps[3]|) &&
      rs[1] == Region(|Flatten(ps[..4])|, |ps[4]|) &&
      rs[2] == Region(|Flatten(ps[..2])|, |ps[2]|) &&
      rs[3] == Region(|Flatten(ps[..3])|, |ps[3]|) &&
      rs[4] == Region(|Flatten(ps[..5])|, |ps[5]|) &&
      rs[5] == Region(|Flatten(ps[..6])|, |ps[6]|) &&
      rs[6] == Region(|Flatten(ps[..7])|, |ps[7]|) &&
      rs[7] == Region(|Flatten(ps[..8])|, |ps[8]|)
  {
    hide *;
    var rs := TableFor(|header|, b);
    var table := OffsetSizeBytes(rs);
    PartsOf(header, table, b);
    PrefixLengths(header, table, b);
    TableEntries(|header|, b);
  }

  lemma PartsOf(header: seq<bv8>, table: seq<bv8>, b: Blocks)
    ensures var ps := Parts(header, table, b);
      |ps| == 9 && ps[0] == header && ps[1] == table &&
      ps[2] == b.fgTiles && ps[3] == b.bgTiles && ps[4] == b.actsLike && ps[5] == b.tilesetSpecific &&
      ps[6] == b.tilesetGroupSpecific && ps[7] == b.normalPipeTiles && ps[8] == b.diagonalPipeTiles &&
      Combine(header, table, b) == Flatten(ps)
  {
  }

  /** The entries of get_offset_size_vec's table, counted from the end of the table. */
  lemma TableEntries(headerSize: nat, b: Blocks)
    ensures var rs := TableFor(headerSize, b);
      var base := headerSize + 8 * 8;
      var fg, bg, acts := |b.fgTiles|, |b.bgTiles|, |b.actsLike|;
      var ts, tsg, pipes := |b.tilesetSpecific|, |b.tilesetGroupSpecific|, |b.normalPipeTiles|;
      rs[0] == Region(base, fg + bg) &&
      rs[1] == Region(base + fg + bg, acts) &&
      rs[2] == Region(base, fg) &&
      rs[3] == Region(base + fg, bg) &&
      rs[4] == Region(base + fg + bg + acts, ts) &&
      rs[5] == Region(base + fg + bg + acts + ts, tsg) &&
      rs[6] == Region(base + fg + bg + acts + ts + tsg, pipes) &&
      rs[7] == Region(base + fg + bg + acts + ts + tsg + pipes, |b.diagonalPipeTiles|)
  {
  }

  /**
   * The entries cover the file after the table without gap or overlap: the
   * FG, BG and acts-like blocks and the four later blocks follow one
   * another in that order, the last one ends the file, and entry 0 spans
   * the FG and BG blocks together.
   */
  lemma RegionsTileFile(header: seq<bv8>, b: Blocks)
    ensures var rs := TableFor(|header|, b);
      var file := Combine(header, OffsetSizeBytes(rs), b);
      rs[2].offset == |header| + OffsetSizeTableSize &&
      rs[3].offset == rs[2].offset + rs[2].size &&
      rs[1].offset == rs[3].offset + rs[3].size &&
      rs[4].offset == rs[1].offset + rs[1].size &&
      rs[5].offset == rs[4].offset + rs[4].size &&
      rs[6].offset == rs[5].offset + rs[5].size &&
      rs[7].offset == rs[6].offset + rs[6].size &&
      rs[7].offset + rs[7].size == |file| &&
      rs[0] == Region(rs[2].offset, rs[2].size + rs[3].size)
  {
    var rs := TableFor(|header|, b);
    var table := OffsetSizeBytes(rs);
    var ps := Parts(header, table, b);
    Offsets();
    TableEntries(|header|, b);
    PrefixLengths(header, table, b);
    assert ps[..9] == ps;
  }

  /** Two adjacent blocks found together at the region spanning both. */
  lemma PairAt(ps: seq<seq<bv8>>, k: nat, r: Region)
    requires k + 1 < |ps|
    requires r.offset == |Flatten(ps[..k])| && r.size == |ps[k]| + |ps[k + 1]|
    ensures Locates(Flatten(ps), r, ps[k] + ps[k + 1])
  {
    FlattenSlice(ps, k, k + 2);
    FlattenPair(ps, k);
  }

  /** n table entries read from byte o on: each an offset word then a size word, little-endian. */
  function ReadPairs(buf: seq<bv8>, o: nat, n: nat): (r: seq<OffsetSizePair>)
    requires o + 8 * n <= |buf|
    decreases n
    ensures |r| == n
  {
    if n == 0 then []
    else [OffsetSizePair(JoinBytes(buf[o..o + 4]), JoinBytes(buf[o + 4..o + 8]))] + ReadPairs(buf, o + 8, n - 1)
  }

  datatype TableError =
    | TableNeverEnds    // the loop index steps over an odd word count and never meets it
    | TableOutOfRange   // an entry lies past the end of the buffer (undefined behaviour in the source)

  /**
   * get_offset_size_table as written: the index i counts 4-byte words and
   * steps by 2 until i == size / 4, so an odd word count is never met and
   * the loop runs off the buffer.
   */
  function GetOffsetSizeTableAsWritten(buf: seq<bv8>, h: Header): (r: Result<seq<OffsetSizePair>, TableError>)
    ensures r == Failure(TableNeverEnds) <==> (h.offsetSizeTableSize as int / 4) % 2 == 1
  {
    var words := h.offsetSizeTableSize as int / 4;
    var offset := h.offsetSizeTableOffset as int;
    if words % 2 == 1 then Failure(TableNeverEnds)
    else if offset + 4 * words > |buf| then Failure(TableOutOfRange)
    else Success(ReadPairs(buf, offset, words / 2))
  }

  /** get_offset_size_table as intended: the table's size divided by 8 entries, each read in place. */
  function GetOffsetSizeTable(buf: seq<bv8>, h: Header): (r: Result<seq<OffsetSizePair>, TableError>)
    ensures r.Success? <==> h.offsetSizeTableOffset as int + 8 * (h.offsetSizeTableSize as int / 8) <= |buf|
    ensures r.Success? ==> 8 * |r.value| <= h.offsetSizeTableSize as int < 8 * |r.value| + 8
  {
    var offset := h.offsetSizeTableOffset as int;
    var entries := h.offsetSizeTableSize as int / 8;
    if offset + 8 * entries > |buf| then Failure(TableOutOfRange)
    else Success(ReadPairs(buf, offset, entries))
  }

  /** Whenever the word count is even the written loop reads exactly the intended entries. */
  lemma TableAsWrittenAgrees(buf: seq<bv8>, h: Header)
    requires (h.offsetSizeTableSize as int / 4) % 2 == 0
    ensures GetOffsetSizeTableAsWritten(buf, h) == GetOffsetSizeTable(buf, h)
  {
    var n := h.offsetSizeTableSize as int;
    QuarterHalf(n);
    assert 4 * (n / 4) == 8 * (n / 8);
  }

  lemma QuarterHalf(n: nat)
    ensures (n / 4) / 2 == n / 8
  {
    var q, r := n / 8, n % 8;
    DivModUnique(n, 4, 2 * q + r / 4, r % 4);
    DivModUnique(2 * q + r / 4, 2, q, r / 4);
  }

  /** A 12-byte table (three words): the written loop never stops, the intended reader takes one entry. */
  lemma OddTableNeverEnds()
    ensures var h := Header(0, 0, 0, 0, 0, 0, 12, 0, 0, 0, 0, 0, []);
      var buf: seq<bv8> := [1, 0, 0, 0, 2, 0, 0, 0, 3, 0, 0, 0];
      GetOffsetSizeTableAsWritten(buf, h) == Failure(TableNeverEnds) &&
      GetOffsetSizeTable(buf, h) == Success([OffsetSizePair(1, 2)])
  {
    var h := Header(0, 0, 0, 0, 0, 0, 12, 0, 0, 0, 0, 0, []);
    var buf: seq<bv8> := [1, 0, 0, 0, 2, 0, 0, 0, 3, 0, 0, 0];
    assert h.offsetSizeTableSize as int == 12;
    JoinBytes4(buf[0..4]);
    JoinBytes4(buf[4..8]);
    assert ReadPairs(buf, 0, 1) == [OffsetSizePair(1, 2)];
  }

  /** Reading back the entries of a written table gives each offset and size narrowed to 32 bits. */
  lemma {:induction false} ReadPairsOfBytes(buf: seq<bv8>, o: nat, rs: seq<Region>)
    requires o + 8 * |rs| <= |buf| && buf[o..o + 8 * |rs|] == OffsetSizeBytes(rs)
    decreases |rs|
    ensures var ps := ReadPairs(buf, o, |rs|);
      forall i :: 0 <= i < |rs| ==>
        ps[i].offset as int == rs[i].offset % 0x1_0000_0000 && ps[i].size as int == rs[i].size % 0x1_0000_0000
  {
    hide *;
    if |rs| > 0 {
      var a, b, c := LeBytes(rs[0].offset, 4), LeBytes(rs[0].size, 4), OffsetSizeBytes(rs[1..]);
      OffsetSizeBytesCons(rs);
      SliceOfConcat3(buf, o, a, b, c);
      LeWordAt(buf, o, rs[0].offset);
      LeWordAt(buf, o + 4, rs[0].size);
      ReadPairsOfBytes(buf, o + 8, rs[1..]);
      var ps, qs := ReadPairs(buf, o, |rs|), ReadPairs(buf, o + 8, |rs| - 1);
      ReadPairsCons(buf, o, |rs|);
      forall i | 1 <= i < |rs|
        ensures ps[i].offset as int == rs[i].offset % 0x1_0000_0000 && ps[i].size as int == rs[i].size % 0x1_0000_0000
      {
        assert ps[i] == qs[i - 1] && rs[i] == rs[1..][i - 1];
      }
    }
  }

  lemma OffsetSizeBytesCons(rs: seq<Region>)
    requires |rs| > 0
    ensures OffsetSizeBytes(rs) == LeBytes(rs[0].offset, 4) + LeBytes(rs[0].size, 4) + OffsetSizeBytes(rs[1..])
  {
  }

  lemma ReadPairsCons(buf: seq<bv8>, o: nat, n: nat)
    requires n > 0 && o + 8 * n <= |buf|
    ensures ReadPairs(buf, o, n) == [OffsetSizePair(JoinBytes(buf[o..o + 4]), JoinBytes(buf[o + 4..o + 8]))] + ReadPairs(buf, o + 8, n - 1)
  {
  }

  /** Entry i of the table read from byte o is the pair of words at o + 8i. */
  lemma {:induction false} ReadPairsAt(buf: seq<bv8>, o: nat, n: nat, i: nat)
    requires o + 8 * n <= |buf| && i < n
    decreases i
    ensures ReadPairs(buf, o, n)[i] ==
      OffsetSizePair(JoinBytes(buf[o + 8 * i..o + 8 * i + 4]), JoinBytes(buf[o + 8 * i + 4..o + 8 * i + 8]))
  {
    if i > 0 {
      ReadPairsAt(buf, o + 8, n - 1, i - 1);
      assert o + 8 + 8 * (i - 1) == o + 8 * i;
    }
  }

  /**
   * What to_map16 writes, from_map16 reads: the header comes back (as
   * HeaderRoundTrip states), the table it points to holds eight entries,
   * the written loop agrees with the intended reader, and every entry read
   * back is the region get_offset_size_vec computed, which holds its block.
   * The whole file must fit the 32-bit offsets.
   */
  lemma FileRoundTrip(h: Header, b: Blocks)
    requires |Map16File(h, b)| < U32
    ensures var file := Map16File(h, b);
      var r := GetHeaderFromBuffer(file);
      r.Success? &&
      r.value.offsetSizeTableOffset as int == |HeaderBytes(h)| &&
      var t := GetOffsetSizeTable(file, r.value);
      t.Success? && |t.value| == 8 && GetOffsetSizeTableAsWritten(file, r.value) == t &&
      forall k :: 0 <= k < 8 ==>
        Region(t.value[k].offset as int, t.value[k].size as int) == TableFor(|HeaderBytes(h)|, b)[k]
  {
    hide *;
    var header := HeaderBytes(h);
    var rs := TableFor(|header|, b);
    var file := Map16File(h, b);
    var rest := FileParts(h, b);
    HeaderRoundTrip(h, rest);
    var hd := GetHeaderFromBuffer(file).value;
    RegionsFit(h, b);
    LocatesBounds(file, Region(|header|, 8 * 8), OffsetSizeBytes(rs));
    TableRead(file, hd, |header|, rs);
  }

  /** The file is the header followed by the rest, and the table sits right after the header. */
  lemma FileParts(h: Header, b: Blocks) returns (rest: seq<bv8>)
    ensures var header := HeaderBytes(h);
      var rs := TableFor(|header|, b);
      var file := Map16File(h, b);
      file == header + rest && Locates(file, Region(|header|, 8 * 8), OffsetSizeBytes(rs)) && |rs| == 8
  {
    var header := HeaderBytes(h);
    var rs := TableFor(|header|, b);
    var table := OffsetSizeBytes(rs);
    var ps := Parts(header, table, b);
    rest := Flatten(ps[1..]);
    assert Map16File(h, b) == Flatten(ps) == header + rest;
    FlattenPrefixStep(ps, 0);
    assert ps[..0] == [];
    BlockAt(ps, 1, Region(|header|, |table|));
  }

  /** In a file that fits 32-bit offsets, every region's offset and size survive narrowing. */
  lemma RegionsFit(h: Header, b: Blocks)
    requires |Map16File(h, b)| < U32
    ensures var rs := TableFor(|HeaderBytes(h)|, b);
      Fits32(rs)
  {
    hide *;
    var header := HeaderBytes(h);
    var rs := TableFor(|header|, b);
    var file := Map16File(h, b);
    Map16FileParts(h, b);
    RegionsLocateBlocks(header, b);
    LocatesBounds(file, rs[0], b.fgTiles + b.bgTiles);
    LocatesBounds(file, rs[1], b.actsLike);
    LocatesBounds(file, rs[2], b.fgTiles);
    LocatesBounds(file, rs[3], b.bgTiles);
    LocatesBounds(file, rs[4], b.tilesetSpecific);
    LocatesBounds(file, rs[5], b.tilesetGroupSpecific);
    LocatesBounds(file, rs[6], b.normalPipeTiles);
    LocatesBounds(file, rs[7], b.diagonalPipeTiles);
    Fits32OfEach(rs);
  }

  /** A header pointing at a written table of eight entries reads them back unchanged. */
  lemma TableRead(file: seq<bv8>, hd: Header, o: nat, rs: seq<Region>)
    requires hd.offsetSizeTableOffset as int == o
    requires |rs| == 8 && o + 8 * 8 <= |file| && file[o..o + 8 * 8] == OffsetSizeBytes(rs)
    requires hd.offsetSizeTableSize as int == OffsetSizeTableSize
    requires Fits32(rs)
    ensures var ps := ReadPairs(file, o, 8);
      GetOffsetSizeTable(file, hd) == Success(ps) && GetOffsetSizeTableAsWritten(file, hd) == Success(ps) &&
      forall k :: 0 <= k < 8 ==> Region(ps[k].offset as int, ps[k].size as int) == rs[k]
  {
    hide *;
    TableSuccess(file, hd, o);
    ReadPairsOfBytes(file, o, rs);
    Fits32Each(rs);
  }

  /** Every offset and size of the regions fits a 32-bit word. */
  predicate Fits32(rs: seq<Region>)
    decreases |rs|
  {
    |rs| == 0 || (rs[0].offset < U32 && rs[0].size < U32 && Fits32(rs[1..]))
  }

  lemma {:induction false} Fits32Each(rs: seq<Region>)
    requires Fits32(rs)
    decreases |rs|
    ensures forall k :: 0 <= k < |rs| ==> rs[k].offset % 0x1_0000_0000 == rs[k].offset && rs[k].size % 0x1_0000_0000 == rs[k].size
  {
    if |rs| > 0 {
      Fits32Each(rs[1..]);
      SmallMod(rs[0].offset);
      SmallMod(rs[0].size);
      assert forall k :: 1 <= k < |rs| ==> rs[k] == rs[1..][k - 1];
    }
  }

  lemma {:induction false} Fits32OfEach(rs: seq<Region>)
    requires forall k :: 0 <= k < |rs| ==> rs[k].offset + rs[k].size < U32
    decreases |rs|
    ensures Fits32(rs)
  {
    if |rs| > 0 {
      assert forall k :: 0 <= k < |rs| - 1 ==> rs[1..][k] == rs[k + 1];
      Fits32OfEach(rs[1..]);
    }
  }

  /** A 0x40-byte table inside the buffer is read as eight entries by both loops. */
  lemma TableSuccess(file: seq<bv8>, hd: Header, o: nat)
    requires hd.offsetSizeTableOffset as int == o && o + 8 * 8 <= |file|
    requires hd.offsetSizeTableSize as int == OffsetSizeTableSize
    ensures GetOffsetSizeTable(file, hd) == Success(ReadPairs(file, o, 8))
    ensures GetOffsetSizeTableAsWritten(file, hd) == Success(ReadPairs(file, o, 8))
  {
    var size := hd.offsetSizeTableSize as int;
    assert size == 0x40;
    assert size / 8 == 8 && size / 4 == 16;
  }
}
