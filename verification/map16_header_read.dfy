/**
 * Reading back what get_header_vec writes: every field of a written header
 * is recovered by get_header_from_map16_buffer, whatever follows it.
 */
module Map16HeaderRead {
  import opened Wrappers
  import opened Numerals
  import opened Bytes
  import opened Strings
  import opened Map16Header

  /** The four 16-bit fields read back narrowed. */
  lemma ShortFields(h: Header, buf: seq<bv8>)
    requires |buf| >= 12 && buf[4..12] == ShortFieldBytes(h)
    ensures JoinBytes(buf[FileFormatVersionNumberOffset..GameIdOffset]) == h.fileFormatVersionNumber & 0xFFFF
    ensures JoinBytes(buf[GameIdOffset..ProgramVersionOffset]) == h.gameId & 0xFFFF
    ensures JoinBytes(buf[ProgramVersionOffset..ProgramIdOffset]) == h.programVersion & 0xFFFF
    ensures JoinBytes(buf[ProgramIdOffset..ExtraFlagsOffset]) == h.programId & 0xFFFF
  {
    hide *;
    Offsets();
    ShortFieldBytesParts(h);
    PartsAt(buf, 4, Short(h.fileFormatVersionNumber), Short(h.gameId), Short(h.programVersion), Short(h.programId));
    Field16At(buf, 4, h.fileFormatVersionNumber);
    Field16At(buf, 6, h.gameId);
    Field16At(buf, 8, h.programVersion);
    Field16At(buf, 10, h.programId);
  }

  lemma Field16At(buf: seq<bv8>, i: nat, w: bv32)
    requires i + 2 <= |buf| && buf[i..i + 2] == Short(w)
    ensures JoinBytes(buf[i..i + 2]) == w & 0xFFFF
  {
  }

  lemma Field32At(buf: seq<bv8>, i: nat, w: bv32)
    requires i + 4 <= |buf| && buf[i..i + 4] == Split4(w)
    ensures JoinBytes(buf[i..i + 4]) == w
  {
  }

  /**
   * The four 32-bit fields of TableBytes read back: the extra flags and
   * size_x unchanged, the table offset as the end of the comment (narrowed
   * to 32 bits) and the table size as 0x40.
   */
  lemma TableFields(h: Header, buf: seq<bv8>)
    requires |buf| >= 28 && buf[12..28] == TableBytes(h)
    ensures JoinBytes(buf[ExtraFlagsOffset..OffsetSizeTableOffsetOffset]) == h.extraFlags
    ensures JoinBytes(buf[OffsetSizeTableOffsetOffset..OffsetSizeTableSizeOffset]) as int == (CommentFieldOffset + |h.comment|) % U32
    ensures LeValue(buf[OffsetSizeTableOffsetOffset..OffsetSizeTableSizeOffset]) == (CommentFieldOffset + |h.comment|) % U32
    ensures JoinBytes(buf[OffsetSizeTableSizeOffset..SizeXOffset]) as int == OffsetSizeTableSize
    ensures JoinBytes(buf[SizeXOffset..SizeYOffset]) == h.sizeX
  {
    hide *;
    Offsets();
    TableBytesParts(h);
    var b, c := LeBytes(CommentFieldOffset + |h.comment|, 4), LeBytes(OffsetSizeTableSize, 4);
    PartsAt(buf, 12, Split4(h.extraFlags), b, c, Split4(h.sizeX));
    Field32At(buf, 12, h.extraFlags);
    LeWordAt(buf, 16, CommentFieldOffset + |h.comment|);
    LeWordAt(buf, 20, OffsetSizeTableSize);
    Field32At(buf, 24, h.sizeX);
  }

  /** The four 32-bit fields of GeometryBytes read back. */
  lemma GeometryFields(h: Header, buf: seq<bv8>)
    requires |buf| >= 44 && buf[28..44] == GeometryBytes(h)
    ensures JoinBytes(buf[SizeYOffset..BaseXOffset]) == h.sizeY
    ensures JoinBytes(buf[BaseXOffset..BaseYOffset]) == h.baseX
    ensures JoinBytes(buf[BaseYOffset..VariousFlagsAndInfoOffset]) == h.baseY
    ensures JoinBytes(buf[VariousFlagsAndInfoOffset..VariousFlagsAndInfoOffset + VariousFlagsAndInfoSize]) == h.variousFlagsAndInfo
  {
    hide *;
    Offsets();
    GeometryBytesParts(h);
    PartsAt(buf, 28, Split4(h.sizeY), Split4(h.baseX), Split4(h.baseY), Split4(h.variousFlagsAndInfo));
    Field32At(buf, 28, h.sizeY);
    Field32At(buf, 32, h.baseX);
    Field32At(buf, 36, h.baseY);
    Field32At(buf, 40, h.variousFlagsAndInfo);
  }

  /** The parts of HeaderBytes sit at their offsets in any buffer that starts with it. */
  lemma HeaderGroups(h: Header, rest: seq<bv8>)
    ensures var buf := HeaderBytes(h) + rest;
      |buf| >= 44 && CommentFieldOffset + |h.comment| <= |buf| &&
      buf[4..12] == ShortFieldBytes(h) && buf[12..28] == TableBytes(h) && buf[28..44] == GeometryBytes(h) &&
      buf[CommentFieldOffset..CommentFieldOffset + |h.comment|] == h.comment
  {
    FieldGroups(h, rest);
    CommentAt(h, rest);
  }

  lemma FieldGroups(h: Header, rest: seq<bv8>)
    ensures var buf := HeaderBytes(h) + rest;
      |buf| >= 44 && buf[4..12] == ShortFieldBytes(h) && buf[12..28] == TableBytes(h) && buf[28..44] == GeometryBytes(h)
  {
    hide *;
    HeaderBytesParts(h);
    var buf := HeaderBytes(h) + rest;
    var f := FieldBytes(h);
    assert buf == Lm16 + f + (h.comment + rest);
    MiddleOfConcat(Lm16, f, h.comment + rest);
    PartsAt(buf, 4, ShortFieldBytes(h), TableBytes(h), GeometryBytes(h), Zeros(UnusedAreaSize));
  }

  lemma CommentAt(h: Header, rest: seq<bv8>)
    ensures var buf := HeaderBytes(h) + rest;
      CommentFieldOffset + |h.comment| <= |buf| && buf[CommentFieldOffset..CommentFieldOffset + |h.comment|] == h.comment
  {
    var buf := HeaderBytes(h) + rest;
    assert buf == (Lm16 + FieldBytes(h)) + h.comment + rest;
    MiddleOfConcat(Lm16 + FieldBytes(h), h.comment, rest);
  }

  /**
   * Reading back a written header: every field comes back, the 16-bit ones
   * narrowed, the table offset is the end of the comment and the table size
   * 0x40, whatever follows the header. A comment of 4 GiB or more would wrap
   * the recorded offset and is excluded.
   */
  lemma HeaderRoundTrip(h: Header, rest: seq<bv8>)
    requires CommentFieldOffset + |h.comment| < U32
    ensures var r := GetHeaderFromBuffer(HeaderBytes(h) + rest);
      r.Success? &&
      r.value.offsetSizeTableOffset as int == CommentFieldOffset + |h.comment| &&
      r.value.offsetSizeTableSize as int == OffsetSizeTableSize &&
      ReadsBackAs(r.value, h)
  {
    hide *;
    var buf := HeaderBytes(h) + rest;
    HeaderGroups(h, rest);
    ShortFields(h, buf);
    TableFields(h, buf);
    Offsets();
    SmallMod(CommentFieldOffset + |h.comment|);
    GeometryFields(h, buf);
    ReadOfFields(h, buf);
  }

  /** A buffer whose fields hold those of h, with the table offset just past h's comment, reads back as h. */
  lemma ReadOfFields(h: Header, buf: seq<bv8>)
    requires CommentFieldOffset + |h.comment| <= |buf| && CommentFieldOffset + |h.comment| < U32
    requires JoinBytes(buf[FileFormatVersionNumberOffset..GameIdOffset]) == h.fileFormatVersionNumber & 0xFFFF
    requires JoinBytes(buf[GameIdOffset..ProgramVersionOffset]) == h.gameId & 0xFFFF
    requires JoinBytes(buf[ProgramVersionOffset..ProgramIdOffset]) == h.programVersion & 0xFFFF
    requires JoinBytes(buf[ProgramIdOffset..ExtraFlagsOffset]) == h.programId & 0xFFFF
    requires JoinBytes(buf[ExtraFlagsOffset..OffsetSizeTableOffsetOffset]) == h.extraFlags
    requires JoinBytes(buf[OffsetSizeTableOffsetOffset..OffsetSizeTableSizeOffset]) as int == CommentFieldOffset + |h.comment|
    requires LeValue(buf[OffsetSizeTableOffsetOffset..OffsetSizeTableSizeOffset]) == CommentFieldOffset + |h.comment|
    requires JoinBytes(buf[OffsetSizeTableSizeOffset..SizeXOffset]) as int == OffsetSizeTableSize
    requires JoinBytes(buf[SizeXOffset..SizeYOffset]) == h.sizeX
    requires JoinBytes(buf[SizeYOffset..BaseXOffset]) == h.sizeY
    requires JoinBytes(buf[BaseXOffset..BaseYOffset]) == h.baseX
    requires JoinBytes(buf[BaseYOffset..VariousFlagsAndInfoOffset]) == h.baseY
    requires JoinBytes(buf[VariousFlagsAndInfoOffset..VariousFlagsAndInfoOffset + VariousFlagsAndInfoSize]) == h.variousFlagsAndInfo
    requires buf[CommentFieldOffset..CommentFieldOffset + |h.comment|] == h.comment
    ensures var r := GetHeaderFromBuffer(buf);
      r.Success? &&
      r.value.offsetSizeTableOffset as int == CommentFieldOffset + |h.comment| &&
      r.value.offsetSizeTableSize as int == OffsetSizeTableSize &&
      ReadsBackAs(r.value, h)
  {
    hide *;
    CommentOfOffset(buf, h.comment);
    FieldsOfRead(h, buf);
    ReadFieldsValues(buf, h.comment);
  }

  /** With the table offset just past the comment, the read succeeds and takes exactly the comment. */
  lemma CommentOfOffset(buf: seq<bv8>, comment: seq<bv8>)
    requires CommentFieldOffset + |comment| <= |buf| && CommentFieldOffset + |comment| < U32
    requires LeValue(buf[OffsetSizeTableOffsetOffset..OffsetSizeTableSizeOffset]) == CommentFieldOffset + |comment|
    requires buf[CommentFieldOffset..CommentFieldOffset + |comment|] == comment
    ensures GetHeaderFromBuffer(buf) == Success(ReadFields(buf, comment))
  {
    if |comment| > 0 {
      assert buf[CommentFieldOffset..LeValue(buf[OffsetSizeTableOffsetOffset..OffsetSizeTableSizeOffset])] == comment;
    }
  }

  lemma FieldsOfRead(h: Header, buf: seq<bv8>)
    requires VariousFlagsAndInfoOffset + VariousFlagsAndInfoSize <= |buf|
    requires JoinBytes(buf[FileFormatVersionNumberOffset..GameIdOffset]) == h.fileFormatVersionNumber & 0xFFFF
    requires JoinBytes(buf[GameIdOffset..ProgramVersionOffset]) == h.gameId & 0xFFFF
    requires JoinBytes(buf[ProgramVersionOffset..ProgramIdOffset]) == h.programVersion & 0xFFFF
    requires JoinBytes(buf[ProgramIdOffset..ExtraFlagsOffset]) == h.programId & 0xFFFF
    requires JoinBytes(buf[ExtraFlagsOffset..OffsetSizeTableOffsetOffset]) == h.extraFlags
    requires JoinBytes(buf[SizeXOffset..SizeYOffset]) == h.sizeX
    requires JoinBytes(buf[SizeYOffset..BaseXOffset]) == h.sizeY
    requires JoinBytes(buf[BaseXOffset..BaseYOffset]) == h.baseX
    requires JoinBytes(buf[BaseYOffset..VariousFlagsAndInfoOffset]) == h.baseY
    requires JoinBytes(buf[VariousFlagsAndInfoOffset..VariousFlagsAndInfoOffset + VariousFlagsAndInfoSize]) == h.variousFlagsAndInfo
    ensures ReadsBackAs(ReadFields(buf, h.comment), h)
  {
    hide *;
    ReadFieldsValues(buf, h.comment);
    ReadsBackOf(h, ReadFields(buf, h.comment));
  }

  lemma ReadFieldsValues(buf: seq<bv8>, comment: seq<bv8>)
    requires VariousFlagsAndInfoOffset + VariousFlagsAndInfoSize <= |buf|
    ensures var g := ReadFields(buf, comment);
      g.fileFormatVersionNumber == JoinBytes(buf[FileFormatVersionNumberOffset..GameIdOffset]) &&
      g.gameId == JoinBytes(buf[GameIdOffset..ProgramVersionOffset]) &&
      g.programVersion == JoinBytes(buf[ProgramVersionOffset..ProgramIdOffset]) &&
      g.programId == JoinBytes(buf[ProgramIdOffset..ExtraFlagsOffset]) &&
      g.extraFlags == JoinBytes(buf[ExtraFlagsOffset..OffsetSizeTableOffsetOffset]) &&
      g.offsetSizeTableOffset == JoinBytes(buf[OffsetSizeTableOffsetOffset..OffsetSizeTableSizeOffset]) &&
      g.offsetSizeTableSize == JoinBytes(buf[OffsetSizeTableSizeOffset..SizeXOffset]) &&
      g.sizeX == JoinBytes(buf[SizeXOffset..SizeYOffset]) &&
      g.sizeY == JoinBytes(buf[SizeYOffset..BaseXOffset]) &&
      g.baseX == JoinBytes(buf[BaseXOffset..BaseYOffset]) &&
      g.baseY == JoinBytes(buf[BaseYOffset..VariousFlagsAndInfoOffset]) &&
      g.variousFlagsAndInfo == JoinBytes(buf[VariousFlagsAndInfoOffset..VariousFlagsAndInfoOffset + VariousFlagsAndInfoSize]) &&
      g.comment == comment
  {
  }

  /** A header agreeing with h on every field a write preserves reads back as h. */
  lemma ReadsBackOf(h: Header, g: Header)
    requires g.fileFormatVersionNumber == h.fileFormatVersionNumber & 0xFFFF
    requires g.gameId == h.gameId & 0xFFFF
    requires g.programVersion == h.programVersion & 0xFFFF
    requires g.programId == h.programId & 0xFFFF
    requires g.extraFlags == h.extraFlags
    requires g.sizeX == h.sizeX && g.sizeY == h.sizeY && g.baseX == h.baseX && g.baseY == h.baseY
    requires g.variousFlagsAndInfo == h.variousFlagsAndInfo
    requires g.comment == h.comment
    ensures ReadsBackAs(g, h)
  {
  }

  lemma SmallMod(n: int)
    requires 0 <= n < U32
    ensures n % 0x1_0000_0000 == n
  {
  }
}
