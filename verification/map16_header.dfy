/**
 * The binary header of a Lunar Magic .map16 file, as to_map16 writes it
 * (get_header_vec) and from_map16 reads it (get_header_from_map16_buffer),
 * and the two flags packed into its various_flags_and_info word.
 *
 * Layout: "LM16", four 16-bit fields, eight 32-bit fields, 0x14 unused
 * bytes, then the comment; the offset/size table follows the comment, so
 * the header records the comment's end as the table's offset.
 */
module Map16Header {
  import opened Wrappers
  import opened Numerals
  import opened Bytes
  import opened Strings

  /** The field offsets, each field following the previous one. */
  const Lm16StrOffset: nat := 0
  const Lm16StrSize: nat := 4
  const FileFormatVersionNumberOffset: nat := Lm16StrOffset + Lm16StrSize
  const FileFormatVersionNumberSize: nat := 2
  const GameIdOffset: nat := FileFormatVersionNumberOffset + FileFormatVersionNumberSize
  const GameIdSize: nat := 2
  const ProgramVersionOffset: nat := GameIdOffset + GameIdSize
  const ProgramVersionSize: nat := 2
  const ProgramIdOffset: nat := ProgramVersionOffset + ProgramVersionSize
  const ProgramIdSize: nat := 2
  const ExtraFlagsOffset: nat := ProgramIdOffset + ProgramIdSize
  const ExtraFlagsSize: nat := 4
  const OffsetSizeTableOffsetOffset: nat := ExtraFlagsOffset + ExtraFlagsSize
  const OffsetSizeTableOffsetSize: nat := 4
  const OffsetSizeTableSizeOffset: nat := OffsetSizeTableOffsetOffset + OffsetSizeTableOffsetSize
  const OffsetSizeTableSizeSize: nat := 4
  const SizeXOffset: nat := OffsetSizeTableSizeOffset + OffsetSizeTableSizeSize
  const SizeXSize: nat := 4
  const SizeYOffset: nat := SizeXOffset + SizeXSize
  const SizeYSize: nat := 4
  const BaseXOffset: nat := SizeYOffset + SizeYSize
  const BaseXSize: nat := 4
  const BaseYOffset: nat := BaseXOffset + BaseXSize
  const BaseYSize: nat := 4
  const VariousFlagsAndInfoOffset: nat := BaseYOffset + BaseYSize
  const VariousFlagsAndInfoSize: nat := 4
  const UnusedAreaSize: nat := 0x14
  const CommentFieldOffset: nat := VariousFlagsAndInfoOffset + VariousFlagsAndInfoSize + UnusedAreaSize
  const OffsetSizeTableSize: nat := 0x40

  /** The offsets above, worked out. */
  lemma Offsets()
    ensures FileFormatVersionNumberOffset == 4 && GameIdOffset == 6 && ProgramVersionOffset == 8
    ensures ProgramIdOffset == 10 && ExtraFlagsOffset == 12 && OffsetSizeTableOffsetOffset == 16
    ensures OffsetSizeTableSizeOffset == 20 && SizeXOffset == 24 && SizeYOffset == 28 && BaseXOffset == 32
    ensures BaseYOffset == 36 && VariousFlagsAndInfoOffset == 40 && VariousFlagsAndInfoSize == 4
    ensures CommentFieldOffset == 0x40 && OffsetSizeTableSize == 0x40 && U32 == 0x1_0000_0000
  {
  }

  /** Values of _4Bytes are taken modulo this. */
  const U32: nat := 0x1_0000_0000

  /** The ASCII bytes of "LM16". */
  const Lm16: seq<bv8> := [0x4C, 0x4D, 0x31, 0x36]

  datatype Header = Header(
    fileFormatVersionNumber: bv32,
    gameId: bv32,
    programVersion: bv32,
    programId: bv32,
    extraFlags: bv32,
    offsetSizeTableOffset: bv32,
    offsetSizeTableSize: bv32,
    sizeX: bv32,
    sizeY: bv32,
    baseX: bv32,
    baseY: bv32,
    variousFlagsAndInfo: bv32,
    comment: seq<bv8>)

  /** has_tileset_specific_page_2s: bit 0 of various_flags_and_info. */
  predicate HasTilesetSpecificPage2s(h: Header)
  {
    h.variousFlagsAndInfo & 1 != 0
  }

  /** is_full_game_export: bit 1 of various_flags_and_info. */
  predicate IsFullGameExport(h: Header)
  {
    h.variousFlagsAndInfo & 2 != 0
  }

  /** The flags word parse_header_file builds from the two 0/1 values of header.txt. */
  function FlagBits(isFullGameExport: bv32, hasTilesetSpecificPage2: bv32): bv32
  {
    hasTilesetSpecificPage2 | (isFullGameExport << 1)
  }

  /** Packing two 0/1 values and decoding the header flags gives the two values back. */
  lemma FlagsOfFlagBits(h: Header, isFull: bv32, hasPage2: bv32)
    requires isFull <= 1 && hasPage2 <= 1
    requires h.variousFlagsAndInfo == FlagBits(isFull, hasPage2)
    ensures IsFullGameExport(h) <==> isFull == 1
    ensures HasTilesetSpecificPage2s(h) <==> hasPage2 == 1
    ensures h.variousFlagsAndInfo < 4
  {
  }

  /** Each flag reads its own bit: the other flag and all higher bits do not affect it. */
  lemma FlagsIndependent(h: Header, other: bv32)
    ensures HasTilesetSpecificPage2s(h) <==> HasTilesetSpecificPage2s(h.(variousFlagsAndInfo := (h.variousFlagsAndInfo & 1) | (other & 0xFFFF_FFFE)))
    ensures IsFullGameExport(h) <==> IsFullGameExport(h.(variousFlagsAndInfo := (h.variousFlagsAndInfo & 2) | (other & 0xFFFF_FFFD)))
  {
  }

  /** Bytes 4 to 12: the four 16-bit fields, each narrowed from _4Bytes. */
  function ShortFieldBytes(h: Header): (r: seq<bv8>)
    ensures |r| == 8
  {
    Short(h.fileFormatVersionNumber) + Short(h.gameId) + Short(h.programVersion) + Short(h.programId)
  }

  /** split_and_insert_2 of a _4Bytes value narrowed to _2Bytes. */
  function Short(w: bv32): (r: seq<bv8>)
    ensures |r| == 2 && JoinBytes(r) == w & 0xFFFF
  {
    Split2(Truncate16(w))
  }

  /**
   * Bytes 12 to 28: extra flags, the offset/size table's offset (the end of
   * the comment, narrowed to 32 bits), its size 0x40, and size_x.
   */
  function TableBytes(h: Header): (r: seq<bv8>)
    ensures |r| == 16
  {
    Split4(h.extraFlags) + LeBytes(CommentFieldOffset + |h.comment|, 4) + LeBytes(OffsetSizeTableSize, 4) + Split4(h.sizeX)
  }

  lemma ShortFieldBytesParts(h: Header)
    ensures ShortFieldBytes(h) == Short(h.fileFormatVersionNumber) + Short(h.gameId) + Short(h.programVersion) + Short(h.programId)
  {
  }

  lemma GeometryBytesParts(h: Header)
    ensures GeometryBytes(h) == Split4(h.sizeY) + Split4(h.baseX) + Split4(h.baseY) + Split4(h.variousFlagsAndInfo)
  {
  }

  lemma HeaderBytesParts(h: Header)
    ensures HeaderBytes(h) == Lm16 + FieldBytes(h) + h.comment && |Lm16| == 4
    ensures FieldBytes(h) == ShortFieldBytes(h) + TableBytes(h) + GeometryBytes(h) + Zeros(UnusedAreaSize)
  {
  }

  lemma TableBytesParts(h: Header)
    ensures TableBytes(h) ==
      Split4(h.extraFlags) + LeBytes(CommentFieldOffset + |h.comment|, 4) + LeBytes(OffsetSizeTableSize, 4) + Split4(h.sizeX)
  {
  }

  /** Bytes 28 to 44: size_y, base_x, base_y and the flags word. */
  function GeometryBytes(h: Header): (r: seq<bv8>)
    ensures |r| == 16
  {
    Split4(h.sizeY) + Split4(h.baseX) + Split4(h.baseY) + Split4(h.variousFlagsAndInfo)
  }

  function Zeros(k: nat): (r: seq<bv8>)
    ensures |r| == k && forall i :: 0 <= i < k ==> r[i] == 0
  {
    if k == 0 then [] else [0] + Zeros(k - 1)
  }

  /** Bytes 4 to 0x40: the fields and the unused area. */
  function FieldBytes(h: Header): (r: seq<bv8>)
    ensures |r| == CommentFieldOffset - |Lm16|
  {
    ShortFieldBytes(h) + TableBytes(h) + GeometryBytes(h) + Zeros(UnusedAreaSize)
  }

  /** get_header_vec: "LM16", the fields, the unused area, then the comment. */
  function HeaderBytes(h: Header): (r: seq<bv8>)
    ensures |r| == CommentFieldOffset + |h.comment|
  {
    Lm16 + FieldBytes(h) + h.comment
  }

  datatype ReadError =
    | HeaderTruncated      // the buffer ends before the flags word (undefined behaviour in the source)
    | CommentOutOfRange    // the comment loop indexes past the buffer (std::out_of_range)

  /**
   * get_header_from_map16_buffer: every field read little-endian at its
   * offset; the comment is the bytes from 0x40 up to the recorded table
   * offset. The loop runs `offset - 0x40` times in unsigned arithmetic: an
   * offset of exactly 0x40 reads nothing, so even a buffer shorter than 0x40
   * yields an empty comment, and an offset below 0x40 wraps round to a count
   * that runs off the end of the buffer.
   */
  function GetHeaderFromBuffer(buf: seq<bv8>): (r: Result<Header, ReadError>)
    ensures r.Success? <==> (|buf| >= VariousFlagsAndInfoOffset + VariousFlagsAndInfoSize &&
      var offset := LeValue(buf[OffsetSizeTableOffsetOffset..OffsetSizeTableSizeOffset]);
      CommentFieldOffset <= offset && (offset == CommentFieldOffset || offset <= |buf|))
    ensures |buf| < VariousFlagsAndInfoOffset + VariousFlagsAndInfoSize ==> r == Failure(HeaderTruncated)
    ensures r.Success? ==>
      CommentFieldOffset + |r.value.comment| == LeValue(buf[OffsetSizeTableOffsetOffset..OffsetSizeTableSizeOffset]) &&
      (|r.value.comment| > 0 ==> r.value.comment == buf[CommentFieldOffset..CommentFieldOffset + |r.value.comment|])
  {
    if |buf| < VariousFlagsAndInfoOffset + VariousFlagsAndInfoSize then Failure(HeaderTruncated)
    else
      var offset := LeValue(buf[OffsetSizeTableOffsetOffset..OffsetSizeTableSizeOffset]);
      if offset < CommentFieldOffset then Failure(CommentOutOfRange)
      else if offset == CommentFieldOffset then Success(ReadFields(buf, []))
      else if offset > |buf| then Failure(CommentOutOfRange)
      else Success(ReadFields(buf, buf[CommentFieldOffset..offset]))
  }

  /** The fields of a header buffer, each read little-endian at its offset, and the given comment. */
  function ReadFields(buf: seq<bv8>, comment: seq<bv8>): (h: Header)
    requires |buf| >= VariousFlagsAndInfoOffset + VariousFlagsAndInfoSize
    ensures h.comment == comment
  {
    Header(
      JoinBytes(buf[FileFormatVersionNumberOffset..GameIdOffset]),
      JoinBytes(buf[GameIdOffset..ProgramVersionOffset]),
      JoinBytes(buf[ProgramVersionOffset..ProgramIdOffset]),
      JoinBytes(buf[ProgramIdOffset..ExtraFlagsOffset]),
      JoinBytes(buf[ExtraFlagsOffset..OffsetSizeTableOffsetOffset]),
      JoinBytes(buf[OffsetSizeTableOffsetOffset..OffsetSizeTableSizeOffset]),
      JoinBytes(buf[OffsetSizeTableSizeOffset..SizeXOffset]),
      JoinBytes(buf[SizeXOffset..SizeYOffset]),
      JoinBytes(buf[SizeYOffset..BaseXOffset]),
      JoinBytes(buf[BaseXOffset..BaseYOffset]),
      JoinBytes(buf[BaseYOffset..VariousFlagsAndInfoOffset]),
      JoinBytes(buf[VariousFlagsAndInfoOffset..VariousFlagsAndInfoOffset + VariousFlagsAndInfoSize]),
      comment)
  }

  /**
   * g is what reading back a written h yields: the 16-bit fields narrowed,
   * every other field except the recomputed table fields unchanged.
   */
  predicate ReadsBackAs(g: Header, h: Header)
  {
    g.fileFormatVersionNumber == h.fileFormatVersionNumber & 0xFFFF &&
    g.gameId == h.gameId & 0xFFFF &&
    g.programVersion == h.programVersion & 0xFFFF &&
    g.programId == h.programId & 0xFFFF &&
    g.extraFlags == h.extraFlags && g.sizeX == h.sizeX && g.sizeY == h.sizeY &&
    g.baseX == h.baseX && g.baseY == h.baseY && g.variousFlagsAndInfo == h.variousFlagsAndInfo &&
    g.comment == h.comment
  }
}
