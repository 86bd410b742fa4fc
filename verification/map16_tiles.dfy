/**
 * The 16-bit word of one 8x8 tile inside a Map16 16x16 tile, the text
 * spelling of its flags, and Lunar Magic's "empty tile" convention.
 *
 * Bit layout of a word: bits 0-9 tile number, bits 10-12 palette,
 * bit 13 priority, bit 14 x flip, bit 15 y flip.
 */
module Map16Tiles {
  import opened Bytes

  const XFlipOn: char := 'x'
  const XFlipOff: char := '-'
  const YFlipOn: char := 'y'
  const YFlipOff: char := '-'
  const PriorityOn: char := 'p'
  const PriorityOff: char := '-'

  const EmptyTileShorthand: char := '~'
  const EmptyTileActsLike: bv16 := 0x130
  const EmptyTileWord: bv16 := 0x1004

  /** Tiles per page, bytes per 16x16 tile (four words), bytes per acts-like setting. */
  const PageSize: nat := 0x100
  const Tile16ByteSize: nat := 8
  const ActsLikeSize: nat := 2

  /** An 8x8 tile as the text format spells it: number, palette and the three flag characters. */
  datatype Tile8 = Tile8(number: bv16, palette: bv16, x: char, y: char, p: char)
  {
    /** The ranges and flag characters the text validator admits. */
    predicate Valid()
    {
      number < 0x400 && palette < 8
      && (x == XFlipOn || x == XFlipOff)
      && (y == YFlipOn || y == YFlipOff)
      && (p == PriorityOn || p == PriorityOff)
    }
  }

  /**
   * to_bytes: y flip into bit 15, x flip into bit 14, priority into bit 13,
   * palette shifted to bit 10, tile number in the low bits. A flag is set
   * exactly when its character is the "on" character.
   */
  function ToBytes(t: Tile8): (w: bv16)
    ensures t.Valid() ==> w & 0x3FF == t.number && (w >> 10) & 7 == t.palette
    ensures t.Valid() ==> ((w & 0x4000 != 0) <==> t.x == XFlipOn)
    ensures t.Valid() ==> ((w & 0x8000 != 0) <==> t.y == YFlipOn)
    ensures t.Valid() ==> ((w & 0x2000 != 0) <==> t.p == PriorityOn)
  {
    var xb: bv16 := if t.x == XFlipOn then 1 else 0;
    var yb: bv16 := if t.y == YFlipOn then 1 else 0;
    var pb: bv16 := if t.p == PriorityOn then 1 else 0;
    (yb << 15) | (xb << 14) | (pb << 13) | (t.palette << 10) | t.number
  }

  /** TILE_FORMAT: the fields from_map16 prints for one tile word. */
  function TileFormat(w: bv16): (t: Tile8)
    ensures t.Valid()
  {
    Tile8(
      w & 0x3FF,
      (w >> 10) & 7,
      if w & 0x4000 != 0 then XFlipOn else XFlipOff,
      if w & 0x8000 != 0 then YFlipOn else YFlipOff,
      if w & 0x2000 != 0 then PriorityOn else PriorityOff)
  }

  /** Printing a word and packing the printed fields gives the word back. */
  lemma ToBytesOfTileFormat(w: bv16)
    ensures ToBytes(TileFormat(w)) == w
  {
  }

  /** Packing a valid tile and printing the word gives the tile back. */
  lemma TileFormatOfToBytes(t: Tile8)
    requires t.Valid()
    ensures TileFormat(ToBytes(t)) == t
  {
  }

  /**
   * try_LM_empty_convert: a 16x16 tile is Lunar Magic's empty tile exactly when
   * its acts-like setting is 0x130 and all four words are 0x1004.
   */
  predicate IsLMEmpty(actsLike: bv16, words: seq<bv16>)
    requires |words| == 4
  {
    actsLike == EmptyTileActsLike && forall i :: 0 <= i < 4 ==> words[i] == EmptyTileWord
  }

  /** The tiles-only overload: the same test with the acts-like setting fixed at 0x130. */
  predicate IsLMEmptyTilesOnly(words: seq<bv16>)
    requires |words| == 4
  {
    IsLMEmpty(EmptyTileActsLike, words)
  }

  /** The bytes of four tile words, each least significant byte first. */
  function WordsToBytes(words: seq<bv16>): (r: seq<bv8>)
    ensures |r| == 2 * |words|
    ensures forall i :: 0 <= i < |words| ==> r[2 * i..2 * i + 2] == Split2(words[i])
  {
    if |words| == 0 then []
    else
      var r := Split2(words[0]) + WordsToBytes(words[1..]);
      assert forall i :: 1 <= i < |words| ==> r[2 * i..2 * i + 2] == WordsToBytes(words[1..])[2 * (i - 1)..2 * (i - 1) + 2];
      r
  }

  /** The tile bytes to_map16 emits for the "~" shorthand: four empty words. */
  function EmptyTileBytes(): (r: seq<bv8>)
    ensures |r| == Tile16ByteSize
    ensures r == WordsToBytes([EmptyTileWord, EmptyTileWord, EmptyTileWord, EmptyTileWord])
  {
    Split2(EmptyTileWord) + Split2(EmptyTileWord) + Split2(EmptyTileWord) + Split2(EmptyTileWord)
  }

  /** The tiles-only empty test agrees with the full test at acts-like 0x130 and nowhere else. */
  lemma TilesOnlyEmptyIsFullAt130(a: bv16, words: seq<bv16>)
    requires |words| == 4
    ensures IsLMEmptyTilesOnly(words) <==> IsLMEmpty(EmptyTileActsLike, words)
    ensures a != EmptyTileActsLike ==> !IsLMEmpty(a, words)
  {
  }
}
