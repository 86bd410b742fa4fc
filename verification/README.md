# callisto / stardust core, modelled in Dafny

callisto is a build tool for Super Mario World ROM hacks. It assembles a ROM from
Lunar Magic levels, Map16 data, graphics, patches and modules, and it decides whether
a quick incremental build is still safe or a full rebuild is needed. stardust is its
front end. This project models the pure data logic of both programs as immutable
datatypes and pure functions, and proves properties about them.

- **Map16 codec.** The binary `.map16` file has a header, an offset/size table and
  tile blocks. The human-readable form has a `header.txt` and one line per 16x16 tile.
  The model covers:
  - little-endian splitting and joining of 16- and 32-bit words;
  - the 16-bit 8x8-tile word (`to_bytes` / `TILE_FORMAT`);
  - the Lunar Magic empty-tile shorthand `~`;
  - strict verification of tile lines and of the 11-line header;
  - the header's byte layout and flag bits;
  - the offset/size table, in both directions;
  - the preconditions of both `convert` entry points.
- **Configuration.**
  - The `{var}` / `{{` / `}}` substitution parser.
  - Per-level config variables: the highest level wins, and path lists concatenate across levels.
  - The `trySet` variants and resource-dependency policy parsing.
  - Patch and module uniqueness checks, and build-order symbol resolution.
- **Incremental-build decisions.**
  - Build-order comparison, level-removal detection and config/resource dependency checks.
  - Hijack coverage.
  - The write-conflict map, the LoROM address mapping and the conflict report header.
  - The half-open `Interval`.
  - The extractable bitfield and the marker timestamp.
- **Validators and decoders.**
  - MWL level numbers.
  - GFX/ExGFX file names.
  - Level object decoding and the screen-exit rewrite in `level.cpp`.
- **Small helpers.** The recent-projects MRU list, `StrFind`/`StrReplace`, path
  naming, colour and emphasis lookup, and duration formatting.
- **Release script.** The version string, the version gate, doc page selection,
  titles, link rewriting and build-fragment copying.

Bytes are `bv8`. Words whose code is bit manipulation are `bv16`/`bv32`, and arithmetic
is on `nat`/`int`. C++ exceptions become `Result` failures carrying the reason.
Filesystem queries are parameters of the functions that need them: existence, directory
listings, write times and `PathUtil::normalize`.

## Model

| member | source | states |
|---|---|---|
| Bytes.Split2 | stardust/stardust/human_map16/to_map16.cpp:180-183 | splitting a 16-bit word gives exactly two bytes that join back to the word (low byte first) |
| Bytes.Split2OfJoin | stardust/stardust/human_map16/to_map16.cpp:180-183 | any two bytes that join to w are exactly Split2(w): the split is the inverse of the join |
| Bytes.Split4 | stardust/stardust/human_map16/to_map16.cpp:185-188 | splitting a 32-bit word gives exactly four bytes that join back to the word |
| Bytes.Split4OfJoin | stardust/stardust/human_map16/to_map16.cpp:185-188 | splitting the join of any four bytes gives the same four bytes back |
| Bytes.JoinBytesValue | callisto/human_map16/from_map16.cpp:4-12 | join_bytes over up to four bytes equals the little-endian value, byte i weighted by 256^i |
| Bytes.LeValueOfBytes | callisto/human_map16/from_map16.cpp:4-12 | writing n as k little-endian bytes and reading them back yields n mod 256^k |
| Bytes.LeBytesOfValue | callisto/human_map16/from_map16.cpp:4-12 | re-encoding the little-endian value of a byte string reproduces the bytes |
| Bytes.LeWordAt | callisto/human_map16/from_map16.cpp:4-12 | a 32-bit little-endian field written into a buffer reads back as the value mod 2^32 |
| Map16Tiles.ToBytes | stardust/stardust/human_map16/to_map16.cpp:225-231 | for a valid 8x8 tile the word carries the tile number in bits 0-9, the palette in bits 10-12, and priority, x-flip and y-flip exactly in bits 13, 14 and 15 |
| Map16Tiles.TileFormat | callisto/human_map16/from_map16.cpp:90-95 | decoding any word gives a valid tile (number below 0x400, palette at most 7, legal flag characters) |
| Map16Tiles.ToBytesOfTileFormat | callisto/human_map16/from_map16.cpp:90-95 | encoding a decoded word gives the word back |
| Map16Tiles.TileFormatOfToBytes | callisto/human_map16/from_map16.cpp:90-95 | decoding an encoded valid tile gives the tile back |
| Map16Tiles.WordsToBytes | stardust/stardust/human_map16/to_map16.cpp:233-260 | a tile's four words become eight bytes, each word low byte first in its own slot |
| Map16Tiles.EmptyTileBytes | stardust/stardust/human_map16/human_readable_map16.h:37-41 | the `~` shorthand stands for four 0x1004 words, i.e. eight bytes |
| Map16Tiles.TilesOnlyEmptyIsFullAt130 | callisto/human_map16/from_map16.cpp:75-88 | the tiles-only overload delegates to the full check with acts-like 0x130, as the source does, so no acts-like value other than 0x130 is ever empty |
| Map16Header.Offsets | stardust/stardust/human_map16/human_readable_map16.h:49-92 | the header fields sit contiguously at 4, 6, 8, 10, 12, 16, 20, 24, 28, 32, 36, 40; the comment starts at 0x40; the table is 0x40 bytes |
| Map16Header.FlagsOfFlagBits | stardust/stardust/human_map16/human_readable_map16.cpp:3-9 | packing the two flags into bits 0 and 1 and decoding them returns the original two booleans |
| Map16Header.FlagsIndependent | stardust/stardust/human_map16/human_readable_map16.cpp:3-9 | each flag depends only on its own bit: changing every other bit leaves it unchanged |
| Map16Header.HeaderBytes | stardust/stardust/human_map16/to_map16.cpp:909-943 | the written header is exactly 0x40 bytes plus the comment |
| Map16HeaderRead.TableFields | stardust/stardust/human_map16/to_map16.cpp:909-943 | reading back the table part of a written header gives the extra flags and size_x unchanged, the table offset as 0x40 plus the comment length (modulo 2^32) and the table size 0x40 |
| Map16Header.GetHeaderFromBuffer | callisto/human_map16/from_map16.cpp:31-54 | a buffer shorter than the fixed fields fails; otherwise reading succeeds exactly when the table offset is 0x40 (empty comment, whatever the buffer length) or lies between 0x40 and the buffer end; an offset below 0x40 fails; the comment is the bytes from 0x40 to the offset |
| Map16HeaderRead.HeaderRoundTrip | callisto/human_map16/from_map16.cpp:31-54 | reading back any written header recovers every field (16-bit fields truncated) and the comment, whatever follows the header |
| Map16HeaderText.GetLinesOfJoin | stardust/stardust/human_map16/to_map16.cpp:7-61 | splitting joined lines without line breaks gives the lines back |
| Map16HeaderText.CheckLine | stardust/stardust/human_map16/to_map16.cpp:117-172 | an accepted header line starts with its field name; number fields are 1 to max uppercase hex digits |
| Map16HeaderText.CheckLineValid | stardust/stardust/human_map16/to_map16.cpp:117-172 | a line is accepted exactly when it is valid for its position (name, digit count, 0/1 flag, quoted comment) |
| Map16HeaderText.VerifyHeaderLines | stardust/stardust/human_map16/to_map16.cpp:63-178 | any line count other than 11 is refused; on success each of the 11 lines passed its own check and yields its value |
| Map16HeaderText.VerifyHeaderLinesValid | stardust/stardust/human_map16/to_map16.cpp:63-178 | verification succeeds exactly when all 11 lines are well formed |
| Map16HeaderText.FirstBadLine | stardust/stardust/human_map16/to_map16.cpp:63-178 | the reported error is the one from the first invalid line |
| Map16HeaderText.CommentIn | stardust/stardust/human_map16/to_map16.cpp:47-55 | a comment is found exactly when the line contains the `comment_field: "` opener |
| Map16HeaderText.CommentInPlain | stardust/stardust/human_map16/to_map16.cpp:47-55 | a quoted comment without inner quotes is extracted intact |
| Map16HeaderText.HeaderOfValues | stardust/stardust/human_map16/to_map16.cpp:7-61 | a parsed header has a full-game-export flag iff line 9 is "1" and a page-2 flag iff line 10 is "1"; the computed fields start at zero |
| Map16HeaderText.ParseHeaderFile | stardust/stardust/human_map16/to_map16.cpp:7-61 | parsing succeeds exactly when header.txt exists and its lines are well formed; a missing file is its own error |
| Map16HeaderText.CutAtNul | callisto/human_map16/from_map16.cpp:387 | the written comment is the longest NUL-free prefix of the stored comment |
| Map16HeaderText.HeaderTextRoundTrip | callisto/human_map16/from_map16.cpp:361-391 | parsing the header.txt written for a header succeeds and recovers every field and the comment up to its first NUL |
| Map16HeaderText.ScanOfHex | callisto/human_map16/from_map16.cpp:361-391 | a 32-bit field printed as uppercase hex fits 8 digits and scans back to the same value |
| Map16HeaderText.BytesOfCharsOfBytes | callisto/human_map16/from_map16.cpp:361-391 | bytes shown as characters convert back to the same bytes |
| Map16Layout.OffsetSizeVec | stardust/stardust/human_map16/to_map16.cpp:876-907 | the table has eight entries and the first block starts right after the header and the 0x40-byte table |
| Map16Layout.RegionsTileFile | stardust/stardust/human_map16/to_map16.cpp:876-907 | the entries tile the file after the table: FG, BG, acts-like and the four later blocks follow one another from header size + 0x40 without gap, the last ends the file, and entry 0 spans FG and BG together |
| Map16Layout.RegionsLocateBlocks | stardust/stardust/human_map16/to_map16.cpp:945-962 | in the combined file each table entry points at exactly the block it names |
| Map16Layout.GetOffsetSizeTable | callisto/human_map16/from_map16.cpp:56-72 | the corrected reader succeeds exactly when size/8 pairs fit after the table offset and returns that many pairs |
| Map16Layout.GetOffsetSizeTableAsWritten | callisto/human_map16/from_map16.cpp:56-72 | the reader as written never terminates exactly when the table holds an odd number of 32-bit words |
| Map16Layout.TableAsWrittenAgrees | callisto/human_map16/from_map16.cpp:56-72 | for an even word count the reader as written and the corrected reader agree |
| Map16Layout.OddTableNeverEnds | callisto/human_map16/from_map16.cpp:62 | a 12-byte table never terminates as written, while the corrected reader returns one pair |
| Map16Layout.ReadPairsOfBytes | callisto/human_map16/from_map16.cpp:56-72 | pairs written little-endian read back as the regions mod 2^32 |
| Map16Layout.FileRoundTrip | callisto/human_map16/from_map16.cpp:56-72 | for a whole written .map16 file under 4 GiB, both readers recover the eight regions of the original layout |
| Map16Convert.FromMap16Checks | callisto/human_map16/from_map16.cpp:393-422 | convert refuses a missing input, a non-.map16 name, an output directory in use and a non-full-game export; it succeeds exactly when none of these applies |
| Map16Convert.EarlierOutputUsable | callisto/human_map16/from_map16.cpp:402-415 | an empty output directory, or one holding header.txt, may be overwritten |
| Map16Convert.FromMap16OfAssembledFile | callisto/human_map16/from_map16.cpp:393-422 | a file assembled from a header is accepted exactly when that header is a full game export |
| Map16Convert.ToMap16Checks | stardust/stardust/human_map16/to_map16.cpp:964-985 | the reverse convert refuses a missing input, a plain file, a bad header, a non-full-game export and a non-zero base; it succeeds exactly otherwise |
| Map16Convert.ToMap16OfWrittenHeader | stardust/stardust/human_map16/to_map16.cpp:964-985 | a header.txt written by the forward converter is accepted exactly when base x and y are zero and reads back as the original header |
| Map16Convert.ChecksOfFullExport | stardust/stardust/human_map16/to_map16.cpp:964-985 | once the header parses as a full export, the only possible failure is a non-zero base |
| Nibbles.NibbleValueOfChar | stardust/stardust/human_map16/human_readable_map16.h:28 | a nibble printed as a hex digit reads back as the same nibble |
| Nibbles.NibbleCharOfValue | stardust/stardust/human_map16/human_readable_map16.h:28 | an uppercase hex digit read and printed again is the same digit |
| Nibbles.ReadHex4 | stardust/stardust/human_map16/human_readable_map16.h:28 | a word printed as four uppercase hex digits reads back as the word |
| Nibbles.Hex4OfRead | stardust/stardust/human_map16/human_readable_map16.h:28 | four uppercase hex digits read and printed again give the same text |
| Map16Lines.VerifyTileNumber | stardust/stardust/human_map16/to_map16.cpp:363-384 | a line is accepted exactly when it starts with the expected number as four uppercase hex digits and ": " |
| Map16Lines.Check8x8Window | stardust/stardust/human_map16/to_map16.cpp:426-506 | an accepted 8x8 spec has three uppercase hex digits giving a tile below 0x400, palette at most 7 and flags from {x,-}, {y,-}, {p,-} |
| Map16Lines.Verify8x8Tile | stardust/stardust/human_map16/to_map16.cpp:426-506 | an accepted 8x8 tile spans exactly nine characters at the cursor, all of which pass the window check |
| Map16Lines.Verify8x8Tiles | stardust/stardust/human_map16/to_map16.cpp:297-360 | an accepted tile group is ` { ` + four valid 8x8 tiles separated by two spaces + ` }`, 47 characters long |
| Map16Lines.VerifyActsLikeAsWritten | stardust/stardust/human_map16/to_map16.cpp:386-424 | the acts-like check as written only ever yields values below 0x1000 |
| Map16Lines.VerifyActsLike | stardust/stardust/human_map16/to_map16.cpp:386-424 | the corrected check accepts exactly four uppercase hex digits of value at most 0x7FFF and returns that value |
| Map16Lines.ActsLikeBoundUnreachable | stardust/stardust/human_map16/to_map16.cpp:386-424 | the "acts-like too large" error can never be raised as written |
| Map16Lines.ActsLikeAsWrittenDropsLastDigit | stardust/stardust/human_map16/to_map16.cpp:386-424 | whenever the corrected check accepts, the check as written returns the value without its last hex digit |
| Map16Lines.ActsLike8000Accepted | stardust/stardust/human_map16/to_map16.cpp:386-424 | "0000: 8000" passes as written (as 0x800) but is too large for the corrected check |
| Map16Lines.ActsLikeNonHexAccepted | stardust/stardust/human_map16/to_map16.cpp:386-424 | "0000: 123G" passes as written but its last digit is rejected by the corrected check |
| Map16Lines.VerifyFull | stardust/stardust/human_map16/to_map16.cpp:262-295 | `~` is accepted exactly when the line is the tile number, ": " and `~`; otherwise the acts-like field must pass the check as written (three digits read) or as corrected (four digits, at most 0x7FFF), and four valid 8x8 tiles are required |
| Map16Lines.VerifyTilesOnly | stardust/stardust/human_map16/to_map16.cpp:573-623 | as for full lines, but the acts-like column must be four spaces |
| Map16Lines.VerifyActsLikeOnly | stardust/stardust/human_map16/to_map16.cpp:521-545 | an accepted acts-like-only line is exactly the tile number prefix and four characters that are not `~`, whose acts-like field passes the check as written or as corrected |
| Map16Lines.ConvertFull | stardust/stardust/human_map16/to_map16.cpp:233-260 | conversion succeeds only after verification does; a success yields eight tile bytes and two acts-like bytes. A full line whose fourth acts-like character is not hex verifies as written, but `sscanf` stops before the tile fields. The source then converts uninitialised variables, which is undefined behaviour, and returns normally. The model reports TilesUnassigned instead (see Left out) |
| Map16Lines.ConvertTilesOnly | stardust/stardust/human_map16/to_map16.cpp:547-571 | conversion succeeds exactly when verification does and yields eight tile bytes |
| Map16Lines.ConvertActsLikeOnly | stardust/stardust/human_map16/to_map16.cpp:508-519 | conversion succeeds exactly when verification does and yields two bytes that join to the verified value |
| Map16Lines.ConvertFullOfFormat | callisto/human_map16/from_map16.cpp:97-109 | a full line written for any tile converts back to the same eight tile bytes and acts-like bytes, as written for every acts-like value and as corrected for values up to 0x7FFF |
| Map16Lines.FullCorrectedNarrowsAsWritten | stardust/stardust/human_map16/to_map16.cpp:233-295 | wherever the corrected full-line check accepts, the check and conversion as written give the same result |
| Map16Lines.ActsLikeOnlyCorrectedNarrowsAsWritten | stardust/stardust/human_map16/to_map16.cpp:508-545 | wherever the corrected acts-like-only check accepts, the check and conversion as written give the same result |
| Map16Lines.ActsLikeOnly8000Converts | stardust/stardust/human_map16/to_map16.cpp:508-545 | "0000: 8000" converts to 0x8000 as written and is refused as too large when corrected |
| Map16Lines.ActsLikeOnlyNonHexConverts | stardust/stardust/human_map16/to_map16.cpp:508-545 | "0000: 123G" converts to 0x123 as written and is refused as not hex when corrected |
| Map16Lines.ConvertTilesOnlyOfFormat | callisto/human_map16/from_map16.cpp:117-129 | a tiles-only line written for any tile converts back to the same eight bytes |
| Map16Lines.ConvertActsLikeOnlyOfFormat | callisto/human_map16/from_map16.cpp:111-115 | an acts-like-only line converts back to the same two bytes, as written for every value and as corrected for values up to 0x7FFF |
| Map16Lines.FullShorthandOfFormat | callisto/human_map16/from_map16.cpp:75-84 | a tile written as `~` converts back to the empty tile bytes and acts-like 0x130 |
| Map16Lines.TilesOnlyShorthandOfFormat | callisto/human_map16/from_map16.cpp:86-88 | a tiles-only `~` line converts back to the empty tile bytes |
| UserVariables.NoBracesUnchanged | callisto/callisto/configuration/config_variable.h:155-162 | a string without braces is returned unchanged |
| UserVariables.FormatPrinted | callisto/callisto/configuration/config_variable.h:62-176 | formatting the printed form of any literal/usage sequence gives the reference rendering: `{{` and `}}` become braces, usages their values, and an unknown name fails |
| UserVariables.ScanPrintedPiece | callisto/callisto/configuration/config_variable.h:115-139 | a usage of a known name is replaced by its value; an unknown name is refused |
| UserVariables.UnclosedRefused | callisto/callisto/configuration/config_variable.h:166-173 | a `{` never closed is refused |
| UserVariables.LoneClosingRefused | callisto/callisto/configuration/config_variable.h:140-152 | a `}` not followed by another `}` is refused |
| UserVariables.NestedRefused | callisto/callisto/configuration/config_variable.h:100-112 | a `{` inside a usage is refused as nesting |
| UserVariables.BraceInUsageRefused | callisto/callisto/configuration/config_variable.h:87-95 | an escaped `{{` inside a usage is refused |
| ConfigVariables.NameSplits | callisto/callisto/configuration/config_variable.h:204-206 | the dotted variable name splits back into its keys |
| ConfigVariables.TopLevel | callisto/callisto/configuration/config_variable.h:178-189 | the chosen level is set and no set level is higher |
| ConfigVariables.GetOrThrow | callisto/callisto/configuration/config_variable.h:178-189 | reading succeeds iff some level is set, returning the highest level's value; otherwise NotSpecified with the variable's name |
| ConfigVariables.GetOrDefault | callisto/callisto/configuration/config_variable.h:191-198 | the default is used exactly when nothing is set |
| ConfigVariables.CheckNotSet | callisto/callisto/configuration/config_variable.h:49-59 | setting a level fails exactly when that level already holds a value |
| ConfigVariables.SetAboveReads | callisto/callisto/configuration/config_variable.h:186-188 | a value set above all existing levels is the one read back |
| ConfigVariables.TrySetString | callisto/configuration/config_variable.cpp:44-61 | an absent key leaves the variable unchanged; a second set of one level fails with SpecifiedTwice; a value that does not format fails with Unformattable; otherwise the call answers true and the formatted string is stored at that level, nothing else changing |
| ConfigVariables.SetTwiceRefused | callisto/configuration/config_variable.cpp:49-50 | setting the same level twice is refused |
| ConfigVariables.TrySetStrings | callisto/configuration/config_variable.cpp:131-155 | a string list is stored exactly when every entry formats, keeping length and order with each entry formatted; otherwise the error is that of the first entry that does not format |
| ConfigVariables.TrySetBool | callisto/configuration/config_variable.cpp:156-171 | a boolean is stored iff the key is present and the level unset |
| ConfigVariables.ToInt16 | callisto/configuration/config_variable.cpp:63-78 | the stored integer is the value wrapped into the signed 16-bit range |
| ConfigVariables.TrySetInteger | callisto/configuration/config_variable.cpp:63-78 | an integer is stored, wrapped to 16 bits, iff the key is present and the level unset |
| ConfigVariables.TrySetPath | callisto/configuration/config_variable.cpp:4-42 | a found path is refused if the level is set, then if it does not format, then if the base variable is unset (NotSpecified); otherwise it is stored formatted and normalised against the base |
| ConfigVariables.TrySetPathList | callisto/configuration/config_variable.cpp:80-106 | a non-empty path list whose first entry formats fails when the base is unset; with a base, the list is stored exactly when every entry formats, each entry formatted and normalised, in order |
| ConfigVariables.NormalizeEach | callisto/configuration/config_variable.cpp:89-94 | an empty list needs no base; otherwise the first entry's format error comes before the base's NotSpecified; with a base, each path is formatted and then normalised, in order |
| ConfigVariables.GetPathList | callisto/configuration/config_variable.cpp:108-129 | reading a path list fails with NotSpecified exactly when no level is set |
| ConfigVariables.PathListExtends | callisto/configuration/config_variable.cpp:108-129 | a list set at a higher level is appended after the lists of the lower levels |
| ConfigVariables.ParsePolicy | callisto/configuration/config_variable.cpp:186-208 | an absent policy or "reinsert" means reinsert, "rebuild" means rebuild, and anything else is refused with its text |
| ConfigVariables.EntryDependencies | callisto/configuration/config_variable.cpp:173-228 | a dependency without a path, with a bad policy, with an unformattable path or with the base unset is refused, in that order; otherwise the first dependency is the normalised path, the rest are the entries beneath it, and all carry the parsed policy |
| ConfigVariables.ConvertDependencies | callisto/configuration/config_variable.cpp:173-228 | the dependency list converts exactly when every entry does; the result is every entry's own dependency list (its normalized path, then the paths beneath it) joined in entry order; a failure carries the error of the first entry that fails |
| Configuration.GetByKey | callisto/configuration/configuration.cpp:172-179 | an unknown key gives the unset value, a recorded key its stored value |
| Configuration.RecordReads | callisto/configuration/configuration.cpp:128-179 | after recording a value under a name, that name reads back the value and other keys are unchanged |
| Configuration.VerifyModuleExclusivity | callisto/configuration/configuration.cpp:41-72 | validation succeeds exactly when module inputs are distinct and module outputs are distinct |
| Configuration.CheckModules | callisto/configuration/configuration.cpp:41-72 | a failure names a repeated input as duplicate module, or a repeated output as shared output |
| Configuration.VerifyPatchUniqueness | callisto/configuration/configuration.cpp:74-89 | validation succeeds exactly when no patch path repeats; a failure names a path listed twice |
| Configuration.VerifyPatchModuleExclusivity | callisto/configuration/configuration.cpp:26-39 | validation succeeds exactly when no patch is also a module input; a failure names such a path |
| Configuration.StaticSymbolsOneToOne | callisto/configuration/configuration.cpp:617-646 | each static symbol has exactly one name that maps to it |
| Configuration.ExplicitPatches | callisto/configuration/configuration.cpp:197-211 | the explicit patches are exactly the patches named, after normalisation, in the build order |
| Configuration.ExplicitModules | callisto/configuration/configuration.cpp:181-195 | the explicit modules are exactly the module inputs named in the build order |
| Configuration.SymbolToDescriptor | callisto/configuration/configuration.cpp:616-698 | static names map to their one descriptor; "Patches" gives the non-explicit patches and "Modules" the non-explicit module inputs, each in list order; any other symbol is, in this order of precedence, its normalized patch, its normalized module input, or the tool of that name; a symbol is refused exactly when it is none of these |
| Configuration.RemainingInListOrder | callisto/configuration/configuration.cpp:647-676 | the "Patches" and "Modules" expansions follow the list: a list split in two expands to the two parts' descriptors one after the other |
| Configuration.RemainingOne | callisto/configuration/configuration.cpp:655-659 | a single listed file expands to its own descriptor exactly when it is not named explicitly |
| Configuration.PatchesAllPlaced | callisto/configuration/configuration.cpp:647-664 | every patch is either named in the build order or placed by "Patches" |
| Configuration.ExplicitPatchNotRepeated | callisto/configuration/configuration.cpp:647-664 | a patch named in the build order is not placed a second time by "Patches" |
| Configuration.BuildOrder | callisto/configuration/configuration.cpp:109-126 | the build order resolves exactly when every symbol resolves; a failure is the error of the first unknown symbol, all symbols before it resolving |
| Configuration.ResolveAllAppend | callisto/configuration/configuration.cpp:117-120 | resolving symbol by symbol: a list split in two gives the first part's error, else the second part's, else the two parts' descriptors joined in order |
| Configuration.BuildOrderAppend | callisto/configuration/configuration.cpp:117-120 | the build order of two joined symbol lists is the first's error, else the second's, else their descriptors one after the other |
| Configuration.BuildOrderOne | callisto/configuration/configuration.cpp:117-120 | a one-symbol build order is exactly that symbol's descriptors, or its error |
| Marker.OrdinalInjective | callisto/saver/extractable_type.h:4-17 | distinct extractable types have distinct ordinals |
| Marker.ExtractablesToBitField | callisto/saver/marker.cpp:4-10 | the bitfield sets no bit beyond the known extractable types |
| Marker.BitFieldHasKind | callisto/saver/marker.cpp:4-10 | bit i is set exactly when type i is in the list |
| Marker.DetermineAddedExtractables | callisto/saver/marker.cpp:12-21 | the result is exactly the types set in the new field and not the old one, in ascending ordinal order, and empty when the fields are equal |
| Marker.AddedBetweenLists | callisto/saver/marker.cpp:12-21 | across two lists, a type is added exactly when it is in the new list and not the old one |
| Marker.TimestampRoundTrip | callisto/saver/marker.cpp:23-30 | splitting a timestamp into its 16-bit high and 24-bit low parts and putting them back in place is lossless exactly for timestamps below 2^40 |
| Marker.TimestampPartsRoundTrip | callisto/saver/marker.cpp:23-30 | parts put back in place split back into the same parts |
| Marker.TextJoinTimestamp | callisto/saver/marker.cpp:121-127 | as written, the timestamp read back is the high part shifted up by the number of hex digits printed for the low part, plus the low part |
| Marker.TextJoinExact | callisto/saver/marker.cpp:121-127 | the text read-back gives the intended timestamp exactly when the high part is zero or the low part has six hex digits |
| Marker.TextJoinDropsZero | callisto/saver/marker.cpp:121-127 | the timestamp 0x65053F10 is split into 0x65 and 0x053F10 and read back as 0x6553F10 |
| Marker.MarkerOf | callisto/saver/marker.cpp:23-31 | with the parts put back in place, the marker keeps the timestamp iff it is below 2^40, and it records exactly the given types |
| Marker.NeededExtractions | callisto/saver/marker.cpp:201-236 | everything is extracted when the sync file or marker is missing or a timestamp differs; otherwise exactly the requested types not yet in the marker |
| Marker.NextSyncExtractsAdded | callisto/saver/marker.cpp:201-236 | after a marker is written, the next sync extracts exactly the types added since |
| QuickBuilder.CheckBuildOrderChange | callisto/builders/quick_builder.cpp:316-328 | a quick build is allowed exactly when the build order is unchanged |
| QuickBuilder.NewLevelNumbers | callisto/builders/quick_builder.cpp:342-355 | the new level set is exactly the numbers read from the .mwl entries; an unreadable level fails with its name |
| QuickBuilder.CheckProblematicLevelChanges | callisto/builders/quick_builder.cpp:330-370 | a missing levels folder fails; otherwise a rebuild is required exactly when some old level number is no longer present |
| QuickBuilder.LevelsAddedNoRebuild | callisto/builders/quick_builder.cpp:357-369 | adding levels never forces a rebuild |
| QuickBuilder.RemovedLevelRebuilds | callisto/builders/quick_builder.cpp:357-369 | removing an old level forces a rebuild |
| QuickBuilder.CheckReinsertConfigDependencies | callisto/builders/quick_builder.cpp:418-432 | the result is the first reinsert-policy dependency whose value changed, and none exactly when there is no such dependency |
| QuickBuilder.CheckRebuildConfigDependencies | callisto/builders/quick_builder.cpp:372-391 | a rebuild is forced exactly when some rebuild-policy configuration value changed |
| QuickBuilder.ReinsertChangesDoNotRebuild | callisto/builders/quick_builder.cpp:372-391 | changes to reinsert-policy values never force a rebuild |
| QuickBuilder.CheckReinsertResourceDependencies | callisto/builders/quick_builder.cpp:434-448 | the first reinsert-policy resource whose current write time (none when the file is missing) differs from the recorded one is reported; nothing is reported exactly when there is no such resource |
| QuickBuilder.CheckRebuildResourceDependencies | callisto/builders/quick_builder.cpp:393-416 | a rebuild is forced exactly when some rebuild-policy resource is stale |
| QuickBuilder.WrittenAddresses | callisto/builders/quick_builder.cpp:555-559 | the written set is exactly the addresses covered by some hijack |
| QuickBuilder.HijacksGoneBad | callisto/builders/quick_builder.cpp:551-570 | true exactly when an address covered by the old hijacks is not covered by the new ones; false for no old hijacks and for identical lists |
| Intervals.MakeInterval | stardust/stardust/builders/interval.h:13-20 | construction fails exactly when lower > upper; the interval holds exactly lower <= k < upper |
| Intervals.Length | stardust/stardust/builders/interval.h:22-24 | the length is non-negative and zero exactly when the interval holds no point |
| Intervals.OverlapsIffSharedPoint | stardust/stardust/builders/interval.h:26-29 | two non-empty intervals overlap exactly when they share a point |
| Intervals.OverlapsSymmetric | stardust/stardust/builders/interval.h:26-29 | overlap of non-empty intervals is symmetric |
| Intervals.Overlap | stardust/stardust/builders/interval.h:31-38 | the overlap holds exactly the points held by both intervals |
| Intervals.OverlapLength | stardust/stardust/builders/interval.h:31-38 | the overlap is never longer than either interval |
| Intervals.OverlapWithItself | stardust/stardust/builders/interval.h:31-38 | an interval overlapped with itself is itself |
| Rebuilder.DetermineConflictCheckSetting | callisto/builders/rebuilder.cpp:396-413 | an absent setting means hijacks; exactly "all", "hijacks" and "none" are accepted; anything else is refused with its text |
| Rebuilder.SettingRoundTrip | callisto/builders/rebuilder.cpp:396-413 | each policy's name parses back to the policy |
| Rebuilder.PcToSnes | callisto/builders/rebuilder.cpp:343-346 | the LoROM address keeps the bank offset, sets bits 15 and 23 and stays below 2^24 |
| Rebuilder.PcToSnesRoundTrip | callisto/builders/rebuilder.cpp:343-346 | every PC address below 4 MiB maps back from its LoROM address |
| Rebuilder.WritesAreIdentical | callisto/builders/rebuilder.cpp:335-340 | undefined for fewer than two writes; true exactly when every write after the original bytes carries the same value |
| Rebuilder.OneWriterIsIdentical | callisto/builders/rebuilder.cpp:335-340 | a single writer over the original bytes is never a conflict |
| Rebuilder.CompareSize | callisto/builders/rebuilder.cpp:374-378 | the compared range fits both ROMs and stops at 0x80000 under the hijacks policy |
| Rebuilder.UpdateWrites | callisto/builders/rebuilder.cpp:369-394 | policy none changes nothing; new entries are exactly the changed, unskipped addresses in range, each recorded as original bytes then the writer; existing histories are only extended |
| Rebuilder.UpdateKeepsWellFormed | callisto/builders/rebuilder.cpp:369-394 | every history still starts with the original bytes and has at least two entries |
| Rebuilder.UnchangedRomRecordsNothing | callisto/builders/rebuilder.cpp:369-394 | an unchanged ROM records no writes |
| Rebuilder.AsWrittenRunsPastSize | callisto/builders/rebuilder.cpp:380-393 | with a size between 0x7FDC and 0x7FE0 the loop as written visits address 0x7FE0, past the size |
| Rebuilder.CorrectedStaysInside | callisto/builders/rebuilder.cpp:380-393 | the corrected loop records no address at or beyond the size |
| Rebuilder.JsonDependencies | callisto/builders/rebuilder.cpp:194-233 | the report is the list of last occurrences of each descriptor |
| Rebuilder.CollectBackwardsKeepsLast | callisto/builders/rebuilder.cpp:194-233 | the backwards walk with a seen set computes exactly the last occurrences in original order |
| Rebuilder.LastOccurrencesDistinct | callisto/builders/rebuilder.cpp:194-233 | no descriptor is reported twice, and each reported descriptor is one that occurs |
| Rebuilder.LimitedRows | callisto/builders/rebuilder.cpp:320-323 | with the limit on, more than 0x100 bytes are cut to the first 0x100 followed by "..." |
| Rebuilder.ShortRowsUnlimited | callisto/builders/rebuilder.cpp:320-323 | the limit does not change a dump of at most 0x100 bytes |
| Rebuilder.ConflictString | callisto/builders/rebuilder.cpp:307-333 | the report starts with the conflict's LoROM address and size |
| Levels.ReadBytesAt | callisto/insertables/levels.cpp:245-256 | reading succeeds exactly when the bytes are present and yields their little-endian value |
| Levels.InternalLevelNumber | callisto/insertables/levels.cpp:258-276 | a level number is returned exactly when the slot is readable and the number is below 0x200 |
| Levels.SetInternalLevelNumber | callisto/insertables/levels.cpp:310-319 | the low byte then the high byte are written at the slot and nothing else changes |
| Levels.SetThenGet | callisto/insertables/levels.cpp:258-319 | a number below 0x200 written into the MWL is the one read back |
| Levels.HexField | callisto/insertables/levels.cpp:293-298 | the three-character field is accepted exactly when it parses completely as hex |
| Levels.ExternalFromStem | callisto/insertables/levels.cpp:278-308 | an accepted stem is "level " plus three characters and names a level below 0x200 |
| Levels.CanonicalStemRoundTrip | callisto/insertables/levels.cpp:70 | the name "level %03X" written for a level reads back as that level |
| Levels.CheckEntry | callisto/insertables/levels.cpp:30-56 | an entry passes exactly when it is a .mwl file, not a directory, with a readable internal number equal to its file name's number |
| Levels.NormalizeMwls | callisto/insertables/levels.cpp:26-243 | the folder passes exactly when every entry passes; otherwise the first failing entry's error is reported |
| Levels.CanonicalEntryPasses | callisto/insertables/levels.cpp:26-243 | a level saved under its canonical name always passes |
| LevelObjects.FourBytesToInt | callisto/extractables/level.cpp:25-28 | four bytes are read little-endian, and only when present |
| LevelObjects.BytesToInt | callisto/extractables/level.cpp:31-37 | the loop reads n bytes big-endian, giving a value below 256^n |
| LevelObjects.StandardObjectId | callisto/extractables/level.cpp:76-81 | the id combines bits 5-6 of the first byte and the high nibble of the second and is below 0x40 |
| LevelObjects.IdBits | callisto/extractables/level.cpp:76-81 | the source's mask-and-shift formula gives exactly that arithmetic value |
| LevelObjects.ExtendedObjectNumber | callisto/extractables/level.cpp:83-85 | the extended object number is the third byte |
| LevelObjects.Get27_29Size | callisto/extractables/level.cpp:87-111 | the size is 5, 6, 7 or 8, chosen by the top bits of the fourth and third bytes |
| LevelObjects.DetermineSkip | callisto/extractables/level.cpp:39-74 | the walk fails exactly when the bytes an id needs are missing; a screen exit is reported exactly for standard id 0 with extension 0 or 2, taking 4 or 5 bytes; other extended objects take 3, ids 0x22-0x25 take 4, 0x26 and 0x28 take 3, 0x27 and 0x29 take their size byte's length, 0x2D takes 5 and the rest 3 |
| LevelObjects.BeValueOfBytes | callisto/extractables/level.cpp:113-126 | writing n as k big-endian bytes and reading them gives n mod 256^k |
| LevelObjects.WriteBytes | callisto/extractables/level.cpp:113-126 | the k bytes at the offset are replaced and no other byte changes |
| LevelObjects.WrittenReadsBack | callisto/extractables/level.cpp:113-126 | a value that fits k bytes reads back after being written |
| LevelObjects.WriteFourBytes | callisto/extractables/level.cpp:113-118 | only offset..offset+3 change, and they read back big-endian as the value |
| LevelObjects.ReadScreenExit | callisto/extractables/level.cpp:182-209 | a screen exit is read exactly when its bytes are present, splitting off the top bit as the new-screen flag |
| LevelObjects.TopBit | callisto/extractables/level.cpp:182-209 | the new-screen flag is set exactly when the value reaches the top bit |
| LevelObjects.RewriteFourByteExit | callisto/extractables/level.cpp:214-218 | rewriting a four-byte exit keeps the file length |
| LevelObjects.FourByteExitRoundTrip | callisto/extractables/level.cpp:214-218 | a rewritten four-byte exit reads back as the same exit |
| LevelObjects.RewriteFiveByteExitAsWritten | callisto/extractables/level.cpp:220-224 | the five-byte rewrite as written never touches the fifth byte |
| LevelObjects.FiveByteExitCorrupted | callisto/extractables/level.cpp:220-224 | the five-byte exit 00 00 02 00 00 is rewritten as written into bytes that decode as a four-byte exit |
| LevelObjects.RewriteFiveByteExit | callisto/extractables/level.cpp:120-126 | the corrected rewrite changes only the five exit bytes, holding the value with the new-screen flag in the top bit |
| LevelObjects.FiveByteExitRoundTrip | callisto/extractables/level.cpp:120-126 | a five-byte exit rewritten by the corrected rewrite reads back as the same exit |
| GraphicsUtil.CheckNumber | callisto/graphics_util.cpp:203-218 | the number is accepted exactly when its slot exists: a GFX file is two digits below 0x34; an ExGFX file is two digits 0x60-0x63 or from 0x80, or three digits from 0x100 |
| GraphicsUtil.VerifyStemAsWritten | callisto/graphics_util.cpp:182-218 | an accepted stem as written has 2-3 characters after the prefix length, none lower case, and they start a hex parse; the prefix itself is never compared |
| GraphicsUtil.VerifyFilenameAsWritten | callisto/graphics_util.cpp:169-218 | files that are not .bin are never refused |
| GraphicsUtil.AsWrittenAcceptsStandard | callisto/graphics_util.cpp:183-218 | every standard GFX/ExGFX name passes the check as written |
| GraphicsUtil.PrefixNotChecked | callisto/graphics_util.cpp:183-195 | "XYZ10.bin" passes as written although it lacks the GFX prefix |
| GraphicsUtil.TrailingCharacterAccepted | callisto/graphics_util.cpp:197-201 | "GFX10Z.bin" passes as written because the hex parse stops at Z |
| GraphicsUtil.LeadingSpaceAccepted | callisto/graphics_util.cpp:197-201 | "GFX 5.bin" passes as written because the hex parse skips the space |
| GraphicsUtil.VerifyStem | callisto/graphics_util.cpp:169-218 | the corrected check accepts exactly the standard names: prefix, 2-3 uppercase hex digits, an existing slot |
| GraphicsUtil.VerifyFilename | callisto/graphics_util.cpp:169-218 | a file passes exactly when it is not .bin or has a standard name |
| GraphicsUtil.CorrectedNarrowsAsWritten | callisto/graphics_util.cpp:169-218 | everything the corrected check accepts, the check as written accepts too |
| GraphicsUtil.VerifyFilenames | callisto/graphics_util.cpp:163-167 | a folder passes exactly when every file passes the check as written or as corrected; otherwise the first failure is reported |
| GraphicsUtil.FolderCorrectedNarrowsAsWritten | callisto/graphics_util.cpp:163-218 | a folder the corrected check accepts is accepted as written too |
| GraphicsUtil.FolderPrefixNotChecked | callisto/graphics_util.cpp:163-195 | a folder holding XYZ10.bin passes as written and fails the corrected check |
| Numerals.StoiHexOfDigits | callisto/graphics_util.cpp:197-201 | a string of hex digits parses completely to its value |
| Durations.TruncDiv | callisto/time_util.h:11-12 | division truncates toward zero, as C++ integer division does: the remainder a - b*q lies in [0, b) for a non-negative dividend and in (-b, 0] for a negative one, which fixes q |
| Durations.TruncRem | callisto/time_util.h:11-12 | the remainder has the sign of the dividend and completes the truncating division |
| Durations.DurationString | callisto/time_util.h:10-19 | the text always ends with the seconds and "s", and has "Xm " in front exactly when minutes are non-zero |
| Durations.DurationSplit | callisto/time_util.h:11-12 | minutes and seconds recombine into the whole number of seconds |
| Durations.MirroredParts | callisto/time_util.h:11-12 | a negative duration shows the negated parts of its absolute value |
| Durations.MinutesShown | callisto/time_util.h:14-16 | no minutes are shown exactly when the duration is under one minute either way |
| RecentProjects.SameAfterTouch | stardust/stardust/recent_projects/recent_projects_manager.h:23-26 | project equality ignores the access time |
| RecentProjects.NewProject | stardust/stardust/recent_projects/recent_projects_manager.h:37-39 | a new entry is named after the project folder and stamped with the current time |
| RecentProjects.Update | stardust/stardust/recent_projects/recent_projects_manager.h:93-111 | after an update the project is first and the list holds at most nine entries |
| RecentProjects.UpdateIsMoveToFront | stardust/stardust/recent_projects/recent_projects_manager.h:98-107 | an update moves the project to the front, keeps the others in order and truncates to nine |
| RecentProjects.UpdateNoDuplicates | stardust/stardust/recent_projects/recent_projects_manager.h:98-102 | an update never creates a duplicate project |
| RecentProjects.WithoutNoDuplicates | stardust/stardust/recent_projects/recent_projects_manager.h:98-102 | removing a project keeps the list free of duplicates |
| RecentProjects.BringIsMoveToFront | stardust/stardust/recent_projects/recent_projects_manager.h:98-107 | bringing a listed project forward is the same move-to-front |
| RecentProjects.Take | stardust/stardust/recent_projects/recent_projects_manager.h:133-135 | `resize` keeps the first entries: the result is the prefix whose length is the smaller of the list's length and the bound, so the list is left alone when it already fits |
| RecentProjects.RemoveInvalid | stardust/stardust/recent_projects/recent_projects_manager.h:141-147 | exactly the projects whose folder and executable still exist are kept |
| RecentProjects.RemoveInvalidAppend | stardust/stardust/recent_projects/recent_projects_manager.h:141-147 | `erase_if` keeps the order: a list split in two is filtered part by part and the results joined |
| RecentProjects.RemoveInvalidKeepsExisting | stardust/stardust/recent_projects/recent_projects_manager.h:141-147 | a list whose projects all still exist is kept whole |
| RecentProjects.ReloadListAsWritten | stardust/stardust/recent_projects/recent_projects_manager.h:113-139 | reloading as written fails exactly for an unreadable file |
| RecentProjects.ReloadAsWrittenForgets | stardust/stardust/recent_projects/recent_projects_manager.h:113-139 | reloading as written always yields an empty list |
| RecentProjects.ReloadList | stardust/stardust/recent_projects/recent_projects_manager.h:113-139 | the corrected reload keeps, in file order, exactly the existing projects among the first nine listed |
| RecentProjects.ReloadListInFileOrder | stardust/stardust/recent_projects/recent_projects_manager.h:113-147 | a file whose projects all exist reloads as its first nine entries; a file of at most nine entries split in two reloads as the two parts' existing projects one after the other |
| RecentProjects.ReloadLosesListedProject | stardust/stardust/recent_projects/recent_projects_manager.h:113-139 | a listed, existing project is lost as written and kept by the corrected reload |
| RecentProjects.UpdateList | stardust/stardust/recent_projects/recent_projects_manager.h:93-139 | reload-then-update puts the new project first in a list of one to nine entries |
| StringUtils.StrFindAsWritten | stardust/stardust/junction/libntfslinks/source/StringUtils.cpp:34-101 | empty strings, a longer pattern or a start past the end give -1 |
| StringUtils.StrFindForwardAnswer | stardust/stardust/junction/libntfslinks/source/StringUtils.cpp:70-92 | the forward scan as written either gives -1 or the start of a match of its final partial state |
| StringUtils.StrFindAtStart | stardust/stardust/junction/libntfslinks/source/StringUtils.cpp:70-92 | a match right at the start index is found as written |
| StringUtils.PartialMatchReported | stardust/stardust/junction/libntfslinks/source/StringUtils.cpp:72-92 | "bc" is reported at index 1 of "ab", where it does not occur |
| StringUtils.RestartMissesMatch | stardust/stardust/junction/libntfslinks/source/StringUtils.cpp:83-91 | "ab" is not found in "aab" although it occurs at 1 |
| StringUtils.StrFind | stardust/stardust/junction/libntfslinks/source/StringUtils.cpp:34-101 | the corrected search keeps the guards and returns the first match at or after the start (forward) or the last one ending by it (backward), or -1 when none exists |
| StringUtils.AsWrittenAgreesAtStart | stardust/stardust/junction/libntfslinks/source/StringUtils.cpp:34-101 | when the match is at the start index both searches agree |
| StringUtils.Truncate | stardust/stardust/junction/libntfslinks/source/StringUtils.cpp:125-127 | the result fits the MAX_PATH buffer, is a prefix of the input and equals it when it already fits |
| StringUtils.StrReplace | stardust/stardust/junction/libntfslinks/source/StringUtils.cpp:103-136 | empty or overlong source and search are refused; a position from the search as written that runs past the end is refused as a read past the end; a miss copies the source; a hit is a real occurrence and the replacement is spliced in, truncated to MAX_PATH |
| StringUtils.ReplaceMissesAsWritten | stardust/stardust/junction/libntfslinks/source/StringUtils.cpp:103-136 | as written, replacing "ab" in "aab" changes nothing; corrected, it gives "aX" |
| StringUtils.ReplacePastEndAsWritten | stardust/stardust/junction/libntfslinks/source/StringUtils.cpp:103-136 | as written, replacing "bc" in "ab" reads past the end; corrected, it copies the source |
| StringUtils.StrFindBackwardAnswer | stardust/stardust/junction/libntfslinks/source/StringUtils.cpp:34-101 | the backward search as written gives -1 or a real occurrence |
| StringUtils.ReplaceBack | stardust/stardust/junction/libntfslinks/source/StringUtils.cpp:103-136 | replacing back at the same index restores the source |
| Paths.SanitizeForAsar | callisto/path_util.h:43-49 | every `!` becomes `\!` and every `"` becomes `""` |
| Paths.UnescapeSanitized | callisto/path_util.h:43-49 | undoing the escapes restores the original path |
| Paths.ProjectPath | callisto/path_util.h:63-97 | every project file lies under project root/.callisto |
| Paths.ProjectPathsDistinct | callisto/path_util.h:63-97 | different project files get different paths |
| Paths.RelativeLocation | callisto/path_util.h:63-97 | every relative location starts with .callisto |
| Paths.TemporaryRomPath | callisto/path_util.h:108-111 | the temporary ROM sits directly in the temporary folder |
| Paths.TemporaryRomKeepsExtension | callisto/path_util.h:108-111 | the temporary name is the stem plus "_temp", with the same extension |
| Paths.ConvertToPosixPath | callisto/path_util.h:119-127 | on Windows every backslash becomes a slash and nothing else changes; elsewhere the path is unchanged |
| Paths.PosixIdempotent | callisto/path_util.h:119-127 | converting twice is the same as converting once |
| Colors.StyleSlot | callisto/colors.cpp:15-40 | exactly the eight configurable names have a slot, and each slot maps back to its name |
| Colors.ResetStyles | callisto/colors.cpp:42-51 | every configurable style is restored to its default |
| Colors.StringToEmphasis | callisto/colors.cpp:53-61 | only listed emphasis names have a value |
| Colors.EmphasisOfName | callisto/colors.cpp:53-61 | a listed name at index i maps to 1 << i, and unlisted names to none |
| Colors.EmphasisDistinct | callisto/colors.cpp:53-61 | different emphasis names have different bits |
| Colors.GetColor | callisto/colors.cpp:63-72 | a colour is accepted exactly when it is at most 0xFFFFFF |
| Colors.AddFgColor | callisto/colors.cpp:74-76 | a colour is accepted exactly when it fits 24 bits; it becomes the foreground of a style without one and is OR-ed into an existing foreground, as fmt's OR-assignment on styles does; the background and emphasis are left alone |
| Colors.AddFgColorTwice | callisto/colors.cpp:74-76 | adding the same foreground twice is the same as once |
| Colors.AddBgColor | callisto/colors.cpp:78-80 | a colour is accepted exactly when it fits 24 bits; it becomes the background of a style without one and is OR-ed into an existing background; the foreground and emphasis are left alone |
| Colors.AddEmphasis | callisto/colors.cpp:82-92 | an unknown name is refused; a known one ORs in its bit and leaves the colours alone |
| Colors.AddEmphasisRefuses | callisto/colors.cpp:82-92 | refusal happens exactly for names not in the emphasis list |
| Colors.AddEmphasisTwice | callisto/colors.cpp:82-92 | adding the same emphasis twice is the same as once |
| Colors.ResetStyle | callisto/colors.cpp:94-96 | a reset style is the black foreground with no background and no emphasis, whatever the style was: adding black again changes nothing, adding any 24-bit colour makes exactly that colour the foreground, and adding an emphasis leaves exactly that emphasis |
| Release.VersionRoundTrip | build_scripts/build_release.py:12 | the version string `v{major}.{minor}.{patch}` parses back to the version |
| Release.VersionStringInjective | build_scripts/build_release.py:12 | different versions have different strings |
| Release.PackagePathsDistinct | build_scripts/build_release.py:213 | different versions get different package folders |
| Release.CheckUniqueVersion | build_scripts/build_release.py:109-113 | the release is refused exactly when the version string occurs anywhere in the remote tag listing |
| Release.TagNames | build_scripts/build_release.py:116-119 | the tag names are listed in order |
| Release.CheckUniqueTag | build_scripts/build_release.py:109-119 | the corrected gate refuses exactly when some tag equals the version string |
| Release.AsWrittenRefusesEveryReuse | build_scripts/build_release.py:109-119 | the gate as written refuses every version the corrected gate refuses |
| Release.LongerTagRefusesPrefix | build_scripts/build_release.py:109-119 | tag v0.2.40 makes the gate as written refuse v0.2.4, which the corrected gate allows |
| Release.ReleaseRun | build_scripts/build_release.py:188-217 | a used version stops the run before any folder is made; otherwise the package folder is made; an existing package folder is removed as the first action, and nothing else is removed |
| Release.UsedVersionMakesNothing | build_scripts/build_release.py:188-193 | a version already tagged creates no directory |
| Release.SplitextRoot | build_scripts/build_release.py:165 | the page name is a prefix of the file name |
| Release.RootOfMarkdown | build_scripts/build_release.py:160-166 | for a .md file the page name is the file name without ".md" |
| Release.PagesExactly | build_scripts/build_release.py:160-166 | the pages are exactly the .md files not starting with `_`, without their extension |
| Release.Title | build_scripts/build_release.py:170 | the title is the page name with every `-` replaced by a space |
| Release.TitleChars | build_scripts/build_release.py:170 | replacing `-` by a space changes no other character and keeps the length |
| Release.RewriteLinks | build_scripts/build_release.py:144-149 | a link changes only when it exactly names a page, and then gains ".html" |
| Release.LinksReachPages | build_scripts/build_release.py:179-181 | every link to a converted page is rewritten to that page's .html |
| Release.OtherLinksKept | build_scripts/build_release.py:144-149 | links that name no page are left unchanged |
| Release.FragmentCopies | build_scripts/build_release.py:74-81 | each build fragment is copied to its output name, as a single file exactly when its source is a file |
| Release.FragmentTargetsDistinct | build_scripts/build_release.py:32-40 | no two build fragments are copied to the same place |

## Left out

- Terminal UI, command-line plumbing, threads and Lunar Magic IPC: they are interaction and concurrency, not data logic.
- Calls to asar, FLIPS, pandoc and git: each is an external tool. BeautifulSoup parsing, `copy_tree` and `subprocess` in build_release.py are left out for the same reason; links are modelled as a list of optional hrefs.
- Directory walks, file reads and timestamps: they are parameters, namely folder entries, `existing` path sets and `writeTime`. The expansion of a static resource dependency over a directory is the `beneath` parameter. `PathUtil::normalize` is the `Normalizer` parameter.
- The interactive prompts in normalizeMwls that offer to rename or renumber levels: only the checks that decide whether a prompt is needed are modelled.
- The object walk in `Level::normalize`: walking the object list, sorting objects and stripping source addresses are not modelled. The per-object decoders it uses are modelled, and so is the screen-exit rewrite.
- LevelObjects.BytesToInt: shifts of 8 bytes or more are undefined behaviour in C++, so the method requires at most 8 bytes.
- LevelObjects.ReadScreenExit: for a five-byte exit the flag is taken as bit 39, the top bit of the five bytes, matching the `0x8000000000` written back. The source builds the mask as `0x80 << 32` on a 32-bit `int`, which is undefined behaviour in C++; a compiler that masks the shift count would test and clear bit 7 of the fifth byte instead. That reading is not modelled.
- LevelObjects.RewriteFiveByteExitAsWritten: takes the exit as ReadScreenExit gives it, so it shares the bit-39 reading above. The counterexample in FiveByteExitCorrupted has a fifth byte of 0x00, where both readings agree.
- Marker.MarkerOf: the marker's timestamp is the two stored parts put back in place, as intended. The source reads them back as the text of two hex prints; that reading is TextJoinTimestamp (see Findings).
- Marker.NextSyncExtractsAdded: holds for the intended read-back. As written, it holds only when TextJoinExact's condition does; otherwise the timestamps differ and every kind is extracted again.
- Levels.ReadBytesAt: reading past the end of the file returns an unspecified value in the source; in the model it is None.
- Map16Lines.Check8x8Window: the source passes `&x, 1, &y, 1, &p, 1` to plain `sscanf` (to_map16.cpp:460-463). That argument list is the `sscanf_s` convention. For plain `sscanf` each `1` is taken as the destination of the next `%c`, which is undefined behaviour. The model reads the call as `sscanf_s` does: each `%c` stores one character into the preceding variable.
- Map16Lines.ConvertFull: the same `&c, 1` pairs are passed to plain `sscanf` at to_map16.cpp:246-251. They are read as `sscanf_s` reads them, as for Check8x8Window. Suppose the fourth acts-like character is not hex; VerifyActsLikeAsWritten accepts such a line. Then `sscanf` stops before the tile fields, and to_map16.cpp:242-257 converts the uninitialised tile, palette and flag variables. That is undefined behaviour, and the source returns normally. The model does not guess those values: it reports TilesUnassigned instead.
- Map16Lines.ConvertTilesOnly: the same `&c, 1` pairs are passed to plain `sscanf` at to_map16.cpp:559-565. They are read as `sscanf_s` reads them, as for Check8x8Window.
- Map16Header.GetHeaderFromBuffer: a buffer shorter than the fixed header fields is read past its end by the source's `join_bytes` iterators, which is undefined behaviour. The model refuses it with HeaderTruncated instead.
- Map16HeaderText.VerifyHeaderLines: the source throws `std::out_of_range` rather than a HeaderError in two cases. One is an empty header.txt (`lines.at(0)` at to_map16.cpp:109). The other is a comment line that ends right after `comment_field: ` (`.at(0)` on the empty text at to_map16.cpp:168). The model reports WrongLineCount(0) and CommentValueMissing for these; exception types are not distinguished. An empty flag value already fails the `seen_size == 0` check at to_map16.cpp:150-152 before the `.at(0)` at line 156, so that case is a HeaderError in both.
- Map16Lines.Check8x8Window: `sscanf("%X")` would also accept a `0x` prefix; this is not modelled. A field is whitespace, an optional sign, then the longest hex run.
- Colors: the named HTML colour table is not modelled. A style is an optional foreground, an optional background and an emphasis byte; of fmt's style operators only the `|=` used by `addFgColor` is modelled.
- Intervals.OverlapsIffSharedPoint: stated only for non-empty intervals. `overlaps()` is also true for an empty interval that lies strictly inside another.
- Intervals.OverlapsSymmetric: stated only for non-empty intervals, for the same reason.
- Intervals.Overlap: the (0,0) result for disjoint intervals is not stated. The contract says only that the result holds no point.
- Rebuilder.ConflictString: the contract covers the report's header line. The byte rows are covered by LimitedRows and ShortRowsUnlimited.
- The legacy copies of config_variable, marker, quick_builder and configuration under callisto/callisto and stardust are not modelled separately. The one exception is config_variable.h, which holds the only formatUserVariables.

## Findings

| source | as written | input that shows it | evidently intended | confidence | as-written member | corrected member |
|---|---|---|---|---|---|---|
| stardust/stardust/human_map16/to_map16.cpp:386-424 | the acts-like value is built from three hex digits, so the fourth character is never checked and the `> 0x7FFF` guard can never fire | "0000: 8000" passes the check (read as 0x800) and is converted to 0x8000; "0000: 123G" passes and is converted to 0x123 | read all four digits and refuse values above 0x7FFF | not executed | Map16Lines.VerifyActsLikeAsWritten | Map16Lines.VerifyActsLike |
| callisto/human_map16/from_map16.cpp:56-72 | the loop runs `i != size/4` in steps of 2, so an odd number of 32-bit words never terminates | an offset/size table size of 12 | stop when fewer than two words remain | not executed | Map16Layout.GetOffsetSizeTableAsWritten | Map16Layout.GetOffsetSizeTable |
| stardust/stardust/junction/libntfslinks/source/StringUtils.cpp:72-92 | after a partial match the scan neither restarts one past the match start nor rejects a match cut off by the end of the string; StrReplace inherits both | "bc" in "ab" gives 1, so StrReplace reads past the end; "ab" in "aab" gives -1, so StrReplace changes nothing | return the first real occurrence | not executed | StringUtils.StrFindAsWritten | StringUtils.StrFind |
| stardust/stardust/recent_projects/recent_projects_manager.h:113-139 | reloadList iterates the freshly created empty array instead of the parsed one | a list file naming one existing project reloads as empty | keep the existing projects from the file, at most nine | not executed | RecentProjects.ReloadListAsWritten | RecentProjects.ReloadList |
| callisto/builders/rebuilder.cpp:380-393 | the loop bound is `i != size` and the 0x7FDC skip jumps to 0x7FE0, so a size from 0x7FDD to 0x7FDF is stepped over and the loop reads past the ROM | compare size 0x7FDE | stop at `i < size` | not executed | Rebuilder.AsWrittenRunsPastSize | Rebuilder.CorrectedStaysInside |
| callisto/graphics_util.cpp:182-201 | the GFX/ExGFX prefix is never compared, and `stoi` accepts leading spaces and stops at the first non-hex character; verifyGFXFilenames inherits this for the whole folder | "XYZ10.bin", "GFX10Z.bin", "GFX 5.bin" | accept only the prefix followed by 2-3 uppercase hex digits | not executed | GraphicsUtil.VerifyStemAsWritten | GraphicsUtil.VerifyStem |
| callisto/extractables/level.cpp:220-224 | a five-byte screen exit is rewritten with writeFourBytes, so its fifth byte is kept and the value shifts by one byte | the exit bytes 00 00 02 00 00 | write all five bytes of the full 40-bit value, flag included (writeFiveBytes as written takes an unsigned int, so it would lose the top byte too) | not executed | LevelObjects.RewriteFiveByteExitAsWritten | LevelObjects.RewriteFiveByteExit |
| callisto/saver/marker.cpp:121-127 | the two stored timestamp parts are printed with asar's hex(), which drops leading zeros, and the texts are read together as one number | the timestamp 0x65053F10 (September 2023) reads back as 0x6553F10 | read each part separately and put the high part 24 bits up | not executed; assumes asar's hex() prints no leading zeros | Marker.TextJoinTimestamp | Marker.MarkerOf |
| build_scripts/build_release.py:109-119 | `in` is applied to the raw ls-remote text, so any tag that contains the version string as a substring blocks it | tag v0.2.40 blocks v0.2.4 | compare against whole tag names | not executed | Release.CheckUniqueVersion | Release.CheckUniqueTag |
