/**
 * The checks both conversion directions make before any file is written.
 * from_map16 turns a .map16 file into a directory of text files, to_map16
 * turns such a directory back into a .map16 file. What the filesystem
 * reports (whether a path exists, is a directory, what it holds) is passed
 * in as data.
 */
module Map16Convert {
  import opened Wrappers
  import opened Strings
  import opened Map16Header
  import opened Map16HeaderRead
  import opened Map16Layout
  import opened Map16HeaderText
  import opened Paths

  datatype ConvertError =
    | InputMissing
    | NotMap16File
    | OutputDirectoryInUse
    | HeaderUnreadable(readError: ReadError)
    | NotFullGameExport
    | InputNotDirectory
    | HeaderTextInvalid(textError: HeaderTextError)
    | BaseNotZero

  /** An existing input file: its file name and its bytes. */
  datatype MapFile = MapFile(name: string, bytes: seq<bv8>)

  /** What is at the output path. */
  datatype OutputPath = NoOutput | OutputFile | OutputDirectory(entries: seq<string>)

  /** What is at the input path of to_map16; a directory may or may not hold header.txt. */
  datatype InputPath = NoInput | InputFile | InputDirectory(headerText: Option<string>)

  const HeaderFileName: string := "header.txt"
  const Map16Extension: string := ".map16"

  /**
   * The output check of from_map16: a directory that is already there and
   * not empty must hold header.txt, which marks an earlier conversion.
   */
  predicate OutputUsable(output: OutputPath)
  {
    !(output.OutputDirectory? && |output.entries| > 0 && HeaderFileName !in output.entries)
  }

  /**
   * from_map16's convert up to the writing of the text files: the input
   * must exist and be named *.map16, the output must be usable, the header
   * must be readable and the file a full game export. The header is returned.
   */
  function FromMap16Checks(input: Option<MapFile>, output: OutputPath): (r: Result<Header, ConvertError>)
    ensures input.None? ==> r == Failure(InputMissing)
    ensures input.Some? && Extension(input.value.name) != Map16Extension ==> r == Failure(NotMap16File)
    ensures input.Some? && Extension(input.value.name) == Map16Extension && !OutputUsable(output) ==> r == Failure(OutputDirectoryInUse)
    ensures r.Success? <==>
      input.Some? && Extension(input.value.name) == Map16Extension && OutputUsable(output) &&
      GetHeaderFromBuffer(input.value.bytes).Success? && IsFullGameExport(GetHeaderFromBuffer(input.value.bytes).value)
    ensures r.Success? ==> r.value == GetHeaderFromBuffer(input.value.bytes).value
  {
    if input.None? then Failure(InputMissing)
    else if Extension(input.value.name) != Map16Extension then Failure(NotMap16File)
    else if !OutputUsable(output) then Failure(OutputDirectoryInUse)
    else match GetHeaderFromBuffer(input.value.bytes)
      case Failure(e) => Failure(HeaderUnreadable(e))
      case Success(h) => if !IsFullGameExport(h) then Failure(NotFullGameExport) else Success(h)
  }

  /** A directory left by an earlier conversion, or an empty one, may be converted into again. */
  lemma EarlierOutputUsable(entries: seq<string>)
    requires |entries| == 0 || HeaderFileName in entries
    ensures OutputUsable(OutputDirectory(entries))
  {
  }

  /**
   * A .map16 file that to_map16 assembled from a header and its blocks
   * passes from_map16's checks, into a fresh output path, exactly when the
   * header says it is a full game export.
   */
  lemma FromMap16OfAssembledFile(stem: string, h: Header, b: Blocks)
    requires |stem| > 0
    requires CommentFieldOffset + |h.comment| < U32
    ensures FromMap16Checks(Some(MapFile(stem + Map16Extension, Map16File(h, b))), NoOutput).Success?
      <==> IsFullGameExport(h)
  {
    hide *;
    Map16Named(stem);
    FreshOutputUsable();
    AssembledHeaderReads(h, b);
  }

  lemma Map16Named(stem: string)
    requires |stem| > 0
    ensures Extension(stem + Map16Extension) == Map16Extension
  {
    assert Map16Extension == "." + "map16";
    ExtensionOfStem(stem, "map16");
    assert stem + Map16Extension == stem + "." + "map16";
  }

  lemma FreshOutputUsable()
    ensures OutputUsable(NoOutput)
  {
  }

  /** The header of an assembled file reads back with the same full-export flag. */
  lemma AssembledHeaderReads(h: Header, b: Blocks)
    requires CommentFieldOffset + |h.comment| < U32
    ensures GetHeaderFromBuffer(Map16File(h, b)).Success?
    ensures IsFullGameExport(GetHeaderFromBuffer(Map16File(h, b)).value) <==> IsFullGameExport(h)
  {
    var rest := FileParts(h, b);
    HeaderRoundTrip(h, rest);
  }

  /**
   * to_map16's convert up to the reading of the page files: the input must
   * be an existing directory whose header.txt verifies, the header must be a
   * full game export and its base position must be zero.
   */
  function ToMap16Checks(input: InputPath): (r: Result<Header, ConvertError>)
    ensures input.NoInput? ==> r == Failure(InputMissing)
    ensures input.InputFile? ==> r == Failure(InputNotDirectory)
    ensures r.Success? <==>
      input.InputDirectory? && ParseHeaderFile(input.headerText).Success? &&
      IsFullGameExport(ParseHeaderFile(input.headerText).value) &&
      ParseHeaderFile(input.headerText).value.baseX == 0 && ParseHeaderFile(input.headerText).value.baseY == 0
    ensures r.Success? ==> r.value == ParseHeaderFile(input.headerText).value
  {
    match input
    case NoInput => Failure(InputMissing)
    case InputFile => Failure(InputNotDirectory)
    case InputDirectory(text) =>
      match ParseHeaderFile(text)
      case Failure(e) => Failure(HeaderTextInvalid(e))
      case Success(h) =>
        if !IsFullGameExport(h) then Failure(NotFullGameExport)
        else if h.baseX != 0 || h.baseY != 0 then Failure(BaseNotZero)
        else Success(h)
  }

  /**
   * The header.txt from_map16 writes for a header it accepted is accepted by
   * to_map16 when the base position is zero, and rejected with BaseNotZero
   * otherwise; either way its header reads back.
   */
  lemma ToMap16OfWrittenHeader(h: Header)
    requires IsFullGameExport(h)
    requires ShortFieldsFit(h) && PlainComment(CutAtNul(h.comment))
    ensures var r := ToMap16Checks(InputDirectory(Some(WriteHeaderText(h))));
      (r.Success? <==> h.baseX == 0 && h.baseY == 0) &&
      (r.Failure? ==> r.error == BaseNotZero) &&
      (r.Success? ==> TextReadsBackAs(r.value, h))
  {
    hide *;
    var text := Some(WriteHeaderText(h));
    HeaderTextRoundTrip(h);
    var g := ParseHeaderFile(text).value;
    BaseOfReadBack(g, h);
    ChecksOfFullExport(text, g);
  }

  /** A header.txt that parses as a full game export fails to_map16's checks only on its base position. */
  lemma ChecksOfFullExport(text: Option<string>, g: Header)
    requires ParseHeaderFile(text) == Success(g) && IsFullGameExport(g)
    ensures ToMap16Checks(InputDirectory(text)).Failure? ==> ToMap16Checks(InputDirectory(text)).error == BaseNotZero
  {
  }

  lemma BaseOfReadBack(g: Header, h: Header)
    requires TextReadsBackAs(g, h)
    ensures g.baseX == h.baseX && g.baseY == h.baseY
    ensures IsFullGameExport(g) <==> IsFullGameExport(h)
  {
    assert NumberField(g, 6) == NumberField(h, 6);
    assert NumberField(g, 7) == NumberField(h, 7);
  }
}
