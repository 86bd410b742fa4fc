/**
 * Terminal colours and emphasis for the configurable message styles. A
 * style is a foreground colour, a background colour (each 24-bit RGB or
 * unset) and a set of emphasis bits; combining two styles follows fmt's
 * text_style |=: an unset colour takes the other's, two set colours are
 * OR-ed together, and the emphasis bits are OR-ed.
 */
module Colors {
  import opened Wrappers

  datatype TextStyle = TextStyle(fg: Option<bv32>, bg: Option<bv32>, emphasis: bv8)

  datatype ColorError = InvalidRgb(rgb: bv32) | UnknownEmphasis(name: string)

  /** The style names a configuration may colour, in the order of the style slots. */
  const ConfigurableColors: seq<string> :=
    ["action_start", "resource", "success", "partial_success", "notification", "exception", "warning", "callisto"]

  /** The emphasis names; the name at index i stands for bit i. */
  const EmphasisNames: seq<string> :=
    ["bold", "faint", "italic", "underline", "blink", "reverse", "conceal", "strikethrough"]

  const Bold: bv8 := 1

  function Foreground(rgb: bv32): TextStyle { TextStyle(Some(rgb), None, 0) }

  /** The style each slot starts with and returns to on reset. */
  const DefaultStyles: seq<TextStyle> := [
    TextStyle(Some(0x7BADE2), None, Bold),
    Foreground(0xC384D7),
    TextStyle(Some(0x26CEAA), None, Bold),
    Foreground(0x9AE8C1),
    Foreground(0xFF9856),
    Foreground(0xA50162),
    Foreground(0xEF7427),
    Foreground(0xA359BB)
  ]

  /** The first index of x in xs. */
  function IndexOf(xs: seq<string>, x: string): (r: Option<nat>)
    ensures r.Some? ==> r.value < |xs| && xs[r.value] == x && forall j :: 0 <= j < r.value ==> xs[j] != x
    ensures r.None? <==> x !in xs
  {
    if |xs| == 0 then None
    else if xs[0] == x then Some(0)
    else match IndexOf(xs[1..], x)
      case None => None
      case Some(k) => Some(k + 1)
  }

  /**
   * configurableColorStringToStyle: the slot of a style name. The source
   * has no return for a name outside the list; here that is None.
   */
  function StyleSlot(name: string): (r: Option<nat>)
    ensures r.Some? <==> name in ConfigurableColors
    ensures r.Some? ==> r.value < 8 && ConfigurableColors[r.value] == name
  {
    IndexOf(ConfigurableColors, name)
  }

  /** resetStyles: every slot goes back to its default. */
  function ResetStyles(styles: seq<TextStyle>): (r: seq<TextStyle>)
    ensures |r| == |ConfigurableColors|
    ensures forall name :: name in ConfigurableColors ==> StyleSlot(name).Some? && r[StyleSlot(name).value] == DefaultStyles[StyleSlot(name).value]
  {
    DefaultStyles
  }

  /** The emphasis value 1 << i. */
  function EmphasisBit(i: nat): (b: bv8)
    requires i < 8
  {
    if i == 0 then 1 else if i == 1 then 2 else if i == 2 then 4 else if i == 3 then 8
    else if i == 4 then 0x10 else if i == 5 then 0x20 else if i == 6 then 0x40 else 0x80
  }

  lemma EmphasisBitIsShift(i: nat)
    requires i < 8
    ensures EmphasisBit(i) == (1 as bv8) << i
  {
  }

  /** The position of a name in the emphasis list, found front to back as std::find does. */
  function EmphasisIndex(name: string): (r: Option<nat>)
    ensures r.Some? ==> r.value < 8 && EmphasisNames[r.value] == name
  {
    if name == "bold" then Some(0) else if name == "faint" then Some(1)
    else if name == "italic" then Some(2) else if name == "underline" then Some(3)
    else if name == "blink" then Some(4) else if name == "reverse" then Some(5)
    else if name == "conceal" then Some(6) else if name == "strikethrough" then Some(7)
    else None
  }

  /** Every listed name is found, at its own index. */
  lemma EmphasisIndexOfName(i: nat)
    requires i < 8
    ensures EmphasisIndex(EmphasisNames[i]) == Some(i)
  {
    var n := EmphasisNames[i];
    if i == 0 { assert n == "bold"; }
    else if i == 1 { assert n == "faint"; }
    else if i == 2 { assert n == "italic"; }
    else if i == 3 { assert n == "underline"; }
    else if i == 4 { assert n == "blink"; }
    else if i == 5 { assert n == "reverse"; }
    else if i == 6 { assert n == "conceal"; }
    else { assert n == "strikethrough"; }
  }

  /** stringToEmphasis: 1 << index for a listed name, nothing for any other. */
  function StringToEmphasis(name: string): (r: Option<bv8>)
    ensures r.Some? <==> EmphasisIndex(name).Some?
    ensures r.Some? ==> EmphasisNames[EmphasisIndex(name).value] == name
  {
    match EmphasisIndex(name)
    case None => None
    case Some(i) => Some(EmphasisBit(i))
  }

  /** A name yields an emphasis exactly when it is listed; the i-th name yields bit i. */
  lemma EmphasisOfName(name: string)
    ensures StringToEmphasis(name).Some? <==> name in EmphasisNames
    ensures forall i :: 0 <= i < 8 && EmphasisNames[i] == name ==> StringToEmphasis(name) == Some((1 as bv8) << i)
  {
    if name in EmphasisNames {
      var i :| 0 <= i < 8 && EmphasisNames[i] == name;
      EmphasisIndexOfName(i);
      EmphasisBitIsShift(i);
    }
  }

  /** Distinct emphasis names give distinct bits. */
  lemma EmphasisDistinct(i: nat, j: nat)
    requires i < 8 && j < 8 && i != j
    ensures StringToEmphasis(EmphasisNames[i]) != StringToEmphasis(EmphasisNames[j])
  {
    EmphasisIndexOfName(i);
    EmphasisIndexOfName(j);
  }

  /** getColor: a value above 0xFFFFFF is not an RGB colour. */
  function GetColor(rgb: bv32): (r: Result<bv32, ColorError>)
    ensures r.Success? <==> rgb <= 0xFF_FFFF
    ensures r.Success? ==> r.value == rgb
    ensures r.Failure? ==> r.error == InvalidRgb(rgb)
  {
    if rgb > 0xFF_FFFF then Failure(InvalidRgb(rgb)) else Success(rgb)
  }

  function CombineColor(a: Option<bv32>, b: Option<bv32>): Option<bv32>
  {
    if a.None? then b else if b.None? then a else Some(a.value | b.value)
  }

  /** text_style |= text_style. */
  function Combine(s: TextStyle, t: TextStyle): TextStyle
  {
    TextStyle(CombineColor(s.fg, t.fg), CombineColor(s.bg, t.bg), s.emphasis | t.emphasis)
  }

  /** addFgColor: the style gains a foreground colour, or the colour is refused. */
  function AddFgColor(style: TextStyle, rgb: bv32): (r: Result<TextStyle, ColorError>)
    ensures r.Success? <==> rgb <= 0xFF_FFFF
    ensures r.Success? ==> r.value.bg == style.bg && r.value.emphasis == style.emphasis
    ensures r.Success? && style.fg.None? ==> r.value.fg == Some(rgb)
    ensures r.Success? && style.fg.Some? ==> r.value.fg == Some(style.fg.value | rgb)
  {
    match GetColor(rgb)
    case Failure(e) => Failure(e)
    case Success(c) => Success(Combine(style, TextStyle(Some(c), None, 0)))
  }

  /** addBgColor: the style gains a background colour, or the colour is refused. */
  function AddBgColor(style: TextStyle, rgb: bv32): (r: Result<TextStyle, ColorError>)
    ensures r.Success? <==> rgb <= 0xFF_FFFF
    ensures r.Success? ==> r.value.fg == style.fg && r.value.emphasis == style.emphasis
    ensures r.Success? && style.bg.None? ==> r.value.bg == Some(rgb)
    ensures r.Success? && style.bg.Some? ==> r.value.bg == Some(style.bg.value | rgb)
  {
    match GetColor(rgb)
    case Failure(e) => Failure(e)
    case Success(c) => Success(Combine(style, TextStyle(None, Some(c), 0)))
  }

  /** addEmphasis: the named emphasis bit is set, or the name is refused. */
  function AddEmphasis(style: TextStyle, name: string): (r: Result<TextStyle, ColorError>)
    ensures r.Failure? <==> StringToEmphasis(name).None?
    ensures r.Failure? ==> r.error == UnknownEmphasis(name)
    ensures r.Success? ==> r.value.fg == style.fg && r.value.bg == style.bg
    ensures r.Success? ==> r.value.emphasis == style.emphasis | StringToEmphasis(name).value
  {
    match StringToEmphasis(name)
    case None => Failure(UnknownEmphasis(name))
    case Some(e) => Success(Combine(style, TextStyle(None, None, e)))
  }

  /** addEmphasis refuses exactly the names outside the list. */
  lemma AddEmphasisRefuses(style: TextStyle, name: string)
    ensures AddEmphasis(style, name).Failure? <==> name !in EmphasisNames
  {
    EmphasisOfName(name);
  }

  /** Adding the same emphasis twice changes nothing the second time. */
  lemma AddEmphasisTwice(style: TextStyle, name: string)
    requires AddEmphasis(style, name).Success?
    ensures AddEmphasis(AddEmphasis(style, name).value, name) == AddEmphasis(style, name)
  {
    var e := StringToEmphasis(name).value;
    assert (style.emphasis | e) | e == style.emphasis | e;
  }

  /** Adding the same foreground colour twice changes nothing the second time. */
  lemma AddFgColorTwice(style: TextStyle, rgb: bv32)
    requires AddFgColor(style, rgb).Success?
    ensures AddFgColor(AddFgColor(style, rgb).value, rgb) == AddFgColor(style, rgb)
  {
    if style.fg.Some? {
      assert (style.fg.value | rgb) | rgb == style.fg.value | rgb;
    }
  }

  /** resetStyle: black foreground, no background, no emphasis. */
  function ResetStyle(style: TextStyle): (r: TextStyle)
    ensures r.fg == Some(0) && r.bg.None? && r.emphasis == 0
    ensures AddFgColor(r, 0).Success? && AddFgColor(r, 0).value == r
    ensures forall rgb: bv32 :: rgb <= 0xFF_FFFF ==> AddFgColor(r, rgb).Success? && AddFgColor(r, rgb).value.fg == Some(rgb)
    ensures forall name :: StringToEmphasis(name).Some? ==> AddEmphasis(r, name).value.emphasis == StringToEmphasis(name).value
  {
    Foreground(0)
  }
}
