/**
 * User variables in configuration strings: "{name}" is replaced by the
 * variable's value, "{{" and "}}" stand for literal braces, and anything
 * else is copied. The text is read left to right once; a usage that is not
 * closed, a brace inside a usage, a lone '}' and an unknown name are errors.
 */
module UserVariables {
  import opened Wrappers
  import opened Strings

  datatype FormatError =
    | UnclosedUsage
    | BraceInUsage
    | NestedUsage
    | UnknownVariable(name: string)
    | InvalidClosingBrace

  /** The value of `rest`, after `prefix` has been written out. */
  function Prepend(prefix: string, rest: Result<string, FormatError>): (r: Result<string, FormatError>)
    ensures r.Success? <==> rest.Success?
    ensures r.Success? ==> r.value == prefix + rest.value
    ensures r.Failure? ==> r.error == rest.error
  {
    match rest
    case Success(t) => Success(prefix + t)
    case Failure(e) => Failure(e)
  }

  /**
   * The scan from some point on. `usage` holds the name read so far while
   * inside "{...}", and is None outside one.
   */
  function Scan(s: string, usage: Option<string>, vars: map<string, string>): (r: Result<string, FormatError>)
    decreases |s|
  {
    if |s| == 0 then
      if usage.Some? then Failure(UnclosedUsage) else Success("")
    else if s[0] == '{' then
      if |s| == 1 then Failure(UnclosedUsage)
      else if s[1] == '{' then
        if usage.Some? then Failure(BraceInUsage) else Prepend("{", Scan(s[2..], None, vars))
      else if usage.Some? then Failure(NestedUsage)
      else Scan(s[1..], Some(""), vars)
    else if s[0] == '}' then
      if usage.Some? then
        if usage.value !in vars then Failure(UnknownVariable(usage.value))
        else Prepend(vars[usage.value], Scan(s[1..], None, vars))
      else if |s| > 1 && s[1] == '}' then Prepend("}", Scan(s[2..], None, vars))
      else Failure(InvalidClosingBrace)
    else if usage.Some? then Scan(s[1..], Some(usage.value + [s[0]]), vars)
    else Prepend([s[0]], Scan(s[1..], None, vars))
  }

  /** formatUserVariables. */
  function FormatUserVariables(s: string, vars: map<string, string>): Result<string, FormatError>
  {
    Scan(s, None, vars)
  }

  /** Text without braces. */
  predicate BraceFree(s: string)
  {
    Lacks(s, '{') && Lacks(s, '}')
  }

  /** A string with no braces is its own formatting. */
  lemma {:induction false} NoBracesUnchanged(s: string, vars: map<string, string>)
    requires BraceFree(s)
    ensures FormatUserVariables(s, vars) == Success(s)
  {
    if |s| > 0 {
      NoBracesUnchanged(s[1..], vars);
      assert s == [s[0]] + s[1..];
    }
  }

  /** What a configuration string means: literal characters and variable usages. */
  datatype Piece = Literal(c: char) | Usage(name: string)

  /** How one piece is written down: a brace doubled, a usage in braces. */
  function PrintPiece(p: Piece): string
  {
    match p
    case Literal(c) => if c == '{' || c == '}' then [c, c] else [c]
    case Usage(n) => "{" + n + "}"
  }

  /** The string that writes a template down. */
  function Print(t: seq<Piece>): string
  {
    if |t| == 0 then "" else PrintPiece(t[0]) + Print(t[1..])
  }

  /** The text a template stands for, or the first unknown name it uses. */
  function Render(t: seq<Piece>, vars: map<string, string>): (r: Result<string, FormatError>)
  {
    if |t| == 0 then Success("")
    else match t[0]
      case Literal(c) => Prepend([c], Render(t[1..], vars))
      case Usage(n) => if n in vars then Prepend(vars[n], Render(t[1..], vars)) else Failure(UnknownVariable(n))
  }

  /** Every usage names a variable without braces. */
  predicate WellFormed(t: seq<Piece>)
  {
    forall k :: 0 <= k < |t| && t[k].Usage? ==> BraceFree(t[k].name)
  }

  /** Reading the characters of a name inside a usage only collects them. */
  lemma {:induction false} ScanName(name: string, rest: string, acc: string, vars: map<string, string>)
    requires BraceFree(name)
    ensures Scan(name + rest, Some(acc), vars) == Scan(rest, Some(acc + name), vars)
  {
    if |name| > 0 {
      assert name[0] != '{' && name[0] != '}';
      assert BraceFree(name[1..]) by {
        forall k | 0 <= k < |name[1..]| ensures name[1..][k] != '{' && name[1..][k] != '}' {
          assert name[1..][k] == name[k + 1];
        }
      }
      assert (name + rest)[0] == name[0];
      assert (name + rest)[1..] == name[1..] + rest;
      assert Scan(name + rest, Some(acc), vars) == Scan(name[1..] + rest, Some(acc + [name[0]]), vars);
      ScanName(name[1..], rest, acc + [name[0]], vars);
      assert acc + [name[0]] + name[1..] == acc + name;
    } else {
      assert name + rest == rest && acc + name == acc;
    }
  }

  /** Scanning one printed piece from outside a usage yields that piece's text. */
  lemma ScanPrintedPiece(p: Piece, rest: string, vars: map<string, string>)
    requires p.Usage? ==> BraceFree(p.name)
    ensures p.Literal? ==> Scan(PrintPiece(p) + rest, None, vars) == Prepend([p.c], Scan(rest, None, vars))
    ensures p.Usage? && p.name in vars ==>
      Scan(PrintPiece(p) + rest, None, vars) == Prepend(vars[p.name], Scan(rest, None, vars))
    ensures p.Usage? && p.name !in vars ==> Scan(PrintPiece(p) + rest, None, vars) == Failure(UnknownVariable(p.name))
  {
    var s := PrintPiece(p) + rest;
    match p
    case Literal(c) =>
      if c == '{' || c == '}' {
        assert s == [c, c] + rest;
        assert s[2..] == rest;
      } else {
        assert s == [c] + rest;
        assert s[1..] == rest;
      }
    case Usage(n) =>
      assert s == "{" + (n + ("}" + rest));
      assert s[1..] == n + ("}" + rest);
      if |n| > 0 {
        assert s[1] == n[0];
      } else {
        assert s[1] == '}';
      }
      ScanName(n, "}" + rest, "", vars);
      assert "" + n == n;
      assert ("}" + rest)[1..] == rest;
  }

  /** Formatting the printed form of a template renders it: printing is the parser's inverse. */
  lemma {:induction false} FormatPrinted(t: seq<Piece>, vars: map<string, string>)
    requires WellFormed(t)
    ensures FormatUserVariables(Print(t), vars) == Render(t, vars)
  {
    if |t| > 0 {
      assert WellFormed(t[1..]) by {
        forall k | 0 <= k < |t[1..]| && t[1..][k].Usage?
          ensures BraceFree(t[1..][k].name)
        {
          assert t[1..][k] == t[k + 1];
        }
      }
      FormatPrinted(t[1..], vars);
      ScanPrintedPiece(t[0], Print(t[1..]), vars);
    }
  }

  /** A usage whose brace is never closed is refused. */
  lemma {:induction false} UnclosedRefused(name: string, vars: map<string, string>)
    requires BraceFree(name)
    ensures FormatUserVariables("{" + name, vars) == Failure(UnclosedUsage)
  {
    if |name| == 0 {
      assert "{" + name == "{";
    } else {
      var s := "{" + name;
      assert s[1] == name[0] && s[1..] == name + "";
      ScanName(name, "", "", vars);
    }
  }

  /** A '}' that neither closes a usage nor is doubled is refused. */
  lemma LoneClosingRefused(rest: string, vars: map<string, string>)
    requires |rest| == 0 || rest[0] != '}'
    ensures FormatUserVariables("}" + rest, vars) == Failure(InvalidClosingBrace)
  {
    var s := "}" + rest;
    assert s[0] == '}';
    assert |s| > 1 ==> s[1] == rest[0];
  }

  /** A usage opened inside another usage is refused. */
  lemma NestedRefused(a: string, b: string, rest: string, vars: map<string, string>)
    requires BraceFree(a) && |a| > 0 && |b| > 0 && b[0] != '{'
    ensures FormatUserVariables("{" + a + "{" + b + rest, vars) == Failure(NestedUsage)
  {
    var s := "{" + a + "{" + b + rest;
    var tail := "{" + b + rest;
    assert s == "{" + (a + tail);
    assert s[1..] == a + tail;
    assert s[1] == a[0];
    ScanName(a, tail, "", vars);
    assert tail[0] == '{' && tail[1] == b[0];
  }

  /** A doubled brace inside a usage is refused. */
  lemma BraceInUsageRefused(a: string, rest: string, vars: map<string, string>)
    requires BraceFree(a) && |a| > 0
    ensures FormatUserVariables("{" + a + "{{" + rest, vars) == Failure(BraceInUsage)
  {
    var s := "{" + a + "{{" + rest;
    var tail := "{{" + rest;
    assert s == "{" + (a + tail);
    assert s[1..] == a + tail;
    assert s[1] == a[0];
    ScanName(a, tail, "", vars);
    assert tail[0] == '{' && tail[1] == '{';
  }
}
