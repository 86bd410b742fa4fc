/**
 * Configuration variables. A variable is found in a TOML table under a path
 * of keys and may be set once per configuration level (user-wide settings,
 * a project, a profile, ...); reading it gives the value of the highest
 * level set, except for path lists, which concatenate the lists of all
 * levels from the lowest up. Levels are numbered from 0, lowest first.
 * Looking the keys up in the table is left to the caller: the value found
 * there, if any, is passed in.
 */
module ConfigVariables {
  import opened Wrappers
  import opened Strings
  import opened UserVariables

  type Level = nat

  datatype ConfigError =
    | NotSpecified(variable: string)
    | SpecifiedTwice(variable: string)
    | Unformattable(variable: string, cause: FormatError)
    | MissingPath
    | UnknownPolicy(policy: string)

  datatype ConfigVariable<V> = ConfigVariable(keys: seq<string>, values: map<Level, V>)

  /** The variable's name: its keys joined by '.', skipping the join while the name is still empty. */
  function Name(keys: seq<string>): (name: string)
  {
    if |keys| == 0 then ""
    else
      var init := Name(keys[..|keys| - 1]);
      if |init| == 0 then keys[|keys| - 1] else init + "." + keys[|keys| - 1]
  }

  /** The parts of s between the '.' characters. */
  function SplitDots(s: string): (parts: seq<string>)
    ensures |parts| >= 1
    decreases |s|
  {
    if Lacks(s, '.') then [s]
    else
      var k := LastDot(s);
      SplitDots(s[..k]) + [s[k + 1..]]
  }

  /** The index of the last '.' in s. */
  function LastDot(s: string): (k: nat)
    requires !Lacks(s, '.')
    ensures k < |s| && s[k] == '.' && Lacks(s[k + 1..], '.')
  {
    if s[|s| - 1] == '.' then |s| - 1
    else
      assert !Lacks(s[..|s| - 1], '.') by {
        var j :| 0 <= j < |s| && s[j] == '.';
        assert s[..|s| - 1][j] == '.';
      }
      var k := LastDot(s[..|s| - 1]);
      assert s[k + 1..] == s[..|s| - 1][k + 1..] + [s[|s| - 1]];
      k
  }

  /** Keys that are non-empty and free of dots. */
  predicate PlainKeys(keys: seq<string>)
  {
    forall i :: 0 <= i < |keys| ==> |keys[i]| > 0 && Lacks(keys[i], '.')
  }

  /** For non-empty keys without dots, the name splits back into the keys. */
  lemma {:induction false} NameSplits(keys: seq<string>)
    requires |keys| >= 1 && PlainKeys(keys)
    ensures SplitDots(Name(keys)) == keys
  {
    var init, last := keys[..|keys| - 1], keys[|keys| - 1];
    if |init| == 0 {
      NameOfOne(keys);
    } else {
      hide *;
      PlainInit(keys);
      NameSplits(init);
      NameOfMore(keys);
      SplitOfLastPart(Name(init), last);
      assert keys == init + [last];
    }
  }

  /** One key is its own name and splits back into itself. */
  lemma NameOfOne(keys: seq<string>)
    requires |keys| == 1 && PlainKeys(keys)
    ensures SplitDots(Name(keys)) == keys
  {
    assert Name(keys[..0]) == "";
    assert Name(keys) == keys[0];
  }

  lemma PlainInit(keys: seq<string>)
    requires |keys| >= 1 && PlainKeys(keys)
    ensures PlainKeys(keys[..|keys| - 1]) && |keys[|keys| - 1]| > 0 && Lacks(keys[|keys| - 1], '.')
  {
    var init := keys[..|keys| - 1];
    forall i | 0 <= i < |init| ensures |init[i]| > 0 && Lacks(init[i], '.') {
      assert init[i] == keys[i];
    }
  }

  /** The name of two or more keys is the name of all but the last, a '.', then the last. */
  lemma NameOfMore(keys: seq<string>)
    requires |keys| >= 2 && PlainKeys(keys)
    ensures Name(keys) == Name(keys[..|keys| - 1]) + "." + keys[|keys| - 1]
  {
    PlainInit(keys);
    NameNonEmpty(keys[..|keys| - 1]);
  }

  /** Splitting p + "." + last, with no '.' in last, splits p and appends last. */
  lemma SplitOfLastPart(p: string, last: string)
    requires Lacks(last, '.')
    ensures SplitDots(p + "." + last) == SplitDots(p) + [last]
  {
    var name := p + "." + last;
    assert name[|p|] == '.';
    assert !Lacks(name, '.');
    assert name[|p| + 1..] == last;
    LastDotIs(name, |p|);
    assert name[..|p|] == p;
  }

  lemma NameNonEmpty(keys: seq<string>)
    requires |keys| >= 1 && PlainKeys(keys)
    ensures |Name(keys)| > 0
  {
    assert |keys[|keys| - 1]| > 0;
  }

  /** The last '.' is the one with no '.' after it. */
  lemma LastDotIs(s: string, k: nat)
    requires k < |s| && s[k] == '.' && Lacks(s[k + 1..], '.')
    ensures LastDot(s) == k
  {
  }

  /** isSet. */
  predicate IsSet<V>(v: ConfigVariable<V>)
  {
    |v.values| > 0
  }

  /** The highest level at which the variable is set. */
  function TopLevel<V>(values: map<Level, V>): (top: Level)
    requires |values| > 0
    ensures top in values && forall l :: l in values ==> l <= top
  {
    MaxExists(values.Keys);
    var top :| IsTop(top, values.Keys);
    top
  }

  /** top is in levels and no level of levels is above it. */
  predicate IsTop(top: Level, levels: set<Level>)
  {
    top in levels && forall l :: l in levels ==> l <= top
  }

  /** A non-empty finite set of levels has a largest element. */
  lemma {:induction false} MaxExists(levels: set<Level>)
    requires |levels| > 0
    ensures exists top :: IsTop(top, levels)
    decreases |levels|
  {
    var x :| x in levels;
    var rest := levels - {x};
    if |rest| == 0 {
      TopOfSingle(x, levels);
    } else {
      MaxExists(rest);
      var t :| IsTop(t, rest);
      TopOfAdded(t, x, rest, levels);
    }
  }

  lemma TopOfSingle(x: Level, levels: set<Level>)
    requires x in levels && |levels - {x}| == 0
    ensures IsTop(x, levels)
  {
    assert levels - {x} == {};
    forall l | l in levels ensures l <= x {
      assert l == x || l in levels - {x};
    }
  }

  /** Adding a level to a set with a top gives the larger of the two as top. */
  lemma TopOfAdded(t: Level, x: Level, rest: set<Level>, levels: set<Level>)
    requires IsTop(t, rest) && rest == levels - {x} && x in levels
    ensures IsTop(if t < x then x else t, levels)
  {
    forall l | l in levels ensures l <= (if t < x then x else t) {
      if l != x {
        assert l in rest;
      }
    }
  }

  /** getOrThrow: the value set at the highest level, or an error when none is set. */
  function GetOrThrow<V>(v: ConfigVariable<V>): (r: Result<V, ConfigError>)
    ensures r.Success? <==> IsSet(v)
    ensures r.Failure? ==> r.error == NotSpecified(Name(v.keys))
    ensures r.Success? ==> exists l :: l in v.values && r.value == v.values[l] && forall k :: k in v.values ==> k <= l
  {
    if |v.values| == 0 then Failure(NotSpecified(Name(v.keys))) else Success(v.values[TopLevel(v.values)])
  }

  /** getOrDefault. */
  function GetOrDefault<V>(v: ConfigVariable<V>, default: V): (r: V)
    ensures !IsSet(v) ==> r == default
    ensures IsSet(v) ==> r == GetOrThrow(v).value
  {
    match GetOrThrow(v)
    case Success(x) => x
    case Failure(_) => default
  }

  /** checkNotSet: a level may be set only once. */
  function CheckNotSet<V>(v: ConfigVariable<V>, level: Level): (r: Result<(), ConfigError>)
    ensures r.Success? <==> level !in v.values
    ensures r.Failure? ==> r.error == SpecifiedTwice(Name(v.keys))
  {
    if level in v.values then Failure(SpecifiedTwice(Name(v.keys))) else Success(())
  }

  /**
   * The shared shape of trySet: nothing found leaves the variable as it was
   * and answers false; a value found at an already set level is an error;
   * otherwise the converted value is stored at the level.
   */
  function Store<V>(v: ConfigVariable<V>, level: Level, found: bool, converted: Result<V, ConfigError>): (r: Result<(bool, ConfigVariable<V>), ConfigError>)
    ensures !found ==> r == Success((false, v))
    ensures found && level in v.values ==> r == Failure(SpecifiedTwice(Name(v.keys)))
    ensures found && level !in v.values && converted.Failure? ==> r == Failure(converted.error)
    ensures found && level !in v.values && converted.Success? ==>
      r == Success((true, v.(values := v.values[level := converted.value])))
  {
    if !found then Success((false, v))
    else if level in v.values then Failure(SpecifiedTwice(Name(v.keys)))
    else match converted
      case Failure(e) => Failure(e)
      case Success(x) => Success((true, v.(values := v.values[level := x])))
  }

  /** A formatted string, with the error attributed to the variable. */
  function Formatted(name: string, s: string, vars: map<string, string>): (r: Result<string, ConfigError>)
    ensures r.Success? <==> FormatUserVariables(s, vars).Success?
    ensures r.Success? ==> r.value == FormatUserVariables(s, vars).value
  {
    match FormatUserVariables(s, vars)
    case Success(t) => Success(t)
    case Failure(e) => Failure(Unformattable(name, e))
  }

  /** StringConfigVariable::trySet. */
  function TrySetString(v: ConfigVariable<string>, found: Option<string>, level: Level, vars: map<string, string>)
    : (r: Result<(bool, ConfigVariable<string>), ConfigError>)
    ensures found.None? ==> r == Success((false, v))
    ensures found.Some? && level in v.values ==> r == Failure(SpecifiedTwice(Name(v.keys)))
    ensures found.Some? && level !in v.values ==>
      match FormatUserVariables(found.value, vars)
      case Failure(e) => r == Failure(Unformattable(Name(v.keys), e))
      case Success(t) => r == Success((true, v.(values := v.values[level := t])))
    ensures r.Success? && r.value.0 ==>
      found.Some? && FormatUserVariables(found.value, vars).Success? &&
      r.value.1 == v.(values := v.values[level := FormatUserVariables(found.value, vars).value])
  {
    if found.None? then Store(v, level, false, Success(""))
    else if level in v.values then Store(v, level, true, Success(""))
    else Store(v, level, true, Formatted(Name(v.keys), found.value, vars))
  }

  /** Setting the same level twice is refused. */
  lemma SetTwiceRefused(v: ConfigVariable<string>, a: string, b: string, level: Level, vars: map<string, string>)
    requires TrySetString(v, Some(a), level, vars).Success?
    ensures TrySetString(TrySetString(v, Some(a), level, vars).value.1, Some(b), level, vars).Failure?
  {
  }

  /** A value set above every level already set is what the variable now reads. */
  lemma SetAboveReads<V>(v: ConfigVariable<V>, level: Level, x: V)
    requires forall l :: l in v.values ==> l < level
    ensures GetOrThrow(v.(values := v.values[level := x])) == Success(x)
  {
    var w := v.(values := v.values[level := x]);
    assert level in w.values;
    assert TopLevel(w.values) == level;
  }

  /** Entry i is the first of the list that does not format. */
  predicate FirstUnformattable(entries: seq<string>, vars: map<string, string>, i: int)
  {
    && 0 <= i < |entries|
    && FormatUserVariables(entries[i], vars).Failure?
    && forall j :: 0 <= j < i ==> FormatUserVariables(entries[j], vars).Success?
  }

  /** Each entry of a list formatted, in order; the first failure ends it. */
  function FormatEach(name: string, entries: seq<string>, vars: map<string, string>): (r: Result<seq<string>, ConfigError>)
    ensures r.Success? <==> forall i :: 0 <= i < |entries| ==> FormatUserVariables(entries[i], vars).Success?
    ensures r.Success? ==>
      && |r.value| == |entries|
      && forall i :: 0 <= i < |entries| ==> r.value[i] == FormatUserVariables(entries[i], vars).value
    ensures r.Failure? ==>
      exists i :: FirstUnformattable(entries, vars, i) && r.error == Unformattable(name, FormatUserVariables(entries[i], vars).error)
  {
    if |entries| == 0 then Success([])
    else match Formatted(name, entries[0], vars)
      case Failure(e) =>
        assert FirstUnformattable(entries, vars, 0);
        Failure(e)
      case Success(first) =>
        match FormatEach(name, entries[1..], vars)
        case Failure(e) =>
          var i :| FirstUnformattable(entries[1..], vars, i) && e == Unformattable(name, FormatUserVariables(entries[1..][i], vars).error);
          assert forall j :: 1 <= j < |entries| ==> entries[j] == entries[1..][j - 1];
          assert FirstUnformattable(entries, vars, i + 1);
          Failure(e)
        case Success(rest) =>
          assert forall i :: 1 <= i < |entries| ==> entries[i] == entries[1..][i - 1];
          Success([first] + rest)
  }

  /** StringVectorConfigVariable::trySet: every entry formatted, count and order kept. */
  function TrySetStrings(v: ConfigVariable<seq<string>>, found: Option<seq<string>>, level: Level, vars: map<string, string>)
    : (r: Result<(bool, ConfigVariable<seq<string>>), ConfigError>)
    ensures found.None? ==> r == Success((false, v))
    ensures found.Some? && level in v.values ==> r == Failure(SpecifiedTwice(Name(v.keys)))
    ensures found.Some? && level !in v.values ==>
      (r.Success? <==> forall i :: 0 <= i < |found.value| ==> FormatUserVariables(found.value[i], vars).Success?)
    ensures found.Some? && level !in v.values && r.Failure? ==>
      exists i :: FirstUnformattable(found.value, vars, i) && r.error == Unformattable(Name(v.keys), FormatUserVariables(found.value[i], vars).error)
    ensures r.Success? && r.value.0 ==>
      && found.Some? && level in r.value.1.values
      && r.value.1 == v.(values := v.values[level := r.value.1.values[level]])
      && |r.value.1.values[level]| == |found.value|
      && forall i :: 0 <= i < |found.value| ==>
        FormatUserVariables(found.value[i], vars).Success? &&
        r.value.1.values[level][i] == FormatUserVariables(found.value[i], vars).value
  {
    if found.None? then Store(v, level, false, Success([]))
    else if level in v.values then Store(v, level, true, Success([]))
    else Store(v, level, true, FormatEach(Name(v.keys), found.value, vars))
  }

  /** BoolConfigVariable::trySet. */
  function TrySetBool(v: ConfigVariable<bool>, found: Option<bool>, level: Level): (r: Result<(bool, ConfigVariable<bool>), ConfigError>)
    ensures found.None? ==> r == Success((false, v))
    ensures found.Some? ==> (r.Success? <==> level !in v.values)
    ensures r.Success? && found.Some? ==> r.value == (true, v.(values := v.values[level := found.value]))
  {
    Store(v, level, found.Some?, if found.Some? then Success(found.value) else Success(false))
  }

  /** static_cast<std::int16_t>: the value modulo 2^16, read as two's complement. */
  function ToInt16(x: int): (r: int)
    ensures -0x8000 <= r < 0x8000
    ensures (r - x) % 0x1_0000 == 0
  {
    (x + 0x8000) % 0x1_0000 - 0x8000
  }

  /** A TOML integer that fits in 16 bits is kept as it is. */
  lemma ToInt16Keeps(x: int)
    requires -0x8000 <= x < 0x8000
    ensures ToInt16(x) == x
  {
    assert 0 <= x + 0x8000 < 0x1_0000;
  }

  /** IntegerConfigVariable::trySet: the TOML integer is cut to 16 bits. */
  function TrySetInteger(v: ConfigVariable<int>, found: Option<int>, level: Level): (r: Result<(bool, ConfigVariable<int>), ConfigError>)
    ensures found.None? ==> r == Success((false, v))
    ensures found.Some? ==> (r.Success? <==> level !in v.values)
    ensures r.Success? && found.Some? ==> r.value == (true, v.(values := v.values[level := ToInt16(found.value)]))
  {
    Store(v, level, found.Some?, if found.Some? then Success(ToInt16(found.value)) else Success(0))
  }

  /** Paths are kept as the text of their normalized form; normalizing is passed in. */
  type Normalizer = (string, string) -> string

  /**
   * The directory paths are made relative to, as trySet obtains it: the
   * result of `relative_to.getOrThrow()` when it is another path variable
   * (NotSpecified while that variable is unset), or always a success when a
   * plain path is passed.
   */
  type Base = Result<string, ConfigError>

  /** A formatted path normalized against the base, or the base's error. */
  function Located(t: string, base: Base, normalize: Normalizer): (r: Result<string, ConfigError>)
    ensures r.Success? <==> base.Success?
    ensures base.Failure? ==> r == Failure(base.error)
    ensures r.Success? ==> r.value == normalize(t, base.value)
  {
    match base
    case Failure(e) => Failure(e)
    case Success(b) => Success(normalize(t, b))
  }

  /**
   * PathConfigVariable::trySet, both overloads: the value is formatted, then
   * the base is fetched and the result normalized against it.
   */
  function TrySetPath(v: ConfigVariable<string>, found: Option<string>, level: Level, base: Base,
                      normalize: Normalizer, vars: map<string, string>)
    : (r: Result<(bool, ConfigVariable<string>), ConfigError>)
    ensures found.None? ==> r == Success((false, v))
    ensures found.Some? && level in v.values ==> r == Failure(SpecifiedTwice(Name(v.keys)))
    ensures found.Some? && level !in v.values ==>
      match FormatUserVariables(found.value, vars)
      case Failure(e) => r == Failure(Unformattable(Name(v.keys), e))
      case Success(t) =>
        match base
        case Failure(e) => r == Failure(e)
        case Success(b) => r == Success((true, v.(values := v.values[level := normalize(t, b)])))
    ensures r.Success? && r.value.0 ==>
      && found.Some? && FormatUserVariables(found.value, vars).Success? && base.Success?
      && r.value.1 == v.(values := v.values[level := normalize(FormatUserVariables(found.value, vars).value, base.value)])
  {
    if found.None? then Store(v, level, false, Success(""))
    else if level in v.values then Store(v, level, true, Success(""))
    else
      var converted := match Formatted(Name(v.keys), found.value, vars)
        case Failure(e) => Failure(e)
        case Success(t) => Located(t, base, normalize);
      Store(v, level, true, converted)
  }

  /**
   * Each entry formatted and normalized, in order. The base is fetched after
   * the first entry is formatted, so an empty list never needs it.
   */
  function NormalizeEach(name: string, entries: seq<string>, base: Base, normalize: Normalizer, vars: map<string, string>)
    : (r: Result<seq<string>, ConfigError>)
    ensures |entries| == 0 ==> r == Success([])
    ensures |entries| > 0 && FormatUserVariables(entries[0], vars).Failure? ==>
      r == Failure(Unformattable(name, FormatUserVariables(entries[0], vars).error))
    ensures |entries| > 0 && FormatUserVariables(entries[0], vars).Success? && base.Failure? ==> r == Failure(base.error)
    ensures base.Success? ==> (r.Success? <==> FormatEach(name, entries, vars).Success?)
    ensures base.Success? && r.Failure? ==> r == Failure(FormatEach(name, entries, vars).error)
    ensures r.Success? ==>
      && |r.value| == |entries|
      && forall i :: 0 <= i < |entries| ==>
        base.Success? && FormatUserVariables(entries[i], vars).Success? &&
        r.value[i] == normalize(FormatUserVariables(entries[i], vars).value, base.value)
  {
    if |entries| == 0 then Success([])
    else match Formatted(name, entries[0], vars)
      case Failure(e) => Failure(e)
      case Success(_) =>
        match base
        case Failure(e) => Failure(e)
        case Success(b) =>
          match FormatEach(name, entries, vars)
          case Failure(e) => Failure(e)
          case Success(fs) => Success(seq(|fs|, i requires 0 <= i < |fs| => normalize(fs[i], b)))
  }

  /** ExtendablePathVectorConfigVariable::trySet. */
  function TrySetPathList(v: ConfigVariable<seq<string>>, found: Option<seq<string>>, level: Level, base: Base,
                          normalize: Normalizer, vars: map<string, string>)
    : (r: Result<(bool, ConfigVariable<seq<string>>), ConfigError>)
    ensures found.None? ==> r == Success((false, v))
    ensures found.Some? && level in v.values ==> r == Failure(SpecifiedTwice(Name(v.keys)))
    ensures (found.Some? && level !in v.values && |found.value| > 0 &&
             FormatUserVariables(found.value[0], vars).Success? && base.Failure?) ==> r == Failure(base.error)
    ensures found.Some? && level !in v.values && base.Success? ==>
      (r.Success? <==> forall i :: 0 <= i < |found.value| ==> FormatUserVariables(found.value[i], vars).Success?)
    ensures r.Success? && r.value.0 ==>
      && found.Some? && level in r.value.1.values
      && r.value.1 == v.(values := v.values[level := r.value.1.values[level]])
      && |r.value.1.values[level]| == |found.value|
      && forall i :: 0 <= i < |found.value| ==>
        base.Success? && FormatUserVariables(found.value[i], vars).Success? &&
        r.value.1.values[level][i] == normalize(FormatUserVariables(found.value[i], vars).value, base.value)
  {
    if found.None? then Store(v, level, false, Success([]))
    else if level in v.values then Store(v, level, true, Success([]))
    else Store(v, level, true, NormalizeEach(Name(v.keys), found.value, base, normalize, vars))
  }

  /** The lists set at the levels from `from` below `count`, lowest first. */
  function JoinLevels(values: map<Level, seq<string>>, from: Level, count: Level): (r: seq<string>)
    decreases count - from
  {
    if from >= count then []
    else (if from in values then values[from] else []) + JoinLevels(values, from + 1, count)
  }

  /** The number of levels a list could have been set at: one past the highest used. */
  function LevelBound(values: map<Level, seq<string>>): (n: Level)
    ensures forall l :: l in values ==> l < n
  {
    if |values| == 0 then 0 else TopLevel(values) + 1
  }

  /** ExtendablePathVectorConfigVariable::getOrThrow: every level's list, lowest level first. */
  function GetPathList(v: ConfigVariable<seq<string>>): (r: Result<seq<string>, ConfigError>)
    ensures r.Success? <==> IsSet(v)
    ensures r.Failure? ==> r.error == NotSpecified(Name(v.keys))
  {
    if |v.values| == 0 then Failure(NotSpecified(Name(v.keys)))
    else Success(JoinLevels(v.values, 0, LevelBound(v.values)))
  }

  /** Levels past the highest one set add nothing. */
  lemma {:induction false} JoinBeyond(values: map<Level, seq<string>>, from: Level, count: Level, extra: Level)
    requires forall l :: l in values ==> l < count
    ensures JoinLevels(values, from, count + extra) == JoinLevels(values, from, count)
    decreases count + extra - from
  {
    if from < count + extra {
      JoinBeyond(values, from + 1, count, extra);
      if from >= count {
        assert from !in values;
      }
    }
  }

  /** Adding a list at a level above all set levels appends it. */
  lemma {:induction false} JoinWithTop(values: map<Level, seq<string>>, level: Level, x: seq<string>, from: Level)
    requires forall l :: l in values ==> l < level
    requires from <= level
    ensures JoinLevels(values[level := x], from, level + 1) == JoinLevels(values, from, level) + x
    decreases level - from
  {
    var w := values[level := x];
    if from < level {
      JoinWithTop(values, level, x, from + 1);
      var head := if from in values then values[from] else [];
      assert (if from in w then w[from] else []) == head;
      assert JoinLevels(w, from, level + 1) == head + JoinLevels(w, from + 1, level + 1);
      assert JoinLevels(values, from, level) == head + JoinLevels(values, from + 1, level);
    } else {
      assert from !in values;
      assert JoinLevels(w, from + 1, level + 1) == [];
    }
  }

  /** A path list set at a new highest level extends what the variable read before. */
  lemma PathListExtends(v: ConfigVariable<seq<string>>, level: Level, x: seq<string>)
    requires IsSet(v) && forall l :: l in v.values ==> l < level
    ensures GetPathList(v.(values := v.values[level := x])) == Success(GetPathList(v).value + x)
  {
    var w := v.values[level := x];
    assert LevelBound(w) == level + 1 by {
      var t := TopLevel(w);
      assert level in w;
    }
    var n := LevelBound(v.values);
    assert n <= level;
    JoinBeyond(v.values, 0, n, level - n);
    JoinWithTop(v.values, level, x, 0);
  }

  /** A path list set at one level only reads as that list. */
  lemma PathListSingle(v: ConfigVariable<seq<string>>, level: Level, x: seq<string>)
    requires |v.values| == 0
    ensures GetPathList(v.(values := v.values[level := x])) == Success(x)
  {
    var empty: map<Level, seq<string>> := map[];
    assert v.values == empty;
    var w := empty[level := x];
    SingleBound(level, x);
    hide *;
    JoinBeyond(empty, 0, 0, level);
    JoinNone(empty);
    JoinWithTop(empty, level, x, 0);
    assert JoinLevels(w, 0, level + 1) == x;
    SetOne(v, level, x);
  }

  /** One level set: the bound is one past it. */
  lemma SingleBound(level: Level, x: seq<string>)
    ensures LevelBound(map[level := x]) == level + 1
  {
    var w := map[level := x];
    var t := TopLevel(w);
    assert w.Keys == {level};
  }

  lemma JoinNone(values: map<Level, seq<string>>)
    ensures JoinLevels(values, 0, 0) == []
  {
  }

  /** The path list of a variable set at one level joins that level's list. */
  lemma SetOne(v: ConfigVariable<seq<string>>, level: Level, x: seq<string>)
    requires |v.values| == 0
    ensures GetPathList(v.(values := v.values[level := x])) == Success(JoinLevels(map[level := x], 0, level + 1))
  {
    assert v.values[level := x] == map[level := x];
    SingleBound(level, x);
  }

  datatype Policy = Rebuild | Reinsert

  /** The policy of a static dependency: "rebuild", "reinsert", or reinsert when none is given. */
  function ParsePolicy(policy: Option<string>): (r: Result<Policy, ConfigError>)
    ensures policy.None? ==> r == Success(Reinsert)
    ensures policy.Some? ==> (r == Success(Rebuild) <==> policy.value == "rebuild")
    ensures policy.Some? ==> (r == Success(Reinsert) <==> policy.value == "reinsert")
    ensures r.Failure? <==> policy.Some? && policy.value != "rebuild" && policy.value != "reinsert"
    ensures r.Failure? ==> r.error == UnknownPolicy(policy.value)
  {
    match policy
    case None => Success(Reinsert)
    case Some(p) =>
      if p == "rebuild" then Success(Rebuild)
      else if p == "reinsert" then Success(Reinsert)
      else Failure(UnknownPolicy(p))
  }

  /** A resource the build depends on. */
  datatype ResourceDependency = ResourceDependency(path: string, policy: Policy)

  /** An entry of a static dependency list: its "path" and "policy" keys, each possibly absent. */
  datatype DependencyEntry = DependencyEntry(path: Option<string>, policy: Option<string>)

  /**
   * The dependencies one entry stands for: its own path, formatted and
   * normalized against the base, then everything beneath it when it is a
   * directory (`beneath` lists that), all with the entry's policy.
   */
  function EntryDependencies(entry: DependencyEntry, name: string, base: Base, normalize: Normalizer,
                             beneath: string -> seq<string>, vars: map<string, string>)
    : (r: Result<seq<ResourceDependency>, ConfigError>)
    ensures entry.path.None? ==> r == Failure(MissingPath)
    ensures entry.path.Some? && ParsePolicy(entry.policy).Failure? ==> r == Failure(ParsePolicy(entry.policy).error)
    ensures entry.path.Some? && ParsePolicy(entry.policy).Success? ==>
      match FormatUserVariables(entry.path.value, vars)
      case Failure(e) => r == Failure(Unformattable(name, e))
      case Success(_) => base.Failure? ==> r == Failure(base.error)
    ensures r.Success? ==>
      && entry.path.Some? && ParsePolicy(entry.policy).Success? && base.Success?
      && FormatUserVariables(entry.path.value, vars).Success?
      && |r.value| >= 1
      && r.value[0].path == normalize(FormatUserVariables(entry.path.value, vars).value, base.value)
      && |r.value| == 1 + |beneath(r.value[0].path)|
      && (forall i :: 1 <= i < |r.value| ==> r.value[i].path == beneath(r.value[0].path)[i - 1])
      && forall i :: 0 <= i < |r.value| ==> r.value[i].policy == ParsePolicy(entry.policy).value
  {
    match entry.path
    case None => Failure(MissingPath)
    case Some(p) =>
      match ParsePolicy(entry.policy)
      case Failure(e) => Failure(e)
      case Success(policy) =>
        match Formatted(name, p, vars)
        case Failure(e) => Failure(e)
        case Success(t) =>
          match Located(t, base, normalize)
          case Failure(e) => Failure(e)
          case Success(full) =>
            var inside := beneath(full);
            Success([ResourceDependency(full, policy)] + seq(|inside|, i requires 0 <= i < |inside| => ResourceDependency(inside[i], policy)))
  }

  /** Entry i is the first of the list whose conversion fails. */
  predicate FirstFailingEntry(entries: seq<DependencyEntry>, name: string, base: Base, normalize: Normalizer,
                              beneath: string -> seq<string>, vars: map<string, string>, i: int)
  {
    && 0 <= i < |entries|
    && EntryDependencies(entries[i], name, base, normalize, beneath, vars).Failure?
    && forall k :: 0 <= k < i ==> EntryDependencies(entries[k], name, base, normalize, beneath, vars).Success?
  }

  /** The lists joined end to end, in order. */
  function Concat(parts: seq<seq<ResourceDependency>>): (r: seq<ResourceDependency>)
    ensures |parts| > 0 ==> r == parts[0] + Concat(parts[1..])
  {
    if |parts| == 0 then [] else parts[0] + Concat(parts[1..])
  }

  /** The dependency list of each entry, in order, when every entry converts. */
  function EntryLists(entries: seq<DependencyEntry>, name: string, base: Base, normalize: Normalizer,
                      beneath: string -> seq<string>, vars: map<string, string>)
    : (r: seq<seq<ResourceDependency>>)
    requires forall i :: 0 <= i < |entries| ==> EntryDependencies(entries[i], name, base, normalize, beneath, vars).Success?
    ensures |r| == |entries|
    ensures forall i :: 0 <= i < |entries| ==> r[i] == EntryDependencies(entries[i], name, base, normalize, beneath, vars).value
  {
    if |entries| == 0 then []
    else
      assert forall i :: 1 <= i < |entries| ==> entries[i] == entries[1..][i - 1];
      [EntryDependencies(entries[0], name, base, normalize, beneath, vars).value] + EntryLists(entries[1..], name, base, normalize, beneath, vars)
  }

  /** StaticResourceDependencyConfigVariable::trySet's conversion of the whole list. */
  function ConvertDependencies(entries: seq<DependencyEntry>, name: string, base: Base, normalize: Normalizer,
                               beneath: string -> seq<string>, vars: map<string, string>)
    : (r: Result<seq<ResourceDependency>, ConfigError>)
    ensures r.Success? ==> |r.value| >= |entries|
    ensures r.Success? <==> forall i :: 0 <= i < |entries| ==> EntryDependencies(entries[i], name, base, normalize, beneath, vars).Success?
    ensures r.Success? ==> r.value == Concat(EntryLists(entries, name, base, normalize, beneath, vars))
    ensures r.Failure? ==>
      exists i :: FirstFailingEntry(entries, name, base, normalize, beneath, vars, i)
               && r.error == EntryDependencies(entries[i], name, base, normalize, beneath, vars).error
  {
    if |entries| == 0 then Success([])
    else match EntryDependencies(entries[0], name, base, normalize, beneath, vars)
      case Failure(e) =>
        assert FirstFailingEntry(entries, name, base, normalize, beneath, vars, 0);
        Failure(e)
      case Success(first) =>
        assert forall i :: 1 <= i < |entries| ==> entries[i] == entries[1..][i - 1];
        match ConvertDependencies(entries[1..], name, base, normalize, beneath, vars)
        case Failure(e) =>
          var i :| FirstFailingEntry(entries[1..], name, base, normalize, beneath, vars, i)
                   && e == EntryDependencies(entries[1..][i], name, base, normalize, beneath, vars).error;
          assert FirstFailingEntry(entries, name, base, normalize, beneath, vars, i + 1);
          Failure(e)
        case Success(rest) =>
          ListsStep(entries, name, base, normalize, beneath, vars);
          Success(first + rest)
  }

  /** The per-entry lists of a list are its head's list, then the tail's lists. */
  lemma ListsStep(entries: seq<DependencyEntry>, name: string, base: Base, normalize: Normalizer,
                  beneath: string -> seq<string>, vars: map<string, string>)
    requires |entries| > 0
    requires forall i :: 0 <= i < |entries| ==> EntryDependencies(entries[i], name, base, normalize, beneath, vars).Success?
    ensures forall i :: 0 <= i < |entries[1..]| ==> EntryDependencies(entries[1..][i], name, base, normalize, beneath, vars).Success?
    ensures Concat(EntryLists(entries, name, base, normalize, beneath, vars))
         == EntryDependencies(entries[0], name, base, normalize, beneath, vars).value
            + Concat(EntryLists(entries[1..], name, base, normalize, beneath, vars))
  {
    assert forall i :: 1 <= i < |entries| ==> entries[i] == entries[1..][i - 1];
    var p := EntryLists(entries, name, base, normalize, beneath, vars);
    var q := EntryLists(entries[1..], name, base, normalize, beneath, vars);
    assert p[1..] == q;
  }
}
