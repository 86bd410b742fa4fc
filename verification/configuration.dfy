/**
 * The assembled configuration: the values every variable was set to, by
 * name, the checks that patches and modules are listed consistently, and
 * the build order spelled out from the symbols the user wrote. Paths are
 * the text of their normalized form; normalizing a build-order entry is
 * passed in.
 */
module Configuration {
  import opened Wrappers

  /** The value a variable holds, as recorded for dependency checks; Unset is std::monostate. */
  datatype ConfigValue = Unset | Text(s: string) | Flag(b: bool) | PathList(paths: seq<string>)

  /** getByKey: the recorded value, or Unset for a key nothing was recorded under. */
  function GetByKey(recorded: map<string, ConfigValue>, key: string): (r: ConfigValue)
    ensures key !in recorded ==> r == Unset
    ensures key in recorded ==> r == recorded[key]
  {
    if key in recorded then recorded[key] else Unset
  }

  /** What a successful trySet records: the variable's value under its name. */
  function Record(recorded: map<string, ConfigValue>, name: string, value: ConfigValue): (r: map<string, ConfigValue>)
    ensures r.Keys == recorded.Keys + {name}
  {
    recorded[name := value]
  }

  /** A recorded value reads back under its name, and no other key changes. */
  lemma RecordReads(recorded: map<string, ConfigValue>, name: string, value: ConfigValue, key: string)
    ensures GetByKey(Record(recorded, name, value), key) == if key == name then value else GetByKey(recorded, key)
  {
  }

  datatype ConfigError =
    | PatchIsModule(path: string)
    | DuplicateModule(path: string)
    | SharedModuleOutput(path: string)
    | DuplicatePatch(path: string)
    | UnknownSymbol(symbol: string)

  /** No element occurs twice. */
  predicate Distinct<T(==)>(xs: seq<T>)
  {
    forall i, j :: 0 <= i < j < |xs| ==> xs[i] != xs[j]
  }

  /** No element occurs twice, nor was seen before. */
  predicate Fresh<T(==)>(xs: seq<T>, seen: set<T>)
  {
    Distinct(xs) && forall i :: 0 <= i < |xs| ==> xs[i] !in seen
  }

  /** xs[j] was seen before, or occurs earlier in xs. */
  predicate RepeatAt<T(==)>(xs: seq<T>, seen: set<T>, j: nat)
    requires j < |xs|
  {
    xs[j] in seen || exists i :: 0 <= i < j && xs[i] == xs[j]
  }

  /** The first element, front to back, that was seen before or equals an earlier one. */
  function FirstRepeat<T(==)>(xs: seq<T>, seen: set<T>): (r: Option<T>)
    ensures r.None? <==> Fresh(xs, seen)
    ensures r.Some? ==> exists j :: 0 <= j < |xs| && xs[j] == r.value && RepeatAt(xs, seen, j)
  {
    if |xs| == 0 then None
    else if xs[0] in seen then
      assert RepeatAt(xs, seen, 0);
      Some(xs[0])
    else
      var r := FirstRepeat(xs[1..], seen + {xs[0]});
      FreshCons(xs, seen);
      if r.Some? then
        var j :| 0 <= j < |xs[1..]| && xs[1..][j] == r.value && RepeatAt(xs[1..], seen + {xs[0]}, j);
        RepeatShifts(xs, seen, j);
        r
      else r
  }

  /** A repeat in the tail, counting the head as seen, is a repeat in the whole list. */
  lemma RepeatShifts<T>(xs: seq<T>, seen: set<T>, j: nat)
    requires 0 < |xs| && j < |xs| - 1 && RepeatAt(xs[1..], seen + {xs[0]}, j)
    ensures RepeatAt(xs, seen, j + 1)
  {
    var tail := xs[1..];
    assert xs[j + 1] == tail[j];
    if tail[j] == xs[0] {
      assert xs[0] == xs[j + 1];
    } else if tail[j] !in seen {
      var i :| 0 <= i < j && tail[i] == tail[j];
      assert xs[i + 1] == xs[j + 1];
    }
  }

  lemma FreshCons<T>(xs: seq<T>, seen: set<T>)
    requires |xs| > 0 && xs[0] !in seen
    ensures Fresh(xs[1..], seen + {xs[0]}) <==> Fresh(xs, seen)
  {
    if Fresh(xs[1..], seen + {xs[0]}) {
      forall i, j | 0 <= i < j < |xs| ensures xs[i] != xs[j] {
        if i == 0 {
          assert xs[j] == xs[1..][j - 1];
        } else {
          assert xs[i] == xs[1..][i - 1] && xs[j] == xs[1..][j - 1];
        }
      }
      forall i | 0 <= i < |xs| ensures xs[i] !in seen {
        if i > 0 {
          assert xs[i] == xs[1..][i - 1];
        }
      }
    }
    if Fresh(xs, seen) {
      forall i, j | 0 <= i < j < |xs[1..]| ensures xs[1..][i] != xs[1..][j] {
        assert xs[1..][i] == xs[i + 1] && xs[1..][j] == xs[j + 1];
      }
      forall i | 0 <= i < |xs[1..]| ensures xs[1..][i] !in seen + {xs[0]} {
        assert xs[1..][i] == xs[i + 1];
      }
    }
  }

  /** Fresh for a concatenation: each part fresh, the second counting the first as seen. */
  lemma {:induction false} FreshAppend<T>(a: seq<T>, b: seq<T>, seen: set<T>)
    ensures Fresh(a + b, seen) <==> Fresh(a, seen) && Fresh(b, seen + set x | x in a)
  {
    if |a| == 0 {
      assert a + b == b;
      assert (set x | x in a) == {};
    } else if a[0] in seen {
      assert (a + b)[0] == a[0];
    } else {
      FreshCons(a + b, seen);
      FreshCons(a, seen);
      assert (a + b)[1..] == a[1..] + b;
      FreshAppend(a[1..], b, seen + {a[0]});
      assert seen + {a[0]} + (set x | x in a[1..]) == seen + set x | x in a by {
        assert forall x :: x in a <==> x == a[0] || x in a[1..];
      }
    }
  }

  /** A module's source file and the files it writes. */
  datatype ModuleConfiguration = ModuleConfiguration(input: string, outputs: seq<string>)

  function Inputs(modules: seq<ModuleConfiguration>): (r: seq<string>)
    ensures |r| == |modules| && forall i :: 0 <= i < |modules| ==> r[i] == modules[i].input
  {
    if |modules| == 0 then [] else [modules[0].input] + Inputs(modules[1..])
  }

  /** Every module's outputs, module by module. */
  function Outputs(modules: seq<ModuleConfiguration>): seq<string>
  {
    if |modules| == 0 then [] else modules[0].outputs + Outputs(modules[1..])
  }

  /** The loop of verifyModuleExclusivity from some module on, with the paths seen so far. */
  function CheckModules(modules: seq<ModuleConfiguration>, seenInputs: set<string>, seenOutputs: set<string>)
    : (r: Result<(), ConfigError>)
    ensures r.Success? <==> Fresh(Inputs(modules), seenInputs) && Fresh(Outputs(modules), seenOutputs)
    ensures r.Failure? ==> r.error.DuplicateModule? || r.error.SharedModuleOutput?
    ensures r.Failure? && r.error.DuplicateModule? ==> r.error.path in seenInputs || r.error.path in Inputs(modules)
    ensures r.Failure? && r.error.SharedModuleOutput? ==> r.error.path in seenOutputs || r.error.path in Outputs(modules)
  {
    if |modules| == 0 then Success(())
    else
      var m := modules[0];
      assert Inputs(modules)[0] == m.input;
      if m.input in seenInputs then Failure(DuplicateModule(m.input))
      else
        FreshCons(Inputs(modules), seenInputs);
        assert Inputs(modules)[1..] == Inputs(modules[1..]);
        FreshAppend(m.outputs, Outputs(modules[1..]), seenOutputs);
        match FirstRepeat(m.outputs, seenOutputs)
        case Some(o) => Failure(SharedModuleOutput(o))
        case None => CheckModules(modules[1..], seenInputs + {m.input}, seenOutputs + set x | x in m.outputs)
  }

  /** verifyModuleExclusivity: no module is listed twice and no two modules share an output. */
  function VerifyModuleExclusivity(modules: seq<ModuleConfiguration>): (r: Result<(), ConfigError>)
    ensures r.Success? <==> Distinct(Inputs(modules)) && Distinct(Outputs(modules))
  {
    CheckModules(modules, {}, {})
  }

  /** verifyPatchUniqueness: a patch may be listed once. */
  function VerifyPatchUniqueness(patches: Option<seq<string>>): (r: Result<(), ConfigError>)
    ensures r.Success? <==> patches.None? || Distinct(patches.value)
    ensures r.Failure? ==>
      && r.error.DuplicatePatch?
      && exists i, j :: 0 <= i < j < |patches.value| && patches.value[i] == r.error.path && patches.value[j] == r.error.path
  {
    if patches.None? then Success(())
    else match FirstRepeat(patches.value, {})
      case None => Success(())
      case Some(p) => Failure(DuplicatePatch(p))
  }

  /** The first patch, in list order, that is also a module's source. */
  function FirstPatchModule(patches: seq<string>, inputs: seq<string>): (r: Option<string>)
    ensures r.None? <==> forall i :: 0 <= i < |patches| ==> patches[i] !in inputs
    ensures r.Some? ==> r.value in patches && r.value in inputs
  {
    if |patches| == 0 then None
    else if patches[0] in inputs then Some(patches[0])
    else
      var r := FirstPatchModule(patches[1..], inputs);
      assert forall i :: 1 <= i < |patches| ==> patches[i] == patches[1..][i - 1];
      r
  }

  /** verifyPatchModuleExclusivity: no file is both a patch and a module. */
  function VerifyPatchModuleExclusivity(patches: Option<seq<string>>, modules: seq<ModuleConfiguration>): (r: Result<(), ConfigError>)
    ensures r.Success? <==> patches.None? || forall i :: 0 <= i < |patches.value| ==> patches.value[i] !in Inputs(modules)
    ensures r.Failure? ==> r.error.PatchIsModule? && r.error.path in patches.value && r.error.path in Inputs(modules)
  {
    if patches.None? || |modules| == 0 then Success(())
    else match FirstPatchModule(patches.value, Inputs(modules))
      case None => Success(())
      case Some(p) => Failure(PatchIsModule(p))
  }

  /** What an entry of the build order names. */
  datatype Symbol =
    | InitialPatch | Graphics | ExGraphics | Map16 | TitleScreenMovement | SharedPalettes
    | Overworld | TitleScreen | Credits | GlobalExAnimation | Levels
    | Patch | Module | ExternalTool

  /** A build-order item: a symbol, and the file or tool it is about when there is one. */
  datatype Descriptor = Descriptor(symbol: Symbol, name: Option<string>)

  /** The symbols spelled by a fixed word. */
  function StaticSymbol(word: string): (r: Option<Symbol>)
    ensures r.Some? ==> r.value != Patch && r.value != Module && r.value != ExternalTool
  {
    if word == "InitialPatch" then Some(InitialPatch)
    else if word == "Graphics" then Some(Graphics)
    else if word == "ExGraphics" then Some(ExGraphics)
    else if word == "Map16" then Some(Map16)
    else if word == "TitleScreenMovement" then Some(TitleScreenMovement)
    else if word == "SharedPalettes" then Some(SharedPalettes)
    else if word == "Overworld" then Some(Overworld)
    else if word == "TitleScreen" then Some(TitleScreen)
    else if word == "Credits" then Some(Credits)
    else if word == "GlobalExAnimation" then Some(GlobalExAnimation)
    else if word == "Levels" then Some(Levels)
    else None
  }

  /** The word that spells each fixed symbol. */
  function StaticWord(sym: Symbol): (w: string)
    requires sym != Patch && sym != Module && sym != ExternalTool
  {
    match sym
    case InitialPatch => "InitialPatch"
    case Graphics => "Graphics"
    case ExGraphics => "ExGraphics"
    case Map16 => "Map16"
    case TitleScreenMovement => "TitleScreenMovement"
    case SharedPalettes => "SharedPalettes"
    case Overworld => "Overworld"
    case TitleScreen => "TitleScreen"
    case Credits => "Credits"
    case GlobalExAnimation => "GlobalExAnimation"
    case Levels => "Levels"
  }

  /** The fixed words and the fixed symbols correspond one to one. */
  lemma StaticSymbolsOneToOne(word: string, sym: Symbol)
    requires sym != Patch && sym != Module && sym != ExternalTool
    ensures StaticSymbol(word) == Some(sym) <==> word == StaticWord(sym)
  {
  }

  /** What a build-order symbol is resolved against. */
  datatype BuildContext = BuildContext(
    patches: Option<seq<string>>,
    modules: seq<ModuleConfiguration>,
    tools: seq<string>,
    buildOrder: seq<string>,
    normalize: string -> string)

  /** getExplicitPatches: the patches the build order names on their own. */
  function ExplicitPatches(ctx: BuildContext): (r: set<string>)
    ensures forall p :: p in r <==>
      && ctx.patches.Some? && p in ctx.patches.value
      && exists e :: e in ctx.buildOrder && ctx.normalize(e) == p
  {
    var ps := if ctx.patches.Some? then ctx.patches.value else [];
    set e | e in ctx.buildOrder && ctx.normalize(e) in ps :: ctx.normalize(e)
  }

  /** getExplicitModules: the module sources the build order names on their own. */
  function ExplicitModules(ctx: BuildContext): (r: set<string>)
    ensures forall p :: p in r <==> p in Inputs(ctx.modules) && exists e :: e in ctx.buildOrder && ctx.normalize(e) == p
  {
    set e | e in ctx.buildOrder && ctx.normalize(e) in Inputs(ctx.modules) :: ctx.normalize(e)
  }

  /** Descriptors for the listed files not in `explicit`, in list order. */
  function Remaining(sym: Symbol, files: seq<string>, explicit: set<string>): (r: seq<Descriptor>)
    ensures forall d :: d in r <==> d.symbol == sym && d.name.Some? && d.name.value in files && d.name.value !in explicit
    ensures |r| <= |files|
  {
    if |files| == 0 then []
    else
      var rest := Remaining(sym, files[1..], explicit);
      assert forall f :: f in files <==> f == files[0] || f in files[1..];
      if files[0] in explicit then rest else [Descriptor(sym, Some(files[0]))] + rest
  }

  /** The first file's descriptor, if it gets one, comes before the rest's. */
  lemma RemainingStep(sym: Symbol, files: seq<string>, explicit: set<string>)
    requires |files| > 0
    ensures Remaining(sym, files, explicit)
         == (if files[0] in explicit then [] else [Descriptor(sym, Some(files[0]))]) + Remaining(sym, files[1..], explicit)
  {
  }

  /** One file gives its own descriptor unless it is explicit. */
  lemma RemainingOne(sym: Symbol, f: string, explicit: set<string>)
    ensures Remaining(sym, [f], explicit) == if f in explicit then [] else [Descriptor(sym, Some(f))]
  {
    RemainingStep(sym, [f], explicit);
    assert [f][1..] == [];
  }

  /**
   * The descriptors follow the list: a list split in two gives the two
   * parts' descriptors one after the other.
   */
  lemma {:induction false} RemainingInListOrder(sym: Symbol, a: seq<string>, b: seq<string>, explicit: set<string>)
    ensures Remaining(sym, a + b, explicit) == Remaining(sym, a, explicit) + Remaining(sym, b, explicit)
  {
    hide Remaining;
    if |a| == 0 {
      assert a + b == b;
      assert Remaining(sym, a, explicit) == [];
      assert [] + Remaining(sym, b, explicit) == Remaining(sym, b, explicit);
    } else {
      var head := if a[0] in explicit then [] else [Descriptor(sym, Some(a[0]))];
      RemainingInListOrder(sym, a[1..], b, explicit);
      RemainingStep(sym, a, explicit);
      RemainingStep(sym, a + b, explicit);
      assert (a + b)[0] == a[0];
      assert (a + b)[1..] == a[1..] + b;
      var x, y := Remaining(sym, a[1..], explicit), Remaining(sym, b, explicit);
      assert Remaining(sym, a + b, explicit) == head + (x + y);
      assert head + (x + y) == (head + x) + y;
    }
  }

  /** symbolToDescriptor. */
  function SymbolToDescriptor(symbol: string, ctx: BuildContext): (r: Result<seq<Descriptor>, ConfigError>)
    ensures StaticSymbol(symbol).Some? ==> r == Success([Descriptor(StaticSymbol(symbol).value, None)])
    ensures symbol == "Patches" && ctx.patches.None? ==> r == Success([])
    ensures r.Failure? <==>
      && StaticSymbol(symbol).None? && symbol != "Patches" && symbol != "Modules"
      && (ctx.patches.None? || ctx.normalize(symbol) !in ctx.patches.value)
      && ctx.normalize(symbol) !in Inputs(ctx.modules)
      && symbol !in ctx.tools
    ensures r.Failure? ==> r.error == UnknownSymbol(symbol)
    ensures symbol == "Patches" && ctx.patches.Some? ==> r == Success(Remaining(Patch, ctx.patches.value, ExplicitPatches(ctx)))
    ensures symbol == "Modules" ==> r == Success(Remaining(Module, Inputs(ctx.modules), ExplicitModules(ctx)))
    ensures StaticSymbol(symbol).None? && symbol != "Patches" && symbol != "Modules" ==>
      var path := ctx.normalize(symbol);
      if ctx.patches.Some? && path in ctx.patches.value then r == Success([Descriptor(Patch, Some(path))])
      else if path in Inputs(ctx.modules) then r == Success([Descriptor(Module, Some(path))])
      else if symbol in ctx.tools then r == Success([Descriptor(ExternalTool, Some(symbol))])
      else r.Failure?
  {
    match StaticSymbol(symbol)
    case Some(sym) => Success([Descriptor(sym, None)])
    case None =>
      if symbol == "Patches" then
        if ctx.patches.Some? then Success(Remaining(Patch, ctx.patches.value, ExplicitPatches(ctx))) else Success([])
      else if symbol == "Modules" then
        Success(Remaining(Module, Inputs(ctx.modules), ExplicitModules(ctx)))
      else
        var path := ctx.normalize(symbol);
        if ctx.patches.Some? && path in ctx.patches.value then Success([Descriptor(Patch, Some(path))])
        else if path in Inputs(ctx.modules) then Success([Descriptor(Module, Some(path))])
        else if symbol in ctx.tools then Success([Descriptor(ExternalTool, Some(symbol))])
        else Failure(UnknownSymbol(symbol))
  }

  /**
   * With "Patches" in the build order, every configured patch is placed:
   * named on its own somewhere in the build order, or by "Patches".
   */
  lemma PatchesAllPlaced(ctx: BuildContext, p: string)
    requires ctx.patches.Some? && p in ctx.patches.value
    ensures (exists e :: e in ctx.buildOrder && ctx.normalize(e) == p) ||
      Descriptor(Patch, Some(p)) in SymbolToDescriptor("Patches", ctx).value
  {
  }

  /** A patch named on its own is not placed again by "Patches". */
  lemma ExplicitPatchNotRepeated(ctx: BuildContext, e: string)
    requires ctx.patches.Some? && e in ctx.buildOrder && ctx.normalize(e) in ctx.patches.value
    ensures Descriptor(Patch, Some(ctx.normalize(e))) !in SymbolToDescriptor("Patches", ctx).value
  {
  }

  /** The symbol at i does not resolve, and e is the error saying so. */
  predicate UnknownAt(symbols: seq<string>, i: nat, ctx: BuildContext, e: ConfigError)
    requires i < |symbols|
  {
    SymbolToDescriptor(symbols[i], ctx).Failure? && e == UnknownSymbol(symbols[i])
  }

  /** Symbol i is the first whose resolution fails. */
  predicate FirstUnresolvedAt(symbols: seq<string>, resolve: string -> Result<seq<Descriptor>, ConfigError>, i: int)
  {
    && 0 <= i < |symbols|
    && resolve(symbols[i]).Failure?
    && forall j :: 0 <= j < i ==> resolve(symbols[j]).Success?
  }

  /** Every symbol resolved in turn, the descriptors joined in order; the first failure stops it. */
  function ResolveAll(symbols: seq<string>, resolve: string -> Result<seq<Descriptor>, ConfigError>)
    : (r: Result<seq<Descriptor>, ConfigError>)
    ensures r.Success? <==> forall i :: 0 <= i < |symbols| ==> resolve(symbols[i]).Success?
    ensures r.Failure? ==> exists i :: FirstUnresolvedAt(symbols, resolve, i) && r.error == resolve(symbols[i]).error
  {
    if |symbols| == 0 then Success([])
    else
      var head := resolve(symbols[0]);
      if head.Failure? then
        assert FirstUnresolvedAt(symbols, resolve, 0);
        Failure(head.error)
      else
        var tail := ResolveAll(symbols[1..], resolve);
        assert forall i :: 1 <= i < |symbols| ==> symbols[i] == symbols[1..][i - 1];
        if tail.Failure? then
          var i :| FirstUnresolvedAt(symbols[1..], resolve, i) && tail.error == resolve(symbols[1..][i]).error;
          assert FirstUnresolvedAt(symbols, resolve, i + 1);
          Failure(tail.error)
        else Success(head.value + tail.value)
  }

  /**
   * Resolution runs symbol by symbol: a list split in two gives the first
   * part's error, or else the second's, or the first part's descriptors
   * followed by the second's.
   */
  lemma {:induction false} ResolveAllAppend(a: seq<string>, b: seq<string>, resolve: string -> Result<seq<Descriptor>, ConfigError>)
    ensures ResolveAll(a, resolve).Failure? ==> ResolveAll(a + b, resolve) == ResolveAll(a, resolve)
    ensures ResolveAll(a, resolve).Success? && ResolveAll(b, resolve).Failure? ==> ResolveAll(a + b, resolve) == ResolveAll(b, resolve)
    ensures ResolveAll(a, resolve).Success? && ResolveAll(b, resolve).Success? ==>
      ResolveAll(a + b, resolve) == Success(ResolveAll(a, resolve).value + ResolveAll(b, resolve).value)
  {
    if |a| == 0 {
      assert a + b == b;
      if ResolveAll(b, resolve).Success? {
        assert [] + ResolveAll(b, resolve).value == ResolveAll(b, resolve).value;
      }
    } else {
      ResolveAllAppend(a[1..], b, resolve);
      assert (a + b)[0] == a[0];
      assert (a + b)[1..] == a[1..] + b;
      var head := resolve(a[0]);
      var rest, second := ResolveAll(a[1..], resolve), ResolveAll(b, resolve);
      if head.Success? && rest.Success? && second.Success? {
        assert ResolveAll(a + b, resolve) == Success(head.value + (rest.value + second.value));
        assert head.value + (rest.value + second.value) == (head.value + rest.value) + second.value;
      }
    }
  }

  /** Resolution against the configuration. */
  function Resolver(ctx: BuildContext): string -> Result<seq<Descriptor>, ConfigError>
  {
    s => SymbolToDescriptor(s, ctx)
  }

  /** finalizeBuildOrder: the descriptors of every symbol, in order; the first unknown symbol is an error. */
  function BuildOrder(symbols: seq<string>, ctx: BuildContext): (r: Result<seq<Descriptor>, ConfigError>)
    ensures r.Success? <==> forall i :: 0 <= i < |symbols| ==> SymbolToDescriptor(symbols[i], ctx).Success?
    ensures r.Failure? ==>
      exists i :: 0 <= i < |symbols| && UnknownAt(symbols, i, ctx, r.error)
               && forall j :: 0 <= j < i ==> SymbolToDescriptor(symbols[j], ctx).Success?
  {
    var r := ResolveAll(symbols, Resolver(ctx));
    if r.Failure? then
      var i :| FirstUnresolvedAt(symbols, Resolver(ctx), i) && r.error == Resolver(ctx)(symbols[i]).error;
      assert UnknownAt(symbols, i, ctx, r.error);
      r
    else r
  }

  /** One symbol resolves to its own descriptors or its error. */
  lemma ResolveAllOne(s: string, resolve: string -> Result<seq<Descriptor>, ConfigError>)
    ensures ResolveAll([s], resolve) == resolve(s)
  {
    assert [s][1..] == [];
    var head := resolve(s);
    if head.Success? {
      assert head.value + [] == head.value;
    }
  }

  /** A build order of one symbol is that symbol's descriptors or its error. */
  lemma BuildOrderOne(s: string, ctx: BuildContext)
    ensures BuildOrder([s], ctx) == SymbolToDescriptor(s, ctx)
  {
    ResolveAllOne(s, Resolver(ctx));
  }

  /**
   * The build order is built symbol by symbol: an order split in two gives
   * the first part's error, or else the second's, or the first part's
   * descriptors followed by the second's.
   */
  lemma BuildOrderAppend(a: seq<string>, b: seq<string>, ctx: BuildContext)
    ensures BuildOrder(a, ctx).Failure? ==> BuildOrder(a + b, ctx) == BuildOrder(a, ctx)
    ensures BuildOrder(a, ctx).Success? && BuildOrder(b, ctx).Failure? ==> BuildOrder(a + b, ctx) == BuildOrder(b, ctx)
    ensures BuildOrder(a, ctx).Success? && BuildOrder(b, ctx).Success? ==>
      BuildOrder(a + b, ctx) == Success(BuildOrder(a, ctx).value + BuildOrder(b, ctx).value)
  {
    ResolveAllAppend(a, b, Resolver(ctx));
  }
}
