/**
 * The decisions a quick build makes before touching the ROM: whether the
 * build order or the level files changed in a way only a full rebuild can
 * handle, which recorded dependencies changed, and whether the bytes the
 * previous build's hijacks wrote are still all written by the new ones.
 * Reading the build report, the file system and the clock is done by the
 * caller; what they yield is passed in.
 */
module QuickBuilder {
  import opened Wrappers
  import Paths
  import Configuration
  import ConfigVariables

  /** MustRebuildException and InsertionException. */
  datatype QuickBuildError =
    | MustRebuild
    | Insertion(path: string)

  /** checkBuildOrderChange: first the lengths, then position by position. */
  method CheckBuildOrderChange(newOrder: seq<Configuration.Descriptor>, oldOrder: seq<Configuration.Descriptor>)
    returns (r: Result<(), QuickBuildError>)
    ensures r.Success? <==> newOrder == oldOrder
    ensures r.Failure? ==> r.error == MustRebuild
  {
    if |newOrder| != |oldOrder| {
      return Failure(MustRebuild);
    }
    var i := 0;
    while i < |newOrder|
      invariant i <= |newOrder|
      invariant newOrder[..i] == oldOrder[..i]
    {
      if oldOrder[i] != newOrder[i] {
        return Failure(MustRebuild);
      }
      i := i + 1;
    }
    assert newOrder == newOrder[..i] && oldOrder == oldOrder[..i];
    return Success(());
  }

  /**
   * An entry of the levels folder: its path, that path's extension, and the
   * level number reading the file gives when it gives one.
   */
  datatype LevelEntry = LevelEntry(name: string, extension: string, internalNumber: Option<nat>)

  /** The entry for a file, its extension taken from its name. */
  function EntryOf(name: string, internalNumber: Option<nat>): (e: LevelEntry)
    ensures e.name == name && e.internalNumber == internalNumber
    ensures IsMwl(e) <==> Paths.Extension(name) == ".mwl"
  {
    LevelEntry(name, Paths.Extension(name), internalNumber)
  }

  predicate IsMwl(e: LevelEntry)
  {
    e.extension == ".mwl"
  }

  /** Entry k is a level file that reads as level l. */
  predicate NumberAt(entries: seq<LevelEntry>, k: nat, l: nat)
    requires k < |entries|
  {
    IsMwl(entries[k]) && entries[k].internalNumber == Some(l)
  }

  /** Entry k is a level file whose number cannot be read. */
  predicate UnreadableAt(entries: seq<LevelEntry>, k: nat)
    requires k < |entries|
  {
    IsMwl(entries[k]) && entries[k].internalNumber.None?
  }

  /** The level numbers of the .mwl entries, or the first .mwl whose number cannot be read. */
  function NewLevelNumbers(entries: seq<LevelEntry>): (r: Result<set<nat>, QuickBuildError>)
    ensures r.Success? <==> forall k :: 0 <= k < |entries| ==> !UnreadableAt(entries, k)
    ensures r.Success? ==> forall l :: l in r.value <==> exists k :: 0 <= k < |entries| && NumberAt(entries, k, l)
    ensures r.Failure? ==> exists k :: 0 <= k < |entries| && UnreadableAt(entries, k) && r.error == Insertion(entries[k].name)
  {
    if |entries| == 0 then Success({})
    else
      var e := entries[0];
      if IsMwl(e) && e.internalNumber.None? then
        assert UnreadableAt(entries, 0);
        Failure(Insertion(e.name))
      else
        var rest := NewLevelNumbers(entries[1..]);
        assert forall k :: 1 <= k < |entries| ==> entries[k] == entries[1..][k - 1];
        if rest.Failure? then
          var k :| 0 <= k < |entries[1..]| && UnreadableAt(entries[1..], k) && rest.error == Insertion(entries[1..][k].name);
          assert UnreadableAt(entries, k + 1);
          rest
        else
          assert !UnreadableAt(entries, 0);
          assert forall k :: 1 <= k < |entries| ==> (UnreadableAt(entries, k) <==> UnreadableAt(entries[1..], k - 1));
          var r := if IsMwl(e) then {e.internalNumber.value} + rest.value else rest.value;
          assert forall l :: l in r <==> exists k :: 0 <= k < |entries| && NumberAt(entries, k, l) by {
            forall l ensures l in r <==> exists k :: 0 <= k < |entries| && NumberAt(entries, k, l) {
              if l in rest.value {
                var k :| 0 <= k < |entries[1..]| && NumberAt(entries[1..], k, l);
                assert NumberAt(entries, k + 1, l);
              } else if IsMwl(e) && l == e.internalNumber.value {
                assert NumberAt(entries, 0, l);
              } else if exists k :: 0 <= k < |entries| && NumberAt(entries, k, l) {
                var k :| 0 <= k < |entries| && NumberAt(entries, k, l);
                assert k != 0;
                assert NumberAt(entries[1..], k - 1, l);
              }
            }
          }
          Success(r)
  }

  /**
   * checkProblematicLevelChanges: a missing levels folder or an unreadable
   * level file stops the build; a level inserted before whose file is gone
   * needs a rebuild.
   */
  function CheckProblematicLevelChanges(levelsPath: string, folderExists: bool, entries: seq<LevelEntry>, oldLevels: set<nat>)
    : (r: Result<(), QuickBuildError>)
    ensures !folderExists ==> r == Failure(Insertion(levelsPath))
    ensures r.Success? <==> folderExists && NewLevelNumbers(entries).Success? && oldLevels <= NewLevelNumbers(entries).value
    ensures r.Failure? && folderExists && NewLevelNumbers(entries).Success? ==> r.error == MustRebuild
  {
    if !folderExists then Failure(Insertion(levelsPath))
    else
      var found := NewLevelNumbers(entries);
      if found.Failure? then Failure(found.error)
      else if |oldLevels - found.value| != 0 then Failure(MustRebuild)
      else
        assert oldLevels - found.value == {};
        Success(())
  }

  /** Adding level files to those a build inserted never needs a rebuild. */
  lemma LevelsAddedNoRebuild(levelsPath: string, entries: seq<LevelEntry>, added: seq<LevelEntry>)
    requires NewLevelNumbers(entries + added).Success?
    ensures NewLevelNumbers(entries).Success?
    ensures CheckProblematicLevelChanges(levelsPath, true, entries + added, NewLevelNumbers(entries).value).Success?
  {
    var all := entries + added;
    assert forall k :: 0 <= k < |entries| ==> entries[k] == all[k];
    assert forall k :: 0 <= k < |entries| ==> UnreadableAt(entries, k) == UnreadableAt(all, k);
    var levels := NewLevelNumbers(entries).value;
    forall l | l in levels ensures l in NewLevelNumbers(all).value {
      var k :| 0 <= k < |entries| && NumberAt(entries, k, l);
      assert NumberAt(all, k, l);
    }
  }

  /** Removing the only file of an inserted level needs a rebuild. */
  lemma RemovedLevelRebuilds(levelsPath: string, entries: seq<LevelEntry>, oldLevels: set<nat>, l: nat)
    requires NewLevelNumbers(entries).Success? && l in oldLevels
    requires forall k :: 0 <= k < |entries| ==> entries[k].internalNumber != Some(l)
    ensures CheckProblematicLevelChanges(levelsPath, true, entries, oldLevels) == Failure(MustRebuild)
  {
  }

  /** A recorded configuration dependency: the variable's name, its value then, and its policy. */
  datatype ConfigurationDependency = ConfigurationDependency(
    configKeys: string,
    value: Configuration.ConfigValue,
    policy: ConfigVariables.Policy)

  /** The variable now holds another value than the one recorded. */
  predicate Changed(d: ConfigurationDependency, recorded: map<string, Configuration.ConfigValue>)
  {
    d.value != Configuration.GetByKey(recorded, d.configKeys)
  }

  /** A dependency of the given policy whose value changed. */
  predicate Triggers(d: ConfigurationDependency, policy: ConfigVariables.Policy, recorded: map<string, Configuration.ConfigValue>)
  {
    d.policy == policy && Changed(d, recorded)
  }

  /** Dependency i triggers for the policy and none before it does. */
  predicate FirstTriggeredAt(deps: seq<ConfigurationDependency>, policy: ConfigVariables.Policy,
                             recorded: map<string, Configuration.ConfigValue>, i: nat)
    requires i < |deps|
  {
    Triggers(deps[i], policy, recorded) && forall k :: 0 <= k < i ==> !Triggers(deps[k], policy, recorded)
  }

  /** The first dependency of the given policy whose value changed. */
  function FirstTriggered(deps: seq<ConfigurationDependency>, policy: ConfigVariables.Policy,
                          recorded: map<string, Configuration.ConfigValue>): (r: Option<nat>)
    ensures r.None? <==> forall k :: 0 <= k < |deps| ==> !Triggers(deps[k], policy, recorded)
    ensures r.Some? ==>
      && r.value < |deps|
      && Triggers(deps[r.value], policy, recorded)
      && forall k :: 0 <= k < r.value ==> !Triggers(deps[k], policy, recorded)
  {
    if |deps| == 0 then None
    else if Triggers(deps[0], policy, recorded) then Some(0)
    else
      assert forall k :: 1 <= k < |deps| ==> deps[k] == deps[1..][k - 1];
      match FirstTriggered(deps[1..], policy, recorded)
      case None => None
      case Some(i) => Some(i + 1)
  }

  /** checkReinsertConfigDependencies: the first reinsert-policy dependency whose value changed, if any. */
  function CheckReinsertConfigDependencies(deps: seq<ConfigurationDependency>, recorded: map<string, Configuration.ConfigValue>)
    : (r: Option<ConfigurationDependency>)
    ensures r.None? <==> forall k :: 0 <= k < |deps| ==> deps[k].policy != ConfigVariables.Reinsert || !Changed(deps[k], recorded)
    ensures r.Some? ==> exists i :: 0 <= i < |deps| && deps[i] == r.value && FirstTriggeredAt(deps, ConfigVariables.Reinsert, recorded, i)
  {
    match FirstTriggered(deps, ConfigVariables.Reinsert, recorded)
    case None => None
    case Some(i) => Some(deps[i])
  }

  /**
   * checkRebuildConfigDependencies: over every report entry's configuration
   * dependencies, a changed rebuild-policy value needs a rebuild.
   */
  function CheckRebuildConfigDependencies(entries: seq<seq<ConfigurationDependency>>, recorded: map<string, Configuration.ConfigValue>)
    : (r: Result<(), QuickBuildError>)
    ensures r.Success? <==> forall i, k :: 0 <= i < |entries| && 0 <= k < |entries[i]| ==> !Triggers(entries[i][k], ConfigVariables.Rebuild, recorded)
    ensures r.Failure? ==> r.error == MustRebuild
  {
    if |entries| == 0 then Success(())
    else
      assert forall i :: 1 <= i < |entries| ==> entries[i] == entries[1..][i - 1];
      if FirstTriggered(entries[0], ConfigVariables.Rebuild, recorded).Some? then Failure(MustRebuild)
      else CheckRebuildConfigDependencies(entries[1..], recorded)
  }

  /** A change to a reinsert-policy value never forces a rebuild. */
  lemma ReinsertChangesDoNotRebuild(entries: seq<seq<ConfigurationDependency>>, recorded: map<string, Configuration.ConfigValue>)
    requires forall i, k :: 0 <= i < |entries| && 0 <= k < |entries[i]| ==> entries[i][k].policy == ConfigVariables.Reinsert
    ensures CheckRebuildConfigDependencies(entries, recorded).Success?
  {
  }

  /** A recorded file dependency: the file, its write time then (None when it did not exist), and its policy. */
  datatype ResourceDependency = ResourceDependency(
    dependentPath: string,
    lastWriteTime: Option<nat>,
    policy: ConfigVariables.Policy)

  /** The file's write time now differs from the recorded one; `writeTime` reads the file system. */
  predicate Stale(d: ResourceDependency, writeTime: string -> Option<nat>)
  {
    writeTime(d.dependentPath) != d.lastWriteTime
  }

  /** A reinsert-policy file dependency that is stale. */
  predicate ReinsertStale(d: ResourceDependency, writeTime: string -> Option<nat>)
  {
    d.policy == ConfigVariables.Reinsert && Stale(d, writeTime)
  }

  /** Dependency i is a stale reinsert dependency and none before it is. */
  predicate FirstStaleAt(deps: seq<ResourceDependency>, writeTime: string -> Option<nat>, i: nat)
    requires i < |deps|
  {
    ReinsertStale(deps[i], writeTime) && forall k :: 0 <= k < i ==> !ReinsertStale(deps[k], writeTime)
  }

  /** checkReinsertResourceDependencies: the first reinsert-policy file dependency that is stale, if any. */
  function CheckReinsertResourceDependencies(deps: seq<ResourceDependency>, writeTime: string -> Option<nat>)
    : (r: Option<ResourceDependency>)
    ensures r.None? <==> forall k :: 0 <= k < |deps| ==> deps[k].policy != ConfigVariables.Reinsert || !Stale(deps[k], writeTime)
    ensures r.Some? ==> r.value in deps && r.value.policy == ConfigVariables.Reinsert && Stale(r.value, writeTime)
    ensures r.Some? ==> exists i :: 0 <= i < |deps| && deps[i] == r.value && FirstStaleAt(deps, writeTime, i)
  {
    if |deps| == 0 then None
    else if deps[0].policy == ConfigVariables.Reinsert && Stale(deps[0], writeTime) then
      assert FirstStaleAt(deps, writeTime, 0);
      Some(deps[0])
    else
      assert forall k :: 1 <= k < |deps| ==> deps[k] == deps[1..][k - 1];
      var r := CheckReinsertResourceDependencies(deps[1..], writeTime);
      if r.None? then r
      else
        var i :| 0 <= i < |deps[1..]| && deps[1..][i] == r.value && FirstStaleAt(deps[1..], writeTime, i);
        assert FirstStaleAt(deps, writeTime, i + 1);
        r
  }

  /**
   * checkRebuildResourceDependencies: from the report entry at `start` on,
   * a stale rebuild-policy file dependency needs a rebuild.
   */
  function CheckRebuildResourceDependencies(entries: seq<seq<ResourceDependency>>, start: nat, writeTime: string -> Option<nat>)
    : (r: Result<(), QuickBuildError>)
    requires start <= |entries|
    ensures r.Success? <==> forall i, k :: start <= i < |entries| && 0 <= k < |entries[i]| ==>
      entries[i][k].policy != ConfigVariables.Rebuild || !Stale(entries[i][k], writeTime)
    ensures r.Failure? ==> r.error == MustRebuild
    decreases |entries| - start
  {
    if start == |entries| then Success(())
    else if exists k :: 0 <= k < |entries[start]| && entries[start][k].policy == ConfigVariables.Rebuild && Stale(entries[start][k], writeTime)
    then Failure(MustRebuild)
    else CheckRebuildResourceDependencies(entries, start + 1, writeTime)
  }

  /** One hijack: a start address and a number of bytes written from it. */
  datatype Hijack = Hijack(address: nat, size: nat)

  /** Some hijack writes the byte at `a`. */
  predicate Covers(hijacks: seq<Hijack>, a: nat)
  {
    exists k :: 0 <= k < |hijacks| && hijacks[k].address <= a < hijacks[k].address + hijacks[k].size
  }

  lemma CoversPrefix(hijacks: seq<Hijack>, k: nat, a: nat)
    requires k < |hijacks|
    ensures Covers(hijacks[..k + 1], a) <==> Covers(hijacks[..k], a) || hijacks[k].address <= a < hijacks[k].address + hijacks[k].size
  {
    if Covers(hijacks[..k + 1], a) && !Covers(hijacks[..k], a) {
      var j :| 0 <= j < k + 1 && hijacks[..k + 1][j].address <= a < hijacks[..k + 1][j].address + hijacks[..k + 1][j].size;
    }
    if hijacks[k].address <= a < hijacks[k].address + hijacks[k].size {
      assert hijacks[..k + 1][k] == hijacks[k];
    }
    if Covers(hijacks[..k], a) {
      var j :| 0 <= j < k && hijacks[..k][j].address <= a < hijacks[..k][j].address + hijacks[..k][j].size;
      assert hijacks[..k + 1][j] == hijacks[..k][j];
    }
  }

  /** The addresses the hijacks write, collected byte by byte. */
  method WrittenAddresses(hijacks: seq<Hijack>) returns (written: set<nat>)
    ensures forall a :: a in written <==> Covers(hijacks, a)
  {
    written := {};
    for k := 0 to |hijacks|
      invariant forall a :: a in written <==> Covers(hijacks[..k], a)
    {
      var h := hijacks[k];
      for i := 0 to h.size
        invariant forall a: nat :: a in written <==> Covers(hijacks[..k], a) || h.address <= a < h.address + i
      {
        written := written + {h.address + i};
      }
      forall a ensures a in written <==> Covers(hijacks[..k + 1], a) {
        CoversPrefix(hijacks, k, a);
      }
    }
    assert hijacks[..|hijacks|] == hijacks;
  }

  /**
   * hijacksGoneBad: some byte an old hijack wrote is written by no new
   * hijack, so the old code would be left behind.
   */
  method HijacksGoneBad(oldHijacks: seq<Hijack>, newHijacks: seq<Hijack>) returns (bad: bool)
    ensures bad <==> exists a :: Covers(oldHijacks, a) && !Covers(newHijacks, a)
    ensures |oldHijacks| == 0 ==> !bad
    ensures oldHijacks == newHijacks ==> !bad
  {
    var written := WrittenAddresses(newHijacks);
    for k := 0 to |oldHijacks|
      invariant forall a :: Covers(oldHijacks[..k], a) ==> a in written
    {
      var h := oldHijacks[k];
      for i := 0 to h.size
        invariant forall a: nat :: Covers(oldHijacks[..k], a) || h.address <= a < h.address + i ==> a in written
      {
        if h.address + i !in written {
          assert oldHijacks[k].address <= h.address + i < oldHijacks[k].address + oldHijacks[k].size;
          assert Covers(oldHijacks, h.address + i);
          return true;
        }
      }
      forall a | Covers(oldHijacks[..k + 1], a) ensures a in written {
        CoversPrefix(oldHijacks, k, a);
      }
    }
    assert oldHijacks[..|oldHijacks|] == oldHijacks;
    return false;
  }
}
