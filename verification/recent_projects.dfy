/**
 * The most-recently-used project list: at most nine projects, the latest
 * first. A project is identified by its name, executable and root; when it
 * was last opened does not take part in equality. The file the list is kept
 * in, and which paths exist, are passed in as data.
 */
module RecentProjects {
  import opened Wrappers
  import opened Paths

  datatype Project = Project(name: string, executable: Path, root: Path, lastAccessed: int)

  const MaxEntries: nat := 9

  /** Project::operator==: everything but the access time. */
  predicate SameProject(a: Project, b: Project)
  {
    a.name == b.name && a.executable == b.executable && a.root == b.root
  }

  /** Touching a project does not make it a different project. */
  lemma SameAfterTouch(p: Project, t: int)
    ensures SameProject(p, p.(lastAccessed := t))
    ensures SameProject(p.(lastAccessed := t), p)
  {
  }

  /** The constructor: the name is the stem of the root folder, opened now. */
  function NewProject(executable: Path, root: Path, now: int): (p: Project)
    ensures p.name == Stem(FileName(root)) && p.executable == executable && p.root == root && p.lastAccessed == now
  {
    Project(Stem(FileName(root)), executable, root, now)
  }

  /** No project is listed twice. */
  predicate NoDuplicates(ps: seq<Project>)
  {
    forall i, j :: 0 <= i < j < |ps| ==> !SameProject(ps[i], ps[j])
  }

  /** The first index holding the same project as p (std::find with operator==). */
  function FindProject(ps: seq<Project>, p: Project): (r: Option<nat>)
    ensures r.Some? ==> r.value < |ps| && SameProject(ps[r.value], p)
    ensures r.Some? ==> forall j :: 0 <= j < r.value ==> !SameProject(ps[j], p)
    ensures r.None? ==> forall j :: 0 <= j < |ps| ==> !SameProject(ps[j], p)
  {
    if |ps| == 0 then None
    else if SameProject(ps[0], p) then Some(0)
    else match FindProject(ps[1..], p)
      case None => None
      case Some(k) => Some(k + 1)
  }

  /** The list without any entry for p. */
  function Without(ps: seq<Project>, p: Project): (r: seq<Project>)
    ensures |r| <= |ps|
  {
    if |ps| == 0 then []
    else (if SameProject(ps[0], p) then [] else [ps[0]]) + Without(ps[1..], p)
  }

  function Take(ps: seq<Project>, n: nat): (r: seq<Project>)
    ensures |r| <= n && |r| <= |ps| && (|ps| <= n ==> r == ps)
    ensures |r| == (if |ps| <= n then |ps| else n) && r == ps[..|r|]
  {
    if |ps| <= n then ps else ps[..n]
  }

  /**
   * update, after the list has been reloaded: a listed project is touched
   * and rotated to the front; a new one is put in front and the tenth entry
   * dropped.
   */
  function Update(ps: seq<Project>, executable: Path, root: Path, now: int): (r: seq<Project>)
    ensures |r| >= 1 && r[0] == NewProject(executable, root, now)
    ensures |ps| <= MaxEntries ==> |r| <= MaxEntries
  {
    Bring(ps, NewProject(executable, root, now))
  }

  /** The list after p has been opened: the listed entry touched and rotated, or p inserted. */
  function Bring(ps: seq<Project>, p: Project): (r: seq<Project>)
    ensures |r| >= 1 && r[0] == p.(lastAccessed := p.lastAccessed)
    ensures |ps| <= MaxEntries ==> |r| <= MaxEntries
  {
    match FindProject(ps, p)
    case Some(i) => [ps[i].(lastAccessed := p.lastAccessed)] + ps[..i] + ps[i + 1..]
    case None =>
      var l := [p] + ps;
      if |l| == MaxEntries + 1 then l[..MaxEntries] else l
  }

  /** Without on a list that holds p exactly once, at index i, removes just that entry. */
  lemma {:induction false} WithoutSingle(ps: seq<Project>, p: Project, i: nat)
    requires i < |ps| && SameProject(ps[i], p)
    requires forall j :: 0 <= j < |ps| && j != i ==> !SameProject(ps[j], p)
    ensures Without(ps, p) == ps[..i] + ps[i + 1..]
  {
    if i == 0 {
      WithoutAbsent(ps[1..], p);
      assert ps[1..] == ps[..0] + ps[1..];
    } else {
      assert !SameProject(ps[0], p);
      WithoutSingle(ps[1..], p, i - 1);
      assert ps[..i] == [ps[0]] + ps[1..][..i - 1];
      assert ps[i + 1..] == ps[1..][i..];
    }
  }

  /** Without on a list that does not hold p changes nothing. */
  lemma {:induction false} WithoutAbsent(ps: seq<Project>, p: Project)
    requires forall j :: 0 <= j < |ps| ==> !SameProject(ps[j], p)
    ensures Without(ps, p) == ps
  {
    if |ps| > 0 {
      WithoutAbsent(ps[1..], p);
    }
  }

  /** In a list without duplicates, only index i holds the project found there. */
  lemma OnlyAt(ps: seq<Project>, p: Project, i: nat)
    requires NoDuplicates(ps) && i < |ps| && SameProject(ps[i], p)
    ensures forall j :: 0 <= j < |ps| && j != i ==> !SameProject(ps[j], p)
  {
    forall j | 0 <= j < |ps| && j != i
      ensures !SameProject(ps[j], p)
    {
      if j < i {
        assert !SameProject(ps[j], ps[i]);
      } else {
        assert !SameProject(ps[i], ps[j]);
      }
    }
  }

  /** The other members of Without's result are the list's members other than p. */
  lemma {:induction false} WithoutMembers(ps: seq<Project>, p: Project, q: Project)
    requires q in Without(ps, p)
    ensures q in ps && !SameProject(q, p)
  {
    if |ps| > 0 {
      if q != ps[0] || SameProject(ps[0], p) {
        assert q in Without(ps[1..], p);
        WithoutMembers(ps[1..], p, q);
      }
    }
  }

  /**
   * For a list of at most nine distinct projects, update is: the project in
   * front, then the others in their old order, cut to nine.
   */
  lemma UpdateIsMoveToFront(ps: seq<Project>, executable: Path, root: Path, now: int)
    requires |ps| <= MaxEntries && NoDuplicates(ps)
    ensures var p := NewProject(executable, root, now);
      Update(ps, executable, root, now) == Take([p] + Without(ps, p), MaxEntries)
  {
    BringIsMoveToFront(ps, NewProject(executable, root, now));
  }

  lemma BringIsMoveToFront(ps: seq<Project>, p: Project)
    requires |ps| <= MaxEntries && NoDuplicates(ps)
    ensures Bring(ps, p) == Take([p] + Without(ps, p), MaxEntries)
  {
    var found := FindProject(ps, p);
    if found.Some? {
      var i := found.value;
      OnlyAt(ps, p, i);
      WithoutSingle(ps, p, i);
      assert ps[i].(lastAccessed := p.lastAccessed) == p;
      assert Bring(ps, p) == [p] + (ps[..i] + ps[i + 1..]);
    } else {
      WithoutAbsent(ps, p);
    }
  }

  /** update keeps the list free of duplicates. */
  lemma UpdateNoDuplicates(ps: seq<Project>, executable: Path, root: Path, now: int)
    requires |ps| <= MaxEntries && NoDuplicates(ps)
    ensures NoDuplicates(Update(ps, executable, root, now))
  {
    var p := NewProject(executable, root, now);
    BringIsMoveToFront(ps, p);
    BringNoDuplicates(ps, p);
  }

  lemma BringNoDuplicates(ps: seq<Project>, p: Project)
    requires |ps| <= MaxEntries && NoDuplicates(ps)
    ensures NoDuplicates(Take([p] + Without(ps, p), MaxEntries))
  {
    WithoutNoDuplicates(ps, p);
    var w := Without(ps, p);
    var l := [p] + w;
    assert NoDuplicates(l) by {
      forall i, j | 0 <= i < j < |l|
        ensures !SameProject(l[i], l[j])
      {
        assert l[j] == w[j - 1];
        if i > 0 {
          assert l[i] == w[i - 1];
        } else {
          WithoutMembers(ps, p, w[j - 1]);
        }
      }
    }
    assert |l| <= MaxEntries + 1;
  }

  /** Without keeps a list free of duplicates. */
  lemma {:induction false} WithoutNoDuplicates(ps: seq<Project>, p: Project)
    requires NoDuplicates(ps)
    ensures NoDuplicates(Without(ps, p))
  {
    if |ps| > 0 {
      WithoutNoDuplicates(ps[1..], p);
      var rest := Without(ps[1..], p);
      if !SameProject(ps[0], p) {
        var l := [ps[0]] + rest;
        forall i, j | 0 <= i < j < |l|
          ensures !SameProject(l[i], l[j])
        {
          if i == 0 {
            WithoutMembers(ps[1..], p, l[j]);
            var k :| 0 <= k < |ps[1..]| && ps[1..][k] == l[j];
            assert ps[k + 1] == l[j];
          } else {
            assert l[i] == rest[i - 1] && l[j] == rest[j - 1];
          }
        }
      }
    }
  }

  /** What the recent-projects file holds when the list is reloaded. */
  datatype RecentFile = NoFile | Unreadable | Listed(entries: seq<Project>)

  datatype RecentError = RecentFileUnreadable

  /** A project whose root and executable both still exist. */
  predicate Exists(p: Project, existing: set<Path>)
  {
    p.root in existing && p.executable in existing
  }

  /** removeInvalidProjects: drop projects whose root or executable is gone. */
  function RemoveInvalid(ps: seq<Project>, existing: set<Path>): (r: seq<Project>)
    ensures |r| <= |ps|
    ensures forall q :: q in r ==> q in ps && Exists(q, existing)
    ensures forall q :: q in ps && Exists(q, existing) ==> q in r
  {
    if |ps| == 0 then []
    else (if Exists(ps[0], existing) then [ps[0]] else []) + RemoveInvalid(ps[1..], existing)
  }

  /** erase_if keeps the order: a list split in two is filtered part by part. */
  lemma {:induction false} RemoveInvalidAppend(a: seq<Project>, b: seq<Project>, existing: set<Path>)
    ensures RemoveInvalid(a + b, existing) == RemoveInvalid(a, existing) + RemoveInvalid(b, existing)
  {
    hide RemoveInvalid;
    if |a| == 0 {
      assert a + b == b;
      assert RemoveInvalid(a, existing) == [];
    } else {
      RemoveInvalidAppend(a[1..], b, existing);
      assert (a + b)[0] == a[0];
      assert (a + b)[1..] == a[1..] + b;
      RemoveInvalidStep(a, existing);
      RemoveInvalidStep(a + b, existing);
      var head := if Exists(a[0], existing) then [a[0]] else [];
      var x, y := RemoveInvalid(a[1..], existing), RemoveInvalid(b, existing);
      assert RemoveInvalid(a + b, existing) == head + (x + y);
      assert head + (x + y) == (head + x) + y;
    }
  }

  lemma RemoveInvalidStep(ps: seq<Project>, existing: set<Path>)
    requires |ps| > 0
    ensures RemoveInvalid(ps, existing) == (if Exists(ps[0], existing) then [ps[0]] else []) + RemoveInvalid(ps[1..], existing)
  {
  }

  /** A list whose projects all still exist is kept whole. */
  lemma {:induction false} RemoveInvalidKeepsExisting(ps: seq<Project>, existing: set<Path>)
    requires forall k :: 0 <= k < |ps| ==> Exists(ps[k], existing)
    ensures RemoveInvalid(ps, existing) == ps
  {
    if |ps| > 0 {
      assert forall k :: 1 <= k < |ps| ==> ps[k] == ps[1..][k - 1];
      RemoveInvalidKeepsExisting(ps[1..], existing);
      assert [ps[0]] + ps[1..] == ps;
    }
  }

  /**
   * reloadList as written: the loop runs over `j["recent_projects"].array()`,
   * which calls the static json::array() and so visits an empty array.
   */
  function ReloadListAsWritten(file: RecentFile, existing: set<Path>): (r: Result<seq<Project>, RecentError>)
    ensures file.Unreadable? <==> r.Failure?
  {
    match file
    case NoFile => Success(RemoveInvalid([], existing))
    case Unreadable => Failure(RecentFileUnreadable)
    case Listed(_) => Success(RemoveInvalid(Take([], MaxEntries), existing))
  }

  /** Whatever the file lists, the list as written reloads empty. */
  lemma ReloadAsWrittenForgets(file: RecentFile, existing: set<Path>)
    requires !file.Unreadable?
    ensures ReloadListAsWritten(file, existing) == Success([])
  {
  }

  /** reloadList as intended: the first nine listed projects that still exist. */
  function ReloadList(file: RecentFile, existing: set<Path>): (r: Result<seq<Project>, RecentError>)
    ensures file.Unreadable? <==> r.Failure?
    ensures file.NoFile? ==> r == Success([])
    ensures r.Success? ==> |r.value| <= MaxEntries && forall q :: q in r.value ==> Exists(q, existing)
    ensures file.Listed? ==> forall k :: 0 <= k < |file.entries| && k < MaxEntries && Exists(file.entries[k], existing) ==> file.entries[k] in r.value
    ensures file.Listed? ==> r == Success(RemoveInvalid(Take(file.entries, MaxEntries), existing))
  {
    match file
    case NoFile => Success(RemoveInvalid([], existing))
    case Unreadable => Failure(RecentFileUnreadable)
    case Listed(entries) =>
      var t := Take(entries, MaxEntries);
      assert forall k :: 0 <= k < |entries| && k < MaxEntries ==> entries[k] == t[k];
      Success(RemoveInvalid(t, existing))
  }

  /**
   * Reloading keeps file order: when every listed project still exists the
   * list reloads as the file's first nine entries, and a file split in two
   * within the first nine reloads as the two parts' projects one after the other.
   */
  lemma ReloadListInFileOrder(entries: seq<Project>, a: seq<Project>, b: seq<Project>, existing: set<Path>)
    ensures (forall k :: 0 <= k < |entries| ==> Exists(entries[k], existing)) ==>
      ReloadList(Listed(entries), existing) == Success(entries[..if |entries| <= MaxEntries then |entries| else MaxEntries])
    ensures |a + b| <= MaxEntries ==>
      ReloadList(Listed(a + b), existing) == Success(RemoveInvalid(a, existing) + RemoveInvalid(b, existing))
  {
    var t := Take(entries, MaxEntries);
    if forall k :: 0 <= k < |entries| ==> Exists(entries[k], existing) {
      assert forall k :: 0 <= k < |t| ==> t[k] == entries[k];
      RemoveInvalidKeepsExisting(t, existing);
    }
    RemoveInvalidAppend(a, b, existing);
  }

  /** A file listing one existing project: as written it is lost, as intended it is kept. */
  lemma ReloadLosesListedProject(p: Project)
    ensures ReloadListAsWritten(Listed([p]), {p.root, p.executable}) == Success([])
    ensures ReloadList(Listed([p]), {p.root, p.executable}) == Success([p])
  {
    var e := {p.root, p.executable};
    assert Exists(p, e);
    assert Take([p], MaxEntries) == [p];
    assert [p][1..] == [];
    assert RemoveInvalid([p], e) == [p] + RemoveInvalid([], e);
    assert RemoveInvalid([p], e) == [p];
    assert ReloadList(Listed([p]), e) == Success(RemoveInvalid(Take([p], MaxEntries), e));
  }

  /** The whole update: reload, then move the project to the front. */
  function UpdateList(file: RecentFile, existing: set<Path>, executable: Path, root: Path, now: int): (r: Result<seq<Project>, RecentError>)
    ensures file.Unreadable? <==> r.Failure?
    ensures r.Success? ==> 1 <= |r.value| <= MaxEntries && r.value[0] == NewProject(executable, root, now)
  {
    match ReloadList(file, existing)
    case Failure(e) => Failure(e)
    case Success(ps) => Success(Update(ps, executable, root, now))
  }
}
