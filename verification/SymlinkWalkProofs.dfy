/** The walk with symbolic links is a sound depth-first search: every canonical directory
    is listed at most once, only reachable directories are listed, and every edge from a
    listed directory is followed. */
module SymlinkWalkProofs {
  import opened Common
  import opened SymlinkWalk

  function Directories(visits: seq<Visit>): seq<string> {
    seq(|visits|, i requires 0 <= i < |visits| => visits[i].directory)
  }

  predicate NoDuplicates<T(==)>(s: seq<T>) {
    forall i, j :: 0 <= i < j < |s| ==> s[i] != s[j]
  }

  function Elements<T>(s: seq<T>): set<T> {
    set x | x in s
  }

  // ------------------------------------------------------ each directory only once

  /** The listed directories are pairwise distinct, and they are those the walk added
      to the visited set. */
  ghost predicate ListsOnce(r: Walk, before: set<string>) {
    && NoDuplicates(Directories(r.visits))
    && Elements(Directories(r.visits)) == r.visited - before
    && before <= r.visited
  }

  lemma ListsOnceThen(a: Walk, b: Walk, before: set<string>)
    requires ListsOnce(a, before) && ListsOnce(b, a.visited)
    ensures ListsOnce(Then(a, b), before)
  {
    var r := Then(a, b);
    var m := |a.visits|;
    assert Directories(r.visits) == Directories(a.visits) + Directories(b.visits);
    forall i, j | 0 <= i < j < |r.visits| ensures Directories(r.visits)[i] != Directories(r.visits)[j] {
      if i < m && j >= m {
        assert Directories(a.visits)[i] in Elements(Directories(a.visits));
        assert Directories(b.visits)[j - m] in Elements(Directories(b.visits));
      }
    }
    assert Elements(Directories(r.visits)) == Elements(Directories(a.visits)) + Elements(Directories(b.visits));
  }

  lemma {:induction false} DirectoryListsOnce(w: World, directory: string, path: Path, visited: set<string>)
    requires visited <= w.directories && directory in visited
    ensures ListsOnce(WalkDirectory(w, directory, path, visited), visited - {directory})
    decreases w.directories - visited, 2, 0
  {
    hide WalkEntries;
    var first := Walk([Visit(directory, path)], [], visited);
    assert Directories(first.visits) == [directory];
    match w.read(directory)
    case None =>
    case Some(entries) =>
      EntriesListOnce(w, entries, 0, path, visited);
      ListsOnceThen(first, WalkEntries(w, entries, 0, path, visited), visited - {directory});
  }

  lemma {:induction false} EntriesListOnce(w: World, entries: seq<Entry>, index: nat, path: Path, visited: set<string>)
    requires visited <= w.directories && index <= |entries|
    ensures ListsOnce(WalkEntries(w, entries, index, path, visited), visited)
    decreases w.directories - visited, 1, |entries| - index
  {
    hide WalkEntry;
    if index < |entries| {
      var one := WalkEntry(w, entries[index], path + [entries[index].name], visited);
      EntryListsOnce(w, entries[index], path + [entries[index].name], visited);
      assert w.directories - one.visited <= w.directories - visited;
      EntriesListOnce(w, entries, index + 1, path, one.visited);
      ListsOnceThen(one, WalkEntries(w, entries, index + 1, path, one.visited), visited);
    }
  }

  lemma {:induction false} EntryListsOnce(w: World, e: Entry, path: Path, visited: set<string>)
    requires visited <= w.directories && path != []
    ensures ListsOnce(WalkEntry(w, e, path, visited), visited)
    decreases w.directories - visited, 0, 0
  {
    hide WalkDirectory, Enters, Queues, Reports;
    var target := Enters(w, e, path);
    if target.Some? && target.value !in visited && target.value in w.directories {
      assert target.value in w.directories - visited;
      DirectoryListsOnce(w, target.value, path, visited + {target.value});
      var inner := WalkDirectory(w, target.value, path, visited + {target.value});
      assert visited + {target.value} - {target.value} == visited;
      assert [] + inner.visits == inner.visits;
    }
  }

  // ---------------------------------------------------------------- paths and edges

  function Parent(p: Path): Path
    requires p != []
  {
    p[..|p| - 1]
  }

  function Last(p: Path): Name
    requires p != []
  {
    p[|p| - 1]
  }

  /** The entry of a listing with a name, if there is one. */
  function Find(entries: seq<Entry>, name: Name): (r: Option<Entry>)
    ensures r.Some? ==> r.value in entries && r.value.name == name
    ensures r.None? ==> forall i :: 0 <= i < |entries| ==> entries[i].name != name
  {
    if entries == [] then None
    else if entries[0].name == name then Some(entries[0])
    else Find(entries[1..], name)
  }

  /** The directory a relative path leads to from the root, through entries that are not
      excluded, on the right file system, and resolvable. */
  function Resolve(w: World, path: Path): Option<string> {
    if path == [] then Some(w.root)
    else
      var parent := Resolve(w, path[..|path| - 1]);
      if parent.None? || w.read(parent.value).None? then None
      else
        var e := Find(w.read(parent.value).value, path[|path| - 1]);
        if e.None? then None else Enters(w, e.value, path)
  }

  // ------------------------------------------------- what leads where, as the tree has it

  /** Whether a device keeps to the file system of the root, if that is asked for. */
  predicate Stays(w: World, device: Option<nat>) {
    w.oneFileSystem ==> device == Some(w.rootDevice)
  }

  /** A subdirectory leads to itself and a link to the directory it resolves to. */
  predicate HoldsDirectory(node: Node, device: Option<nat>, directory: string) {
    node == Directory(device, directory) || node == Link(LinkDirectory(device, Some(directory)))
  }

  ghost predicate LeadsTo(w: World, node: Node, directory: string) {
    exists device: Option<nat> :: HoldsDirectory(node, device, directory) && Stays(w, device)
  }

  /** A step by an entry of a listing. */
  ghost predicate StepTo(w: World, from: string, name: Name, i: nat, directory: string) {
    w.read(from).Some? && i < |w.read(from).value| &&
    var e := w.read(from).value[i];
    e.name == name && LeadsTo(w, e.node, directory)
  }

  /** A relative path leads from the root to a directory, step by step, and nothing on it
      is excluded. */
  ghost predicate Way(w: World, path: Path, directory: string)
    decreases |path|
  {
    if path == [] then directory == w.root
    else
      && !IsExcluded(w, path)
      && exists from: string, i: nat ::
           Way(w, Parent(path), from) && StepTo(w, from, Last(path), i, directory)
  }

  ghost predicate Reachable(w: World, directory: string) {
    exists path :: Way(w, path, directory)
  }

  lemma EntersWhereItLeads(w: World, e: Entry, path: Path, directory: string)
    requires path != []
    ensures Enters(w, e, path) == Some(directory) <==> !IsExcluded(w, path) && LeadsTo(w, e.node, directory)
  {
    hide IsExcluded;
    match e.node
    case Directory(device, _) =>
      assert HoldsDirectory(e.node, device, directory) || Enters(w, e, path) != Some(directory);
    case Link(LinkDirectory(device, _)) =>
      assert HoldsDirectory(e.node, device, directory) || Enters(w, e, path) != Some(directory);
    case _ =>
  }

  lemma {:induction false} ResolvedStays(w: World, path: Path)
    requires Finite(w) && Resolve(w, path).Some?
    ensures Resolve(w, path).value in w.directories
    decreases |path|
  {
    hide IsExcluded;
    if path != [] {
      ResolvedStays(w, path[..|path| - 1]);
      var d := Resolve(w, path[..|path| - 1]).value;
      var e := Find(w.read(d).value, path[|path| - 1]).value;
      var j :| 0 <= j < |w.read(d).value| && w.read(d).value[j] == e;
      EntersStaysInside(w, d, j, path);
    }
  }

  lemma FoundByName(w: World, directory: string, i: nat)
    requires Finite(w) && directory in w.directories && w.read(directory).Some? && i < |w.read(directory).value|
    ensures
      var entries := w.read(directory).value;
      Find(entries, entries[i].name) == Some(entries[i])
  {
  }

  /** The ways of the tree are those the names resolve along. */
  lemma {:induction false} WaysResolve(w: World, path: Path, directory: string)
    requires Finite(w)
    ensures Way(w, path, directory) <==> Resolve(w, path) == Some(directory)
    decreases |path|
  {
    hide IsExcluded, Finite, LeadsTo, Enters;
    if path != [] {
      var up, name := Parent(path), Last(path);
      if Way(w, path, directory) {
        var from: string, i: nat :| Way(w, up, from) && StepTo(w, from, name, i, directory);
        WaysResolve(w, up, from);
        ResolvedStays(w, up);
        FoundByName(w, from, i);
        EntersWhereItLeads(w, w.read(from).value[i], path, directory);
      }
      if Resolve(w, path) == Some(directory) {
        var from := Resolve(w, up).value;
        WaysResolve(w, up, from);
        var e := Find(w.read(from).value, name).value;
        var i: nat :| i < |w.read(from).value| && w.read(from).value[i] == e;
        EntersWhereItLeads(w, e, path, directory);
        assert StepTo(w, from, name, i, directory);
      }
    }
  }

  lemma ReachableResolves(w: World, directory: string) returns (path: Path)
    requires Finite(w) && Reachable(w, directory)
    ensures Resolve(w, path) == Some(directory)
  {
    hide Resolve;
    path :| Way(w, path, directory);
    WaysResolve(w, path, directory);
  }

  lemma ResolvedIsReachable(w: World, path: Path)
    requires Finite(w) && Resolve(w, path).Some?
    ensures Reachable(w, Resolve(w, path).value)
  {
    hide Resolve;
    WaysResolve(w, path, Resolve(w, path).value);
  }

  /** An entry of a directory extends a path to it. */
  lemma ResolveStep(w: World, directory: string, path: Path, i: nat)
    requires Finite(w) && directory in w.directories && Resolve(w, path) == Some(directory)
    requires w.read(directory).Some? && i < |w.read(directory).value|
    ensures
      var e := w.read(directory).value[i];
      Resolve(w, path + [e.name]) == Enters(w, e, path + [e.name])
  {
  }

  /** Every listing was made under a path that leads to the directory listed. */
  ghost predicate ListsReachable(w: World, r: Walk) {
    forall i :: 0 <= i < |r.visits| ==> Resolve(w, r.visits[i].path) == Some(r.visits[i].directory)
  }

  lemma {:induction false} DirectoryListsReachable(w: World, directory: string, path: Path, visited: set<string>)
    requires Finite(w) && visited <= w.directories && directory in w.directories && Resolve(w, path) == Some(directory)
    ensures ListsReachable(w, WalkDirectory(w, directory, path, visited))
    decreases w.directories - visited, 2, 0
  {
    hide WalkEntries, Resolve;
    match w.read(directory)
    case None =>
    case Some(entries) => EntriesListReachable(w, directory, entries, 0, path, visited);
  }

  lemma {:induction false} EntriesListReachable(
    w: World, directory: string, entries: seq<Entry>, index: nat, path: Path, visited: set<string>)
    requires Finite(w) && visited <= w.directories && directory in w.directories && Resolve(w, path) == Some(directory)
    requires w.read(directory) == Some(entries) && index <= |entries|
    ensures ListsReachable(w, WalkEntries(w, entries, index, path, visited))
    decreases w.directories - visited, 1, |entries| - index
  {
    hide WalkEntry, Resolve, Enters;
    if index < |entries| {
      var e := entries[index];
      var one := WalkEntry(w, e, path + [e.name], visited);
      ResolveStep(w, directory, path, index);
      EntryListsReachable(w, e, path + [e.name], visited);
      assert w.directories - one.visited <= w.directories - visited;
      EntriesListReachable(w, directory, entries, index + 1, path, one.visited);
    }
  }

  lemma {:induction false} EntryListsReachable(w: World, e: Entry, path: Path, visited: set<string>)
    requires Finite(w) && visited <= w.directories && path != [] && Resolve(w, path) == Enters(w, e, path)
    ensures ListsReachable(w, WalkEntry(w, e, path, visited))
    decreases w.directories - visited, 0, 0
  {
    hide WalkDirectory, Enters, Queues, Reports, Resolve;
    var target := Enters(w, e, path);
    if target.Some? && target.value !in visited && target.value in w.directories {
      assert target.value in w.directories - visited;
      DirectoryListsReachable(w, target.value, path, visited + {target.value});
    }
  }

  // --------------------------------------------------------- every edge is followed

  /** Whatever can be entered from a listed directory, under the path it was listed by,
      ends up visited. */
  ghost predicate FollowsEdges(w: World, r: Walk) {
    forall i :: 0 <= i < |r.visits| ==> EdgesVisited(w, r.visits[i], r.visited)
  }

  ghost predicate EdgesVisited(w: World, v: Visit, visited: set<string>) {
    w.read(v.directory).Some? ==> TargetsIn(w, w.read(v.directory).value, 0, v.path, visited)
  }

  ghost predicate TargetsIn(w: World, entries: seq<Entry>, index: nat, path: Path, visited: set<string>) {
    forall j :: index <= j < |entries| ==> TargetIn(w, entries[j], path + [entries[j].name], visited)
  }

  predicate TargetIn(w: World, e: Entry, path: Path, visited: set<string>)
    requires path != []
  {
    Enters(w, e, path).Some? && Enters(w, e, path).value in w.directories ==> Enters(w, e, path).value in visited
  }

  lemma FollowsEdgesThen(w: World, a: Walk, b: Walk)
    requires FollowsEdges(w, a) && FollowsEdges(w, b) && a.visited <= b.visited
    ensures FollowsEdges(w, Then(a, b))
  {
  }

  lemma {:induction false} DirectoryFollowsEdges(w: World, directory: string, path: Path, visited: set<string>)
    requires visited <= w.directories
    ensures FollowsEdges(w, WalkDirectory(w, directory, path, visited))
    decreases w.directories - visited, 2, 0
  {
    hide WalkEntries, Enters;
    match w.read(directory)
    case None =>
    case Some(entries) =>
      EntriesFollowEdges(w, entries, 0, path, visited);
      var rest := WalkEntries(w, entries, 0, path, visited);
      var r := WalkDirectory(w, directory, path, visited);
      forall i | 0 <= i < |r.visits| ensures EdgesVisited(w, r.visits[i], r.visited) {
        if i > 0 {
          assert r.visits[i] == rest.visits[i - 1];
        }
      }
  }

  lemma {:induction false} EntriesFollowEdges(
    w: World, entries: seq<Entry>, index: nat, path: Path, visited: set<string>)
    requires visited <= w.directories && index <= |entries|
    ensures
      var r := WalkEntries(w, entries, index, path, visited);
      FollowsEdges(w, r) && TargetsIn(w, entries, index, path, r.visited)
    decreases w.directories - visited, 1, |entries| - index
  {
    hide WalkEntry, Enters;
    if index < |entries| {
      var e := entries[index];
      var one := WalkEntry(w, e, path + [e.name], visited);
      EntryFollowsEdges(w, e, path + [e.name], visited);
      assert w.directories - one.visited <= w.directories - visited;
      EntriesFollowEdges(w, entries, index + 1, path, one.visited);
      FollowsEdgesThen(w, one, WalkEntries(w, entries, index + 1, path, one.visited));
    }
  }

  lemma {:induction false} EntryFollowsEdges(w: World, e: Entry, path: Path, visited: set<string>)
    requires visited <= w.directories && path != []
    ensures var r := WalkEntry(w, e, path, visited); FollowsEdges(w, r) && TargetIn(w, e, path, r.visited)
    decreases w.directories - visited, 0, 0
  {
    hide WalkDirectory, Enters, Queues, Reports;
    var target := Enters(w, e, path);
    if target.Some? && target.value !in visited && target.value in w.directories {
      assert target.value in w.directories - visited;
      DirectoryFollowsEdges(w, target.value, path, visited + {target.value});
      var inner := WalkDirectory(w, target.value, path, visited + {target.value});
      assert [] + inner.visits == inner.visits;
    }
  }

  // ------------------------------------------------------------------ reachability

  /** No exclude pattern looks at more than a name. */
  predicate NamePatterns(w: World) {
    forall pattern <- w.patterns :: '/' !in pattern
  }

  lemma EntersStaysInside(w: World, directory: string, j: nat, path: Path)
    requires Finite(w) && directory in w.directories && path != []
    requires w.read(directory).Some? && j < |w.read(directory).value|
    ensures
      var e := w.read(directory).value[j];
      Enters(w, e, path).Some? ==> Enters(w, e, path).value in w.directories
  {
  }

  /** The listing of a visited directory. */
  lemma ListingOf(w: World, directory: string) returns (v: Visit)
    requires Finite(w) && directory in WalkFromRoot(w).visited
    ensures v in WalkFromRoot(w).visits && v.directory == directory
  {
    hide WalkDirectory;
    var r := WalkFromRoot(w);
    DirectoryListsOnce(w, w.root, [], {w.root});
    assert {w.root} - {w.root} == {};
    assert directory in Elements(Directories(r.visits));
    var i :| 0 <= i < |r.visits| && Directories(r.visits)[i] == directory;
    v := r.visits[i];
  }

  /** Over any finite tree, cyclic or not, readable or not: the walk lists no canonical
      directory twice, lists exactly the visited ones, and lists only directories a
      non-excluded path leads to. */
  lemma WalkIsSound(w: World)
    requires Finite(w)
    ensures
      var r := WalkFromRoot(w);
      && NoDuplicates(Directories(r.visits))
      && Elements(Directories(r.visits)) == r.visited
      && forall d <- r.visited :: Reachable(w, d)
  {
    hide WalkDirectory, Resolve;
    var r := WalkFromRoot(w);
    DirectoryListsOnce(w, w.root, [], {w.root});
    assert {w.root} - {w.root} == {};
    assert r.visited - {} == r.visited;
    RootResolves(w);
    DirectoryListsReachable(w, w.root, [], {w.root});
    forall d <- r.visited ensures Reachable(w, d) {
      var v := ListingOf(w, d);
      assert Resolve(w, v.path) == Some(d);
      ResolvedIsReachable(w, v.path);
    }
  }

  lemma RootResolves(w: World)
    ensures Resolve(w, []) == Some(w.root)
  {
  }
}
