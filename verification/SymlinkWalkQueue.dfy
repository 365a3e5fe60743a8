/** What the walk with symbolic links queues and reports: every wanted file of every
    directory it lists and everything that goes wrong there, each once, under paths whose
    joined texts differ. */
module SymlinkWalkQueue {
  import opened Common
  import opened SymlinkWalk
  import opened SymlinkWalkOrder
  import opened SymlinkWalkProofs

  // -------------------------------------------------- what is to be found, by the entries

  /** A regular file, or a link to one. */
  predicate HoldsFile(node: Node, device: Option<nat>) {
    node == File(device) || node == Link(LinkFile(device))
  }

  /** A wanted file on the right file system that no pattern excludes. */
  ghost predicate WantedFile(w: World, e: Entry, path: Path)
    requires path != []
  {
    && !IsExcluded(w, path) && w.wanted(e.name)
    && exists device: Option<nat> :: HoldsFile(e.node, device) && Stays(w, device)
  }

  /** An entry whose file system has to be known, and is not. */
  predicate FileSystemUnknown(w: World, e: Entry) {
    w.oneFileSystem &&
    match e.node
    case File(device) => w.wanted(e.name) && device.None?
    case Directory(device, _) => device.None?
    case Link(LinkFile(device)) => device.None?
    case Link(LinkSpecial(device)) => device.None?
    case Link(LinkDirectory(device, _)) => device.None?
    case _ => false
  }

  /** A broken link, a link to a directory that does not resolve, or an unknown file
      system, where no pattern excludes it. */
  ghost predicate Faulty(w: World, e: Entry, path: Path)
    requires path != []
  {
    && !IsExcluded(w, path)
    && (e.node == Link(Broken) || FileSystemUnknown(w, e)
        || exists device: Option<nat> :: e.node == Link(LinkDirectory(device, None)) && Stays(w, device))
  }

  lemma QueuesWantedFiles(w: World, e: Entry, path: Path)
    requires path != []
    ensures Queues(w, e, path) <==> WantedFile(w, e, path)
  {
    hide IsExcluded;
    match e.node
    case File(device) => assert HoldsFile(e.node, device);
    case Link(LinkFile(device)) => assert HoldsFile(e.node, device);
    case _ =>
  }

  lemma ReportsFaults(w: World, e: Entry, path: Path)
    requires path != []
    ensures Reports(w, e, path) <==> Faulty(w, e, path)
  {
    hide IsExcluded;
  }

  /** What some tasks are about, queued or reported. */
  ghost predicate Holds(w: World, e: Entry, found: Found)
    requires found.path != []
  {
    match found
    case Queue(path) => WantedFile(w, e, path)
    case Report(path) => Faulty(w, e, path)
  }

  /** A listing from an index on calls for a task. */
  ghost predicate FromListing(w: World, entries: seq<Entry>, index: nat, path: Path, found: Found) {
    exists j :: index <= j < |entries| && found.path == path + [entries[j].name] && Holds(w, entries[j], found)
  }

  /** A directory under a path: it cannot be read, or its listing calls for the task. */
  ghost predicate FromVisit(w: World, v: Visit, found: Found) {
    if w.read(v.directory).None? then found == Report(v.path)
    else FromListing(w, w.read(v.directory).value, 0, v.path, found)
  }

  ghost predicate FromVisits(w: World, visits: seq<Visit>, found: Found) {
    exists i :: 0 <= i < |visits| && FromVisit(w, visits[i], found)
  }

  lemma FromVisitsConcat(w: World, a: seq<Visit>, b: seq<Visit>, found: Found)
    ensures FromVisits(w, a + b, found) <==> FromVisits(w, a, found) || FromVisits(w, b, found)
  {
    hide FromVisit;
    if FromVisits(w, a, found) {
      var i :| 0 <= i < |a| && FromVisit(w, a[i], found);
      assert (a + b)[i] == a[i];
    }
    if FromVisits(w, b, found) {
      var i :| 0 <= i < |b| && FromVisit(w, b[i], found);
      assert (a + b)[|a| + i] == b[i];
    }
  }

  // -------------------------------------------------------- which tasks the walk makes

  lemma {:induction false} DirectoryFinds(w: World, directory: string, path: Path, visited: set<string>, found: Found)
    requires visited <= w.directories
    ensures
      var r := WalkDirectory(w, directory, path, visited);
      found in r.tasks <==> FromVisits(w, r.visits, found)
    decreases w.directories - visited, 2, 0
  {
    hide WalkEntries, Holds;
    var r := WalkDirectory(w, directory, path, visited);
    var here := Visit(directory, path);
    assert FromVisits(w, [here], found) <==> FromVisit(w, here, found) by {
      assert [here][0] == here;
    }
    match w.read(directory)
    case None =>
    case Some(entries) =>
      var rest := WalkEntries(w, entries, 0, path, visited);
      EntriesFind(w, entries, 0, path, visited, found);
      assert [] + rest.tasks == rest.tasks;
      FromVisitsConcat(w, [here], rest.visits, found);
  }

  lemma {:induction false} EntriesFind(
    w: World, entries: seq<Entry>, index: nat, path: Path, visited: set<string>, found: Found)
    requires visited <= w.directories && index <= |entries|
    ensures
      var r := WalkEntries(w, entries, index, path, visited);
      found in r.tasks <==> FromListing(w, entries, index, path, found) || FromVisits(w, r.visits, found)
    decreases w.directories - visited, 1, |entries| - index
  {
    hide WalkEntry, Holds, FromVisit;
    if index < |entries| {
      var e := entries[index];
      var one := WalkEntry(w, e, path + [e.name], visited);
      var rest := WalkEntries(w, entries, index + 1, path, one.visited);
      EntryFinds(w, e, path + [e.name], visited, found);
      assert w.directories - one.visited <= w.directories - visited;
      EntriesFind(w, entries, index + 1, path, one.visited, found);
      FromVisitsConcat(w, one.visits, rest.visits, found);
      FirstOrLater(w, entries, index, path, found);
    }
  }

  lemma FirstOrLater(w: World, entries: seq<Entry>, index: nat, path: Path, found: Found)
    requires index < |entries|
    ensures
      FromListing(w, entries, index, path, found) <==>
        (found.path == path + [entries[index].name] && Holds(w, entries[index], found))
        || FromListing(w, entries, index + 1, path, found)
  {
    hide Holds;
  }

  lemma {:induction false} EntryFinds(w: World, e: Entry, path: Path, visited: set<string>, found: Found)
    requires visited <= w.directories && path != []
    ensures
      var r := WalkEntry(w, e, path, visited);
      found in r.tasks <==> (found.path == path && Holds(w, e, found)) || FromVisits(w, r.visits, found)
    decreases w.directories - visited, 0, 0
  {
    hide WalkDirectory, Enters, Queues, Reports, WantedFile, Faulty;
    QueuesWantedFiles(w, e, path);
    ReportsFaults(w, e, path);
    QueuesOrReports(w, e, path);
    var target := Enters(w, e, path);
    if target.Some? && target.value !in visited && target.value in w.directories {
      assert target.value in w.directories - visited;
      DirectoryFinds(w, target.value, path, visited + {target.value}, found);
      var inner := WalkDirectory(w, target.value, path, visited + {target.value});
      assert [] + inner.visits == inner.visits;
    }
  }

  lemma QueuesOrReports(w: World, e: Entry, path: Path)
    requires path != []
    ensures !(Queues(w, e, path) && Reports(w, e, path))
  {
    hide IsExcluded;
  }

  /** The paths queued by some tasks. */
  function Queued(tasks: seq<Found>): seq<Path> {
    if tasks == [] then []
    else if tasks[0].Queue? then [tasks[0].path] + Queued(tasks[1..])
    else Queued(tasks[1..])
  }

  lemma {:induction false} QueuedInTasks(tasks: seq<Found>, p: Path)
    ensures p in Queued(tasks) <==> Queue(p) in tasks
  {
    if tasks != [] {
      QueuedInTasks(tasks[1..], p);
      assert tasks == [tasks[0]] + tasks[1..];
    }
  }

  // -------------------------------------------------------------- each of them once

  /** The paths something was found under, queued or reported. */
  function Paths(found: seq<Found>): (r: seq<Path>)
    ensures |r| == |found| && forall i :: 0 <= i < |r| ==> r[i] == found[i].path
  {
    seq(|found|, i requires 0 <= i < |found| => found[i].path)
  }

  lemma PathsConcat(a: seq<Found>, b: seq<Found>)
    ensures Paths(a + b) == Paths(a) + Paths(b)
  {
  }

  predicate AllBelow(paths: seq<Path>, prefix: Path) {
    forall i :: 0 <= i < |paths| ==> prefix <= paths[i]
  }

  predicate RealPaths(paths: seq<Path>) {
    forall i :: 0 <= i < |paths| ==> RealPath(paths[i])
  }

  /** The path continues through an entry from an index on. */
  ghost predicate BelowSome(p: Path, entries: seq<Entry>, index: nat, path: Path) {
    exists j :: index <= j < |entries| && path + [entries[j].name] <= p
  }

  ghost predicate BelowEntries(paths: seq<Path>, entries: seq<Entry>, index: nat, path: Path) {
    forall i :: 0 <= i < |paths| ==> BelowSome(paths[i], entries, index, path)
  }

  lemma {:induction false} DirectoryFindsOnce(w: World, directory: string, path: Path, visited: set<string>)
    requires Finite(w) && visited <= w.directories && directory in w.directories
    ensures
      var p := Paths(WalkDirectory(w, directory, path, visited).tasks);
      && NoDuplicates(p) && AllBelow(p, path) && (p == [path] || forall i :: 0 <= i < |p| ==> p[i] != path)
      && (Genuine(w) && RealPath(path) ==> RealPaths(p))
    decreases w.directories - visited, 2, 0
  {
    hide WalkEntries, RealName;
    match w.read(directory)
    case None => assert Paths([Report(path)]) == [path];
    case Some(entries) =>
      EntriesFindOnce(w, entries, 0, path, visited);
      var rest := WalkEntries(w, entries, 0, path, visited);
      assert [] + rest.tasks == rest.tasks;
      var p := Paths(rest.tasks);
      forall i | 0 <= i < |p| ensures path <= p[i] && p[i] != path {
        assert BelowSome(p[i], entries, 0, path);
        var j :| 0 <= j < |entries| && path + [entries[j].name] <= p[i];
        assert path <= path + [entries[j].name];
      }
  }

  lemma {:induction false} EntriesFindOnce(w: World, entries: seq<Entry>, index: nat, path: Path, visited: set<string>)
    requires Finite(w) && visited <= w.directories && index <= |entries| && DistinctNames(entries)
    requires forall i :: 0 <= i < |entries| && Leads(entries[i].node).Some? ==>
               Leads(entries[i].node).value in w.directories
    ensures
      var p := Paths(WalkEntries(w, entries, index, path, visited).tasks);
      && NoDuplicates(p) && BelowEntries(p, entries, index, path)
      && (Genuine(w) && RealListing(entries) && RealPath(path) ==> RealPaths(p))
    decreases w.directories - visited, 1, |entries| - index
  {
    hide WalkEntry, Finite, Genuine, RealName, Sorted;
    if index < |entries| {
      var e := entries[index];
      var one := WalkEntry(w, e, path + [e.name], visited);
      var rest := WalkEntries(w, entries, index + 1, path, one.visited);
      EntryFindsOnce(w, e, path + [e.name], visited);
      assert w.directories - one.visited <= w.directories - visited;
      EntriesFindOnce(w, entries, index + 1, path, one.visited);
      PathsConcat(one.tasks, rest.tasks);
      BranchesDiffer(Paths(one.tasks), Paths(rest.tasks), entries, index, path);
    }
  }

  /** Paths through different entries of one listing are different. */
  lemma BranchesDiffer(a: seq<Path>, b: seq<Path>, entries: seq<Entry>, index: nat, path: Path)
    requires index < |entries| && DistinctNames(entries)
    requires NoDuplicates(a) && AllBelow(a, path + [entries[index].name])
    requires NoDuplicates(b) && BelowEntries(b, entries, index + 1, path)
    ensures NoDuplicates(a + b) && BelowEntries(a + b, entries, index, path)
  {
    var n := |path|;
    forall i, k | 0 <= i < |a| && 0 <= k < |b| ensures a[i] != b[k] {
      assert BelowSome(b[k], entries, index + 1, path);
      var j :| index + 1 <= j < |entries| && path + [entries[j].name] <= b[k];
      assert (path + [entries[index].name])[n] == a[i][n];
      assert (path + [entries[j].name])[n] == b[k][n];
    }
    forall i | 0 <= i < |a + b| ensures BelowSome((a + b)[i], entries, index, path) {
      if i < |a| {
        assert path + [entries[index].name] <= (a + b)[i];
      } else {
        assert BelowSome(b[i - |a|], entries, index + 1, path);
        var j :| index + 1 <= j < |entries| && path + [entries[j].name] <= b[i - |a|];
        assert path + [entries[j].name] <= (a + b)[i];
      }
    }
  }

  lemma {:induction false} EntryFindsOnce(w: World, e: Entry, path: Path, visited: set<string>)
    requires Finite(w) && visited <= w.directories && path != []
    requires Leads(e.node).Some? ==> Leads(e.node).value in w.directories
    ensures
      var p := Paths(WalkEntry(w, e, path, visited).tasks);
      NoDuplicates(p) && AllBelow(p, path) && (Genuine(w) && RealPath(path) ==> RealPaths(p))
    decreases w.directories - visited, 0, 0
  {
    hide WalkDirectory, Finite, Genuine, RealName, IsExcluded;
    var target := Enters(w, e, path);
    if target.Some? && target.value !in visited && target.value in w.directories {
      assert target.value in w.directories - visited;
      DirectoryFindsOnce(w, target.value, path, visited + {target.value});
      var inner := WalkDirectory(w, target.value, path, visited + {target.value});
      assert !Queues(w, e, path) && !Reports(w, e, path);
      assert [] + inner.tasks == inner.tasks;
    }
  }

  lemma {:induction false} QueuedAmongPaths(found: seq<Found>)
    requires NoDuplicates(Paths(found))
    ensures NoDuplicates(Queued(found))
    ensures forall p :: p in Queued(found) ==> p in Paths(found)
  {
    if found != [] {
      var rest := found[1..];
      assert Paths(found) == [found[0].path] + Paths(rest);
      assert forall i :: 0 <= i < |rest| ==> Paths(rest)[i] == Paths(found)[i + 1];
      QueuedAmongPaths(rest);
      assert found[0].path !in Paths(rest);
    }
  }

  /** Exactly the wanted files of the listed directories are queued, each under the path of
      that listing, and exactly the faulty entries and unreadable directories reported; no
      two things are queued or reported under the same path; and in a tree as a file
      system shows it, no two under the same text. */
  lemma QueueIsExact(w: World)
    requires Finite(w)
    ensures
      var r := WalkFromRoot(w);
      && (forall found :: found in r.tasks <==> FromVisits(w, r.visits, found))
      && NoDuplicates(Queued(r.tasks)) && NoDuplicates(Paths(r.tasks))
      && (Genuine(w) ==>
            forall i, j :: 0 <= i < j < |r.tasks| ==> Joined(r.tasks[i].path) != Joined(r.tasks[j].path))
  {
    hide WalkDirectory, FromVisits, Joined, Genuine;
    DirectoryFindsOnce(w, w.root, [], {w.root});
    var r := WalkFromRoot(w);
    QueuedAmongPaths(r.tasks);
    forall found ensures found in r.tasks <==> FromVisits(w, r.visits, found) {
      DirectoryFinds(w, w.root, [], {w.root}, found);
    }
    if Genuine(w) {
      forall i, j | 0 <= i < j < |r.tasks| ensures Joined(r.tasks[i].path) != Joined(r.tasks[j].path) {
        assert Paths(r.tasks)[i] != Paths(r.tasks)[j];
        TextsDiffer(r.tasks[i].path, r.tasks[j].path);
      }
    }
  }
}
