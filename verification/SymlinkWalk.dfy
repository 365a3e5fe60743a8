/** `walkWithSymlinks` of `internal/scanner/scanner.go`: a depth-first walk over the
    directory graph that symbolic links make cyclic, with a set of visited canonical
    directories. The context is not cancelled. */
module SymlinkWalk {
  import opened Common

  type Name = string
  type Path = seq<Name>

  /** What a link leads to; resolving a directory link may fail after its target was
      inspected. Devices are absent where the platform does not tell them. */
  datatype Target =
    | Broken
    | LinkFile(device: Option<nat>)
    | LinkSpecial(device: Option<nat>)
    | LinkDirectory(device: Option<nat>, resolved: Option<string>)

  /** A directory entry. A subdirectory carries its canonical path. */
  datatype Node =
    | File(device: Option<nat>)
    | Special
    | Directory(device: Option<nat>, canonical: string)
    | Link(target: Target)

  datatype Entry = Entry(name: Name, node: Node)

  /** The file tree as `os.ReadDir` shows it, and the options of the walk. */
  datatype World = World(
    read: string -> Option<seq<Entry>>, directories: set<string>, root: string,
    patterns: seq<string>, matches: (string, string) -> bool, wanted: Name -> bool,
    oneFileSystem: bool, rootDevice: nat)

  predicate DistinctNames(entries: seq<Entry>) {
    forall i, j :: 0 <= i < j < |entries| ==> entries[i].name != entries[j].name
  }

  /** The directory an entry leads to, whatever the options say. */
  function Leads(node: Node): Option<string> {
    match node
    case Directory(_, canonical) => Some(canonical)
    case Link(LinkDirectory(_, resolved)) => resolved
    case _ => None
  }

  /** A finite tree: listings name each entry once and stay inside the directories. */
  ghost predicate Finite(w: World) {
    && w.root in w.directories
    && forall d <- w.directories ::
         match w.read(d)
         case None => true
         case Some(entries) =>
           && DistinctNames(entries)
           && forall i :: 0 <= i < |entries| && Leads(entries[i].node).Some? ==>
                Leads(entries[i].node).value in w.directories
  }

  lemma ListedLead(w: World, directory: string, i: nat)
    requires Finite(w) && directory in w.directories && w.read(directory).Some? && i < |w.read(directory).value|
    ensures
      var lead := Leads(w.read(directory).value[i].node);
      lead.Some? ==> lead.value in w.directories
  {
  }

  // -------------------------------------------------------------------- the options

  function Joined(path: Path): string {
    if path == [] then "" else if |path| == 1 then path[0] else path[0] + "/" + Joined(path[1..])
  }

  function TrimSlashes(text: string): string {
    if text != "" && text[|text| - 1] == '/' then TrimSlashes(text[..|text| - 1]) else text
  }

  function AfterSlash(text: string): string {
    if text == "" || text[|text| - 1] == '/' then "" else AfterSlash(text[..|text| - 1]) + [text[|text| - 1]]
  }

  /** `path.Base`. */
  function Base(text: string): string {
    if text == "" then "." else if TrimSlashes(text) == "" then "/" else AfterSlash(TrimSlashes(text))
  }

  /** Whether a pattern excludes a relative path: one with a slash is matched against all
      of it, one without against its base. */
  predicate Excludes(w: World, pattern: string, relative: string) {
    w.matches(pattern, if '/' in pattern then relative else Base(relative))
  }

  predicate IsExcluded(w: World, path: Path)
    requires path != []
  {
    exists pattern <- w.patterns :: Excludes(w, pattern, Joined(path))
  }

  /** `infoOnRootFilesystem`, and whether it reports an unavailable device. */
  predicate OnRoot(w: World, device: Option<nat>) {
    !w.oneFileSystem || device == Some(w.rootDevice)
  }

  predicate DeviceUnknown(w: World, device: Option<nat>) {
    w.oneFileSystem && device.None?
  }

  /** What the walk makes of an entry at a path: the directory it enters, whether it
      queues a file, whether it reports an error. */
  function Enters(w: World, e: Entry, path: Path): Option<string>
    requires path != []
  {
    if IsExcluded(w, path) then None
    else
      match e.node
      case Directory(device, canonical) => if OnRoot(w, device) then Some(canonical) else None
      case Link(LinkDirectory(device, resolved)) => if OnRoot(w, device) then resolved else None
      case _ => None
  }

  predicate Queues(w: World, e: Entry, path: Path)
    requires path != []
  {
    !IsExcluded(w, path) && w.wanted(e.name) &&
    match e.node
    case File(device) => OnRoot(w, device)
    case Link(LinkFile(device)) => OnRoot(w, device)
    case _ => false
  }

  predicate Reports(w: World, e: Entry, path: Path)
    requires path != []
  {
    !IsExcluded(w, path) &&
    match e.node
    case File(device) => w.wanted(e.name) && DeviceUnknown(w, device)
    case Special => false
    case Directory(device, _) => DeviceUnknown(w, device)
    case Link(Broken) => true
    case Link(LinkFile(device)) => DeviceUnknown(w, device)
    case Link(LinkSpecial(device)) => DeviceUnknown(w, device)
    case Link(LinkDirectory(device, resolved)) => DeviceUnknown(w, device) || (OnRoot(w, device) && resolved.None?)
  }

  // ----------------------------------------------------------------------- the walk

  /** What the walk finds: a file to queue, or an error to report. */
  datatype Found = Queue(path: Path) | Report(path: Path)

  /** A directory listed, under the path it was entered by. */
  datatype Visit = Visit(directory: string, path: Path)

  datatype Walk = Walk(visits: seq<Visit>, tasks: seq<Found>, visited: set<string>)

  function Then(first: Walk, rest: Walk): Walk {
    Walk(first.visits + rest.visits, first.tasks + rest.tasks, rest.visited)
  }

  /** `walkDirectory`. */
  function WalkDirectory(w: World, directory: string, path: Path, visited: set<string>): (r: Walk)
    requires visited <= w.directories
    ensures visited <= r.visited <= w.directories
    decreases w.directories - visited, 2, 0
  {
    match w.read(directory)
    case None => Walk([Visit(directory, path)], [Report(path)], visited)
    case Some(entries) => Then(Walk([Visit(directory, path)], [], visited), WalkEntries(w, entries, 0, path, visited))
  }

  function WalkEntries(w: World, entries: seq<Entry>, index: nat, path: Path, visited: set<string>): (r: Walk)
    requires visited <= w.directories && index <= |entries|
    ensures visited <= r.visited <= w.directories
    decreases w.directories - visited, 1, |entries| - index
  {
    if index == |entries| then Walk([], [], visited)
    else
      var one := WalkEntry(w, entries[index], path + [entries[index].name], visited);
      assert w.directories - one.visited <= w.directories - visited;
      Then(one, WalkEntries(w, entries, index + 1, path, one.visited))
  }

  /** One entry; `path` ends in its name. A directory outside the given finite tree is
      not entered. */
  function WalkEntry(w: World, e: Entry, path: Path, visited: set<string>): (r: Walk)
    requires visited <= w.directories && path != []
    ensures visited <= r.visited <= w.directories
    decreases w.directories - visited, 0, 0
  {
    var tasks := if Queues(w, e, path) then [Queue(path)] else if Reports(w, e, path) then [Report(path)] else [];
    var target := Enters(w, e, path);
    if target.Some? && target.value !in visited && target.value in w.directories then
      assert w.directories - (visited + {target.value}) < w.directories - visited by {
        assert target.value in w.directories - visited;
      }
      Then(Walk([], tasks, visited), WalkDirectory(w, target.value, path, visited + {target.value}))
    else Walk([], tasks, visited)
  }

  /** `walkWithSymlinks`: the root is visited before its listing is read. */
  function WalkFromRoot(w: World): Walk
    requires w.root in w.directories
  {
    WalkDirectory(w, w.root, [], {w.root})
  }

  // --------------------------------------------------------------------- the walker

  class DiscoveryWalker {
    const w: World
    var visited: set<string>
    var tasks: seq<Found>
    ghost var visits: seq<Visit>

    constructor (w: World)
      ensures this.w == w && visited == {} && tasks == [] && visits == []
    {
      this.w := w;
      visited, tasks, visits := {}, [], [];
    }

    /** The walker shows what a walk added. */
    ghost predicate Shows(r: Walk, tasksBefore: seq<Found>, visitsBefore: seq<Visit>)
      reads this
    {
      visited == r.visited && tasks == tasksBefore + r.tasks && visits == visitsBefore + r.visits
    }

    method MarkVisited(directory: string) returns (isNew: bool)
      modifies this`visited
      ensures isNew == (directory !in old(visited)) && visited == old(visited) + {directory}
    {
      if directory in visited {
        return false;
      }
      visited := visited + {directory};
      return true;
    }

    method OnRootFilesystem(device: Option<nat>, path: Path) returns (ok: bool)
      modifies this`tasks
      ensures ok == OnRoot(w, device)
      ensures tasks == old(tasks) + if DeviceUnknown(w, device) then [Report(path)] else []
    {
      if !w.oneFileSystem {
        return true;
      }
      if device.None? {
        tasks := tasks + [Report(path)];
        return false;
      }
      return device.value == w.rootDevice;
    }

    /** `isExcluded`. */
    method CheckExcluded(relative: string) returns (excluded: bool)
      ensures excluded <==> exists pattern <- w.patterns :: Excludes(w, pattern, relative)
    {
      var index := 0;
      while index < |w.patterns|
        invariant index <= |w.patterns|
        invariant forall i :: 0 <= i < index ==> !Excludes(w, w.patterns[i], relative)
      {
        var candidate := relative;
        if '/' !in w.patterns[index] {
          candidate := Base(relative);
        }
        if w.matches(w.patterns[index], candidate) {
          assert Excludes(w, w.patterns[index], relative) && w.patterns[index] in w.patterns;
          return true;
        }
        index := index + 1;
      }
      return false;
    }

    method ListDirectory(directory: string, path: Path)
      requires Finite(w) && directory in w.directories && visited <= w.directories
      modifies this
      ensures Shows(WalkDirectory(w, directory, path, old(visited)), old(tasks), old(visits))
      decreases w.directories - visited, 2, 0
    {
      hide WalkEntry, Finite;
      visits := visits + [Visit(directory, path)];
      var listing := w.read(directory);
      if listing.None? {
        tasks := tasks + [Report(path)];
        return;
      }
      var entries := listing.value;
      ghost var all := WalkEntries(w, entries, 0, path, visited);
      ghost var start := visits;
      ghost var done := Walk([], [], visited);
      ThenNothing(all, visited);
      var index := 0;
      while index < |entries|
        invariant index <= |entries| && old(visited) <= visited <= w.directories
        invariant Shows(done, old(tasks), start)
        invariant all == Then(done, WalkEntries(w, entries, index, path, visited))
      {
        ghost var one := WalkEntry(w, entries[index], path + [entries[index].name], visited);
        ghost var rest := WalkEntries(w, entries, index + 1, path, one.visited);
        assert w.directories - visited <= w.directories - old(visited);
        ListedLead(w, directory, index);
        VisitEntry(entries[index], path + [entries[index].name]);
        ThenFurther(done, one, rest);
        assert old(tasks) + (done.tasks + one.tasks) == old(tasks) + done.tasks + one.tasks;
        assert start + (done.visits + one.visits) == start + done.visits + one.visits;
        done := Then(done, one);
        index := index + 1;
      }
      assert done.visits + [] == done.visits && done.tasks + [] == done.tasks;
      assert [] + all.tasks == all.tasks;
    }

    /** The body of the loop over a listing, in the order of its tests. */
    method VisitEntry(e: Entry, path: Path)
      requires Finite(w) && path != [] && visited <= w.directories
      requires Leads(e.node).Some? ==> Leads(e.node).value in w.directories
      modifies this
      ensures Shows(WalkEntry(w, e, path, old(visited)), old(tasks), old(visits))
      decreases w.directories - visited, 1, 0
    {
      var excluded := CheckExcluded(Joined(path));
      if excluded {
        return;
      }
      match e.node
      case Link(target) =>
        FollowLink(target, e, path);
      case Directory(device, canonical) =>
        var ok := OnRootFilesystem(device, path);
        if ok {
          EnterDirectory(canonical, e, path);
        }
      case File(device) =>
        if w.wanted(e.name) {
          var ok := OnRootFilesystem(device, path);
          if ok {
            tasks := tasks + [Queue(path)];
          }
        }
      case Special =>
    }

    /** `visitSymlink`. */
    method FollowLink(target: Target, e: Entry, path: Path)
      requires Finite(w) && path != [] && visited <= w.directories && e.node == Link(target) && !IsExcluded(w, path)
      requires Leads(e.node).Some? ==> Leads(e.node).value in w.directories
      modifies this
      ensures Shows(WalkEntry(w, e, path, old(visited)), old(tasks), old(visits))
      decreases w.directories - visited, 0, 1
    {
      if target.Broken? {
        tasks := tasks + [Report(path)];
        return;
      }
      var ok := OnRootFilesystem(target.device, path);
      if !ok {
        return;
      }
      match target
      case LinkDirectory(device, resolved) =>
        if resolved.None? {
          tasks := tasks + [Report(path)];
        } else {
          EnterDirectory(resolved.value, e, path);
        }
      case LinkFile(device) =>
        if w.wanted(e.name) {
          tasks := tasks + [Queue(path)];
        }
      case LinkSpecial(_) =>
    }

    /** Entering a directory the first time it is met. */
    method EnterDirectory(directory: string, e: Entry, path: Path)
      requires Finite(w) && path != [] && visited <= w.directories && directory in w.directories
      requires Enters(w, e, path) == Some(directory) && !Queues(w, e, path) && !Reports(w, e, path)
      modifies this
      ensures Shows(WalkEntry(w, e, path, old(visited)), old(tasks), old(visits))
      decreases w.directories - visited, 0, 0
    {
      var isNew := MarkVisited(directory);
      if isNew {
        assert directory in w.directories - old(visited);
        ghost var r := WalkDirectory(w, directory, path, visited);
        ListDirectory(directory, path);
        assert [] + r.visits == r.visits && [] + r.tasks == r.tasks;
      } else {
        assert visited == old(visited);
      }
    }

    /** `walkWithSymlinks`. */
    method WalkWithSymlinks()
      requires Finite(w) && visited == {} && tasks == [] && visits == []
      modifies this
      ensures var r := WalkFromRoot(w); visited == r.visited && tasks == r.tasks && visits == r.visits
    {
      visited := {w.root};
      ListDirectory(w.root, []);
    }
  }

  lemma ThenNothing(rest: Walk, visited: set<string>)
    ensures Then(Walk([], [], visited), rest) == rest
  {
  }

  lemma ThenFurther(a: Walk, b: Walk, c: Walk)
    ensures Then(a, Then(b, c)) == Then(Then(a, b), c)
  {
  }
}
