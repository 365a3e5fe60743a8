/** Which exclude patterns keep the walk complete. A directory is listed under one of
    its paths only, so a pattern that tells two paths through it apart can hide what is
    below it; and wherever a set of patterns does so, some file tree loses a directory. */
module SymlinkWalkPatterns {
  import opened Common
  import opened Ordering
  import opened SymlinkWalk
  import opened SymlinkWalkOrder
  import opened SymlinkWalkProofs

  /** Nothing on the way to a path is excluded. */
  predicate Open(w: World, p: Path) {
    forall k :: 1 <= k < |p| ==> !IsExcluded(w, p[..k])
  }

  /** The walk comes to the end of v before it can come there along u: either v parts from
      u towards an earlier name, or u runs through the end of v and only then leaves the
      way t, to come back in a circle. */
  predicate MetFirst(v: Path, u: Path, t: Path) {
    var p := v + t;
    var s := Fork(p, u);
    s < |p| && s < |u| && (s < |v| ==> CompareStrings(p[s], u[s]) == LT)
  }

  /** Two ways v and u that may lead to one directory, and a way t on from it that the
      patterns close behind v and leave open behind u, where v is met first. */
  predicate Clash(w: World, v: Path, u: Path, t: Path) {
    var p, q := v + t, u + t;
    && t != [] && RealPath(p) && RealPath(q) && MetFirst(v, u, t)
    && Open(w, p) && Open(w, q) && IsExcluded(w, p) && !IsExcluded(w, q)
  }

  /** A property of the patterns alone. */
  ghost predicate Consistent(w: World) {
    forall v, u, t :: !Clash(w, v, u, t)
  }

  ghost predicate Complete(w: World)
    requires Finite(w)
  {
    forall d :: Reachable(w, d) ==> d in WalkFromRoot(w).visited
  }

  ghost predicate SamePatterns(w: World, v: World) {
    w.patterns == v.patterns && forall text, candidate :: w.matches(text, candidate) == v.matches(text, candidate)
  }

  // ------------------------------------------------------------------- paths and visits

  /** A path that leads somewhere is open and not excluded itself. */
  lemma {:induction false} ResolvedIsOpen(w: World, p: Path)
    requires Resolve(w, p).Some?
    ensures Open(w, p) && (p != [] ==> !IsExcluded(w, p))
    decreases |p|
  {
    hide IsExcluded;
    if p != [] {
      ResolvedIsOpen(w, Parent(p));
      forall k | 1 <= k < |p| ensures !IsExcluded(w, p[..k]) {
        if k < |p| - 1 {
          assert Parent(p)[..k] == p[..k];
        } else {
          assert p[..k] == Parent(p);
        }
      }
    }
  }

  /** The one path a directory is listed by. */
  lemma ListedByOnePath(w: World, i: nat, j: nat)
    requires Finite(w)
    requires i < |WalkFromRoot(w).visits| && j < |WalkFromRoot(w).visits|
    requires WalkFromRoot(w).visits[i].directory == WalkFromRoot(w).visits[j].directory
    ensures i == j
  {
    hide WalkDirectory;
    WalkIsSound(w);
    var v := WalkFromRoot(w).visits;
    assert Directories(v)[i] == Directories(v)[j];
  }

  lemma ListedLeadsThere(w: World, i: nat)
    requires Finite(w) && i < |WalkFromRoot(w).visits|
    ensures Resolve(w, WalkFromRoot(w).visits[i].path) == Some(WalkFromRoot(w).visits[i].directory)
  {
    hide WalkDirectory, Resolve;
    RootResolves(w);
    DirectoryListsReachable(w, w.root, [], {w.root});
  }

  // ----------------------------------------------------------- consistent is complete

  lemma EntersAlike(w: World, e: Entry, p: Path, q: Path)
    requires p != [] && q != [] && !IsExcluded(w, p) && !IsExcluded(w, q)
    ensures Enters(w, e, p) == Enters(w, e, q)
  {
  }

  /** What a resolved path runs through is resolved, real and not excluded. */
  lemma {:induction false} PrefixResolves(w: World, p: Path, k: nat)
    requires Resolve(w, p).Some? && k <= |p|
    ensures Resolve(w, p[..k]).Some? && (k > 0 ==> !IsExcluded(w, p[..k]))
    decreases |p| - k
  {
    hide IsExcluded;
    if k == |p| {
      assert p[..k] == p;
      ResolvedIsOpen(w, p);
    } else {
      PrefixResolves(w, p, k + 1);
      assert p[..k + 1][..k] == p[..k];
      if k > 0 {
        ResolvedIsOpen(w, p[..k]);
      }
    }
  }

  lemma {:induction false} ResolvedIsReal(w: World, p: Path)
    requires Genuine(w) && Resolve(w, p).Some?
    ensures RealPath(p)
    decreases |p|
  {
    hide IsExcluded, RealName;
    if p != [] {
      ResolvedIsReal(w, Parent(p));
      var d := Resolve(w, Parent(p)).value;
      ResolvedStays(w, Parent(p));
      var e := Find(w.read(d).value, Last(p)).value;
      RealEntry(w, d, e);
      assert p == Parent(p) + [Last(p)];
    }
  }

  lemma RealEntry(w: World, d: string, e: Entry)
    requires Genuine(w) && d in w.directories && w.read(d).Some? && e in w.read(d).value
    ensures RealName(e.name)
  {
    hide RealName;
  }

  lemma StepAlike(w: World, v: Path, u: Path, name: Name)
    requires Resolve(w, v).Some? && Resolve(w, v) == Resolve(w, u) && Resolve(w, u + [name]).Some?
    requires !IsExcluded(w, v + [name])
    ensures Resolve(w, v + [name]) == Resolve(w, u + [name])
  {
    hide IsExcluded, Enters;
    var p, q := v + [name], u + [name];
    assert p[..|v|] == v && q[..|u|] == u;
    ResolvedIsOpen(w, q);
    EntersAlike(w, Find(w.read(Resolve(w, u).value).value, name).value, p, q);
  }

  /** Going on like t from the end of v, nothing is excluded. */
  predicate OpenFrom(w: World, v: Path, t: Path) {
    forall j :: 1 <= j <= |t| ==> !IsExcluded(w, v + t[..j])
  }

  lemma OpenFromParent(w: World, v: Path, t: Path)
    requires OpenFrom(w, v, t) && t != []
    ensures OpenFrom(w, v, Parent(t)) && !IsExcluded(w, v + t)
  {
    hide IsExcluded;
    assert t[..|t|] == t;
    forall j | 1 <= j <= |Parent(t)| ensures !IsExcluded(w, v + Parent(t)[..j]) {
      assert Parent(t)[..j] == t[..j];
    }
  }

  lemma LastStep(v: Path, t: Path)
    requires t != []
    ensures v + t == v + Parent(t) + [Last(t)] && Parent(v + t) == v + Parent(t)
  {
  }

  /** Two ways to a directory lead on alike, where neither is excluded. */
  lemma {:induction false} SameWayOn(w: World, v: Path, u: Path, t: Path)
    requires Resolve(w, v).Some? && Resolve(w, v) == Resolve(w, u) && Resolve(w, u + t).Some?
    requires OpenFrom(w, v, t)
    ensures Resolve(w, v + t) == Resolve(w, u + t)
    decreases |t|
  {
    hide IsExcluded, Resolve, OpenFrom;
    if t == [] {
      assert v + t == v && u + t == u;
    } else {
      LastStep(v, t);
      LastStep(u, t);
      PrefixResolves(w, u + t, |u + t| - 1);
      OpenFromParent(w, v, t);
      SameWayOn(w, v, u, Parent(t));
      StepAlike(w, v + Parent(t), u + Parent(t), Last(t));
    }
  }

  /** The walk comes to the end of v before that of u, and u does not go on like t. */
  predicate Parted(v: Path, u: Path, t: Path) {
    var s := Fork(v, u);
    s < |u| && if s < |v| then CompareStrings(v[s], u[s]) == LT else !(u[|v|..] <= t)
  }

  lemma PartedFork(v: Path, u: Path, t: Path, j: nat)
    requires Parted(v, u, t) && j <= |t| && !(v + t[..j] <= u)
    ensures MetFirst(v, u, t[..j])
  {
    hide CompareStrings;
    var p := v + t[..j];
    var s := Fork(v, u);
    if s < |v| {
      assert p[..s] == v[..s] == u[..s] && p[s] == v[s];
      ForkIs(p, u, s);
    } else {
      assert v[..s] == v;
      ForkBeyond(v, u, t, j);
    }
  }

  lemma ForkBeyond(v: Path, u: Path, t: Path, j: nat)
    requires j <= |t| && v <= u && !(u[|v|..] <= t) && !(v + t[..j] <= u)
    ensures |v| <= Fork(v + t[..j], u) < |v| + j && Fork(v + t[..j], u) < |u|
  {
    hide Fork;
    var p := v + t[..j];
    ForkEnds(p, u);
    SharedBegin(v, p, u);
    if u <= p {
      PrefixGoesOn(v, u, t, j);
    }
  }

  lemma ForkEnds(p: Path, u: Path)
    ensures Fork(p, u) == |p| ==> p <= u
    ensures Fork(p, u) == |u| ==> u <= p
  {
    hide Fork;
    var f := Fork(p, u);
    assert p[..|p|] == p && u[..|u|] == u;
  }

  lemma {:induction false} SharedBegin(v: Path, p: Path, u: Path)
    requires v <= p && v <= u
    ensures |v| <= Fork(p, u)
  {
    if v != [] {
      SharedBegin(v[1..], p[1..], u[1..]);
    }
  }

  lemma PrefixGoesOn(v: Path, u: Path, t: Path, j: nat)
    requires j <= |t| && v <= u <= v + t[..j]
    ensures u[|v|..] <= t
  {
    assert u == (v + t[..j])[..|u|];
    assert u[|v|..] == t[..|u| - |v|];
  }

  /** Nothing hides what one way leads to from the other. */
  lemma {:induction false} NoneHidden(w: World, v: Path, u: Path, t: Path, j: nat)
    requires Genuine(w) && Consistent(w) && Resolve(w, v).Some? && Resolve(w, u + t).Some? && 1 <= j <= |t|
    requires Parted(v, u, t)
    ensures !IsExcluded(w, v + t[..j])
    decreases j
  {
    hide IsExcluded, Resolve, CompareStrings;
    var p, q := v + t[..j], u + t[..j];
    assert (u + t)[..|u| + j] == q;
    PrefixResolves(w, u + t, |u| + j);
    if p <= u {
      assert (u + t)[..|p|] == u[..|p|] == p;
      PrefixResolves(w, u + t, |p|);
    } else {
      forall k | 1 <= k < |p| ensures !IsExcluded(w, p[..k]) {
        if k <= |v| {
          assert p[..k] == v[..k];
          PrefixResolves(w, v, k);
        } else {
          assert p[..k] == v + t[..k - |v|];
          NoneHidden(w, v, u, t, k - |v|);
        }
      }
      ResolvedIsOpen(w, q);
      ResolvedIsReal(w, q);
      ResolvedIsReal(w, v);
      PartedFork(v, u, t, j);
      assert RealPath(p) by {
        assert forall i :: 0 <= i < j ==> t[i] == q[|u| + i];
      }
      assert !Clash(w, v, u, t[..j]);
    }
  }

  lemma ExclusionByName(w: World, p: Path, q: Path)
    requires NamePatterns(w) && p != [] && q != [] && p[|p| - 1] == q[|q| - 1] && RealPath(p) && RealPath(q)
    ensures IsExcluded(w, p) == IsExcluded(w, q)
  {
    hide Joined, Base, RealName;
    BaseIsLast(p);
    BaseIsLast(q);
  }

  lemma WayOn(w: World, v: Path, u: Path, t: Path)
    requires Genuine(w) && Consistent(w) && Parted(v, u, t)
    requires Resolve(w, v).Some? && Resolve(w, v) == Resolve(w, u) && Resolve(w, u + t).Some?
    ensures Resolve(w, v + t) == Resolve(w, u + t)
  {
    hide IsExcluded, Resolve, Parted;
    forall j | 1 <= j <= |t| ensures !IsExcluded(w, v + t[..j]) {
      NoneHidden(w, v, u, t, j);
    }
    SameWayOn(w, v, u, t);
  }

  /** A way that runs in circles through the end of v can be cut short. */
  lemma {:induction false} Unwind(w: World, v: Path, circle: Path, u: Path, t: Path) returns (left: Path)
    requires Genuine(w) && Consistent(w) && circle != [] && v + circle <= u && Resolve(w, u + t).Some?
    requires Resolve(w, v).Some? && Resolve(w, v + circle) == Resolve(w, v) == Resolve(w, u)
    ensures |left| <= |t| && Resolve(w, v + left) == Resolve(w, u + t)
    decreases |t|
  {
    hide IsExcluded, Resolve;
    if circle <= t {
      var rest := t[|circle|..];
      assert u + t == u + circle + rest;
      forall j | 1 <= j <= |circle| ensures !IsExcluded(w, u + circle[..j]) {
        assert (u + t)[..|u| + j] == u + circle[..j];
        PrefixResolves(w, u + t, |u| + j);
      }
      SameWayOn(w, u, v, circle);
      left := Unwind(w, v, circle, u + circle, rest);
    } else {
      CircleParts(v, circle, u, t);
      WayOn(w, v, u, t);
      left := t;
    }
  }

  lemma CircleParts(v: Path, circle: Path, u: Path, t: Path)
    requires circle != [] && v + circle <= u && !(circle <= t)
    ensures Parted(v, u, t)
  {
    assert v <= u;
    PrefixFork(v, u);
    assert circle <= u[|v|..];
  }

  lemma PrefixFork(v: Path, u: Path)
    requires v <= u
    ensures Fork(v, u) == |v|
  {
    SharedBegin(v, v, u);
  }

  /** The way from a listed directory on leads to nothing that is not visited. */
  lemma {:induction false} WayIsVisited(w: World, i: nat, t: Path)
    requires Genuine(w) && Consistent(w) && i < |WalkFromRoot(w).visits|
    requires Resolve(w, WalkFromRoot(w).visits[i].path + t).Some?
    ensures Resolve(w, WalkFromRoot(w).visits[i].path + t).value in WalkFromRoot(w).visited
    decreases |t|
  {
    hide WalkFromRoot, IsExcluded, Resolve, Enters, Consistent, Parted;
    var visits := WalkFromRoot(w).visits;
    var y := visits[i];
    ListedLeadsThere(w, i);
    if t == [] {
      assert y.path + t == y.path;
      ListedIsVisited(w, i);
    } else {
      var u, rest := y.path + [t[0]], t[1..];
      assert y.path + t == u + rest && (u + rest)[..|u|] == u;
      PrefixResolves(w, u + rest, |u|);
      var k := NextListed(w, i, t[0]);
      var v := visits[k].path;
      ListedLeadsThere(w, k);
      if v == u {
        WayIsVisited(w, k, rest);
      } else if v <= u {
        var circle := u[|v|..];
        assert v + circle == u;
        var left := Unwind(w, v, circle, u, rest);
        WayIsVisited(w, k, left);
      } else {
        PartedAfter(w, v, u, rest);
        WayOn(w, v, u, rest);
        WayIsVisited(w, k, rest);
      }
    }
  }

  lemma PartedAfter(w: World, v: Path, u: Path, t: Path)
    requires NotAfter(v, u) && !(v <= u)
    ensures Parted(v, u, t)
  {
    assert v[..|v|] == v;
  }

  lemma ListedIsVisited(w: World, i: nat)
    requires Finite(w) && i < |WalkFromRoot(w).visits|
    ensures WalkFromRoot(w).visits[i].directory in WalkFromRoot(w).visited
  {
    hide WalkFromRoot;
    WalkIsSound(w);
    assert Directories(WalkFromRoot(w).visits)[i] in Elements(Directories(WalkFromRoot(w).visits));
  }

  /** The listing of the directory one more name leads to; in real trees, not after it. */
  lemma NextListed(w: World, i: nat, name: Name) returns (k: nat)
    requires Finite(w) && i < |WalkFromRoot(w).visits| && Resolve(w, WalkFromRoot(w).visits[i].path + [name]).Some?
    ensures
      var visits := WalkFromRoot(w).visits;
      var u := visits[i].path + [name];
      && k < |visits| && Resolve(w, u) == Some(visits[k].directory)
      && (Genuine(w) ==> NotAfter(visits[k].path, u))
  {
    hide WalkDirectory, Enters, Finite, NotAfter;
    var r := WalkFromRoot(w);
    var y := r.visits[i];
    var u := y.path + [name];
    ListedLeadsThere(w, i);
    assert u[..|u| - 1] == y.path;
    var entries := w.read(y.directory).value;
    var e := Find(entries, name).value;
    var j :| 0 <= j < |entries| && entries[j] == e;
    ListedIsVisited(w, i);
    EntersStaysInside(w, y.directory, j, u);
    if Genuine(w) {
      k := EnteredIsListed(w, i, j);
    } else {
      DirectoryFollowsEdges(w, w.root, [], {w.root});
      assert EdgesVisited(w, r.visits[i], r.visited);
      assert TargetIn(w, entries[j], y.path + [entries[j].name], r.visited);
      var v := ListingOf(w, Resolve(w, u).value);
      k :| 0 <= k < |r.visits| && r.visits[k] == v;
    }
  }

  /** Consistent patterns lose nothing. */
  lemma ConsistentIsComplete(w: World)
    requires Genuine(w) && Consistent(w)
    ensures Complete(w)
  {
    hide WalkDirectory, Resolve, Consistent, Reachable;
    forall d | Reachable(w, d) ensures d in WalkFromRoot(w).visited {
      var path := ReachableResolves(w, d);
      DirectoryNests(w, w.root, [], {w.root});
      assert WalkFromRoot(w).visits[0].path + path == path;
      WayIsVisited(w, 0, path);
    }
  }

  // ---------------------------------------------- a listing has a listed directory above

  ghost predicate Lists(visits: seq<Visit>, path: Path) {
    exists i :: 0 <= i < |visits| && visits[i].path == path
  }

  /** Every path listed is right below a given one or below another listed path. */
  ghost predicate NestedBelow(visits: seq<Visit>, top: Path) {
    forall i :: 0 <= i < |visits| ==>
      visits[i].path != [] && (Parent(visits[i].path) == top || Lists(visits, Parent(visits[i].path)))
  }

  lemma NestedConcat(a: seq<Visit>, b: seq<Visit>, top: Path)
    requires NestedBelow(a, top) && NestedBelow(b, top)
    ensures NestedBelow(a + b, top)
  {
    forall i | 0 <= i < |a + b|
      ensures (a + b)[i].path != [] && (Parent((a + b)[i].path) == top || Lists(a + b, Parent((a + b)[i].path)))
    {
      if i < |a| {
        if Parent(a[i].path) != top {
          ListsMore(a, b, Parent(a[i].path));
        }
      } else if Parent(b[i - |a|].path) != top {
        ListsMore(a, b, Parent(b[i - |a|].path));
      }
    }
  }

  lemma ListsMore(a: seq<Visit>, b: seq<Visit>, path: Path)
    requires Lists(a, path) || Lists(b, path)
    ensures Lists(a + b, path)
  {
    if Lists(a, path) {
      var i :| 0 <= i < |a| && a[i].path == path;
      assert (a + b)[i].path == path;
    } else {
      var i :| 0 <= i < |b| && b[i].path == path;
      assert (a + b)[|a| + i].path == path;
    }
  }

  lemma {:induction false} DirectoryNests(w: World, directory: string, path: Path, visited: set<string>)
    requires visited <= w.directories
    ensures
      var v := WalkDirectory(w, directory, path, visited).visits;
      v != [] && v[0] == Visit(directory, path) && NestedBelow(v[1..], path)
    decreases w.directories - visited, 2, 0
  {
    hide WalkEntries;
    match w.read(directory)
    case None =>
    case Some(entries) =>
      EntriesNest(w, entries, 0, path, visited);
      var rest := WalkEntries(w, entries, 0, path, visited).visits;
      assert ([Visit(directory, path)] + rest)[1..] == rest;
  }

  lemma {:induction false} EntriesNest(w: World, entries: seq<Entry>, index: nat, path: Path, visited: set<string>)
    requires visited <= w.directories && index <= |entries|
    ensures NestedBelow(WalkEntries(w, entries, index, path, visited).visits, path)
    decreases w.directories - visited, 1, |entries| - index
  {
    hide WalkEntry, NestedBelow;
    if index == |entries| {
      NothingNests(path);
    } else {
      var one := WalkEntry(w, entries[index], path + [entries[index].name], visited);
      EntryNests(w, entries[index], path, visited);
      assert w.directories - one.visited <= w.directories - visited;
      EntriesNest(w, entries, index + 1, path, one.visited);
      NestedConcat(one.visits, WalkEntries(w, entries, index + 1, path, one.visited).visits, path);
    }
  }

  lemma NothingNests(path: Path)
    ensures NestedBelow([], path)
  {
  }

  lemma {:induction false} EntryNests(w: World, e: Entry, path: Path, visited: set<string>)
    requires visited <= w.directories
    ensures NestedBelow(WalkEntry(w, e, path + [e.name], visited).visits, path)
    decreases w.directories - visited, 0, 0
  {
    hide WalkDirectory, Enters, Queues, Reports;
    var p := path + [e.name];
    var target := Enters(w, e, p);
    if target.Some? && target.value !in visited && target.value in w.directories {
      assert target.value in w.directories - visited;
      DirectoryNests(w, target.value, p, visited + {target.value});
      var v := WalkDirectory(w, target.value, p, visited + {target.value}).visits;
      assert [] + v == v;
      TopAndBelow(v, path, e.name);
    }
  }

  lemma TopAndBelow(v: seq<Visit>, path: Path, name: Name)
    requires v != [] && v[0].path == path + [name] && NestedBelow(v[1..], path + [name])
    ensures NestedBelow(v, path)
  {
  }

  lemma ParentIsListed(w: World, p: Path)
    requires Finite(w) && p != [] && Lists(WalkFromRoot(w).visits, p)
    ensures Lists(WalkFromRoot(w).visits, Parent(p))
  {
    hide WalkDirectory;
    var v := WalkFromRoot(w).visits;
    DirectoryNests(w, w.root, [], {w.root});
    var i :| 0 <= i < |v| && v[i].path == p;
    assert i > 0 && v[1..][i - 1] == v[i];
    if Parent(p) == [] {
      assert v[0].path == [];
    } else {
      ListsMore(v[..1], v[1..], Parent(p));
      assert v[..1] + v[1..] == v;
    }
  }

  // ------------------------------------------------------- a clash loses a directory

  function Repeat(c: char, n: nat): (s: string)
    ensures |s| == n && (n > 0 ==> s[0] == c)
  {
    seq(n, _ => c)
  }

  function Repeats(c: char, n: nat): (r: set<string>)
    ensures forall i :: 0 <= i <= n ==> Repeat(c, i) in r
    ensures forall d :: d in r ==> |d| <= n && d == Repeat(c, |d|)
  {
    if n == 0 then {Repeat(c, 0)} else Repeats(c, n - 1) + {Repeat(c, n)}
  }

  /** The directory a prefix of the first path leads to. */
  function Own(i: nat): string {
    Repeat('a', i)
  }

  /** The directory the second path leads to after it has parted; its end is shared. */
  function Side(v: Path, u: Path, j: nat): string {
    if j == |u| then Own(|v|) else Repeat('b', j)
  }

  function To(name: Name, directory: string): Entry {
    Entry(name, Link(LinkDirectory(None, Some(directory))))
  }

  function InOrder(a: Entry, b: Entry): seq<Entry> {
    if CompareStrings(a.name, b.name) == LT then [a, b] else [b, a]
  }

  function OwnListing(v: Path, u: Path, t: Path, i: nat): seq<Entry>
    requires i < |v + t|
  {
    var p := v + t;
    if i == Fork(p, u) < |u| then InOrder(To(p[i], Own(i + 1)), To(u[i], Side(v, u, i + 1)))
    else [To(p[i], Own(i + 1))]
  }

  function Listing(v: Path, u: Path, t: Path, directory: string): seq<Entry> {
    var n := |directory|;
    if n < |v + t| && directory == Own(n) then OwnListing(v, u, t, n)
    else if n < |u| && directory == Repeat('b', n) then [To(u[n], Side(v, u, n + 1))]
    else []
  }

  /** Two ways to one directory, and one way on from there. All entries are links, and
      the listings are sorted. */
  function Forked(w: World, v: Path, u: Path, t: Path): World {
    World(d => Some(Listing(v, u, t, d)), Repeats('a', |v + t|) + Repeats('b', |u|),
          Own(0), w.patterns, w.matches, _ => true, false, 0)
  }

  /** What the last name of the way leads to. */
  function Hidden(v: Path, t: Path): string {
    Own(|v + t|)
  }

  lemma ForkedIsGenuine(w: World, v: Path, u: Path, t: Path)
    requires RealPath(v + t) && RealPath(u + t) && MetFirst(v, u, t)
    ensures Genuine(Forked(w, v, u, t))
  {
    hide Listing, RealListing, DistinctNames, RealPath, MetFirst;
    var x := Forked(w, v, u, t);
    forall d | d in x.directories
      ensures DistinctNames(x.read(d).value) && RealListing(x.read(d).value)
      ensures forall i :: 0 <= i < |x.read(d).value| && Leads(x.read(d).value[i].node).Some? ==>
                Leads(x.read(d).value[i].node).value in x.directories
    {
      ListingIsReal(v, u, t, d);
      forall i | 0 <= i < |x.read(d).value|
        ensures Leads(x.read(d).value[i].node).Some? ==> Leads(x.read(d).value[i].node).value in x.directories
      {
        ListingStays(w, v, u, t, d, i);
      }
    }
  }

  lemma ListingIsReal(v: Path, u: Path, t: Path, d: string)
    requires RealPath(v + t) && RealPath(u + t) && MetFirst(v, u, t)
    ensures RealListing(Listing(v, u, t, d)) && DistinctNames(Listing(v, u, t, d))
  {
    hide RealName, Fork, Own, Side, Repeat;
    var p, n := v + t, |d|;
    assert forall i :: 0 <= i < |u| ==> u[i] == (u + t)[i];
    if n < |p| && n == Fork(p, u) {
      StringsOrder(p[n], u[n]);
    }
  }

  lemma ListingStays(w: World, v: Path, u: Path, t: Path, d: string, i: nat)
    requires i < |Listing(v, u, t, d)|
    ensures
      var lead := Leads(Listing(v, u, t, d)[i].node);
      lead.Some? ==> lead.value in Forked(w, v, u, t).directories
  {
    hide Fork, CompareStrings, Repeat;
    OwnIsThere(w, v, u, t, |d| + 1);
    SideIsThere(w, v, u, t, |d| + 1);
  }

  lemma OwnIsThere(w: World, v: Path, u: Path, t: Path, i: nat)
    ensures i <= |v + t| ==> Own(i) in Forked(w, v, u, t).directories
  {
  }

  lemma SideIsThere(w: World, v: Path, u: Path, t: Path, j: nat)
    ensures j <= |u| ==> Side(v, u, j) in Forked(w, v, u, t).directories
  {
    assert |v| <= |v + t|;
  }

  /** Where the second path is after some names, on to the shared directory. */
  function Along(v: Path, u: Path, t: Path, j: nat): string {
    if j <= Fork(v + t, u) then Own(j) else Side(v, u, j)
  }

  lemma NextOnSecond(v: Path, u: Path, t: Path, j: nat)
    requires MetFirst(v, u, t) && j < |u|
    ensures To(u[j], Along(v, u, t, j + 1)) in Listing(v, u, t, Along(v, u, t, j))
  {
    hide CompareStrings;
    var p := v + t;
    var s := Fork(p, u);
    if j < s {
      assert p[j] == p[..s][j] == u[..s][j] == u[j];
    } else if j > s {
      assert Repeat('b', j)[0] != Own(j)[0];
    }
  }

  lemma NextOwn(v: Path, u: Path, t: Path, i: nat)
    requires i < |v + t|
    ensures To((v + t)[i], Own(i + 1)) in Listing(v, u, t, Own(i))
  {
    hide CompareStrings, Fork;
  }

  lemma LinkLeads(w: World, directory: string, path: Path, name: Name, target: string)
    requires Finite(w) && directory in w.directories && Resolve(w, path) == Some(directory) && !w.oneFileSystem
    requires w.read(directory).Some? && To(name, target) in w.read(directory).value
    requires !IsExcluded(w, path + [name])
    ensures Resolve(w, path + [name]) == Some(target)
  {
    hide IsExcluded;
    var entries := w.read(directory).value;
    var i :| 0 <= i < |entries| && entries[i] == To(name, target);
    ResolveStep(w, directory, path, i);
  }

  lemma SameTests(w: World, v: World, path: Path)
    requires SamePatterns(w, v) && path != []
    ensures IsExcluded(v, path) == IsExcluded(w, path)
  {
  }

  lemma OpenAt(w: World, p: Path, k: nat)
    requires Open(w, p) && 1 <= k < |p|
    ensures !IsExcluded(w, p[..k])
  {
  }

  lemma {:induction false} SecondWayLeads(w: World, v: Path, u: Path, t: Path, j: nat)
    requires Clash(w, v, u, t) && j <= |u|
    ensures Resolve(Forked(w, v, u, t), u[..j]) == Some(Along(v, u, t, j))
  {
    hide IsExcluded, Resolve, Finite, Listing, Along, Clash, MetFirst;
    var x := Forked(w, v, u, t);
    if j == 0 {
      RootResolves(x);
      StartOfSecond(v, u, t);
    } else {
      SecondWayLeads(w, v, u, t, j - 1);
      OpenOnSecond(w, v, u, t, j);
      NextOnSecond(v, u, t, j - 1);
      AlongIsThere(w, v, u, t, j - 1);
      assert u[..j] == u[..j - 1] + [u[j - 1]];
      LinkLeads(x, Along(v, u, t, j - 1), u[..j - 1], u[j - 1], Along(v, u, t, j));
    }
  }

  lemma OpenOnSecond(w: World, v: Path, u: Path, t: Path, j: nat)
    requires Clash(w, v, u, t) && 1 <= j <= |u|
    ensures !IsExcluded(Forked(w, v, u, t), u[..j]) && Genuine(Forked(w, v, u, t)) && MetFirst(v, u, t)
  {
    hide IsExcluded, Open, RealPath, MetFirst, SamePatterns, Genuine, Forked;
    assert u[..j] == (u + t)[..j];
    OpenAt(w, u + t, j);
    ForkedIsGenuine(w, v, u, t);
    ForkedSame(w, v, u, t);
    SameTests(w, Forked(w, v, u, t), u[..j]);
  }

  lemma StartOfSecond(v: Path, u: Path, t: Path)
    ensures Along(v, u, t, 0) == Own(0)
  {
  }

  lemma ForkedSame(w: World, v: Path, u: Path, t: Path)
    ensures SamePatterns(w, Forked(w, v, u, t))
  {
  }

  lemma AlongIsThere(w: World, v: Path, u: Path, t: Path, j: nat)
    requires j <= |u|
    ensures Along(v, u, t, j) in Forked(w, v, u, t).directories
  {
    hide Fork;
    OwnIsThere(w, v, u, t, j);
    SideIsThere(w, v, u, t, j);
  }

  /** Along the second way, all of the way on is open. */
  lemma {:induction false} WayOnLeads(w: World, v: Path, u: Path, t: Path, k: nat)
    requires Clash(w, v, u, t) && k <= |t|
    ensures Resolve(Forked(w, v, u, t), u + t[..k]) == Some(Own(|v| + k))
  {
    hide IsExcluded, Resolve, Finite, Listing, Clash, Own;
    var x := Forked(w, v, u, t);
    if k == 0 {
      SecondWayLeads(w, v, u, t, |u|);
      assert u[..|u|] == u == u + t[..0];
      EndOfSecond(w, v, u, t);
    } else {
      WayOnLeads(w, v, u, t, k - 1);
      NextOwn(v, u, t, |v| + k - 1);
      OwnIsThere(w, v, u, t, |v| + k - 1);
      OpenBehindSecond(w, v, u, t, k);
      assert u + t[..k] == u + t[..k - 1] + [t[k - 1]];
      LinkLeads(x, Own(|v| + k - 1), u + t[..k - 1], t[k - 1], Own(|v| + k));
    }
  }

  lemma EndOfSecond(w: World, v: Path, u: Path, t: Path)
    requires Clash(w, v, u, t)
    ensures Along(v, u, t, |u|) == Own(|v|)
  {
    hide IsExcluded, RealPath, Open, CompareStrings;
  }

  lemma OpenBehindSecond(w: World, v: Path, u: Path, t: Path, k: nat)
    requires Clash(w, v, u, t) && 1 <= k <= |t|
    ensures !IsExcluded(Forked(w, v, u, t), u + t[..k]) && Genuine(Forked(w, v, u, t))
  {
    hide IsExcluded, Open, RealPath, MetFirst, SamePatterns, Genuine, Forked;
    var q := u + t[..k];
    if k < |t| {
      assert q == (u + t)[..|u| + k];
      OpenAt(w, u + t, |u| + k);
    } else {
      assert q == u + t;
    }
    ForkedIsGenuine(w, v, u, t);
    ForkedSame(w, v, u, t);
    SameTests(w, Forked(w, v, u, t), q);
  }

  lemma ClashIsGenuine(w: World, v: Path, u: Path, t: Path)
    requires Clash(w, v, u, t)
    ensures Genuine(Forked(w, v, u, t))
  {
    hide IsExcluded, Open, MetFirst, RealName, Genuine, Forked;
    ForkedIsGenuine(w, v, u, t);
  }

  lemma HiddenIsReachable(w: World, v: Path, u: Path, t: Path)
    requires Clash(w, v, u, t)
    ensures Reachable(Forked(w, v, u, t), Hidden(v, t))
  {
    hide IsExcluded, Resolve, Forked, Clash, Reachable;
    WayOnLeads(w, v, u, t, |t|);
    assert t[..|t|] == t;
    assert Genuine(Forked(w, v, u, t)) by {
      ClashIsGenuine(w, v, u, t);
    }
    ResolvedIsReachable(Forked(w, v, u, t), u + t);
  }

  /** The walk comes to the shared directory along the first way. */
  lemma {:induction false} FirstWayLists(w: World, v: Path, u: Path, t: Path, i: nat, visited: set<string>)
    requires Clash(w, v, u, t) && i <= |v| && visited <= Forked(w, v, u, t).directories
    requires forall k :: i < k <= |v| ==> Own(k) !in visited
    ensures Visit(Own(|v|), v) in WalkDirectory(Forked(w, v, u, t), Own(i), v[..i], visited).visits
    decreases |v| - i
  {
    hide IsExcluded, WalkEntries, Listing, Clash, MetFirst, Own;
    var x := Forked(w, v, u, t);
    var walk := WalkDirectory(x, Own(i), v[..i], visited);
    if i == |v| {
      assert v[..i] == v;
      assert walk.visits[0] == Visit(Own(i), v);
    } else {
      var entries := x.read(Own(i)).value;
      OpenOnFirst(w, v, u, t, i + 1);
      NextOnFirst(v, u, t, i);
      assert v[..i] + [v[i]] == v[..i + 1];
      OwnIsThere(w, v, u, t, i + 1);
      OwnDiffer(i + 1);
      FirstWayLists(w, v, u, t, i + 1, visited + {Own(i + 1)});
      FirstEntryLists(x, entries, v[..i], v[i], Own(i + 1), visited, Visit(Own(|v|), v));
    }
  }

  lemma OpenOnFirst(w: World, v: Path, u: Path, t: Path, i: nat)
    requires Clash(w, v, u, t) && 1 <= i <= |v|
    ensures !IsExcluded(Forked(w, v, u, t), v[..i]) && MetFirst(v, u, t)
  {
    hide IsExcluded, Open, RealPath, MetFirst, SamePatterns, Forked;
    assert v[..i] == (v + t)[..i];
    OpenAt(w, v + t, i);
    ForkedSame(w, v, u, t);
    SameTests(w, Forked(w, v, u, t), v[..i]);
  }

  lemma OwnDiffer(i: nat)
    ensures forall k: nat :: Own(k) == Own(i) ==> k == i
  {
    assert forall k: nat :: |Own(k)| == k;
  }

  lemma NextOnFirst(v: Path, u: Path, t: Path, i: nat)
    requires MetFirst(v, u, t) && i < |v|
    ensures Listing(v, u, t, Own(i)) != [] && Listing(v, u, t, Own(i))[0] == To(v[i], Own(i + 1))
  {
    hide CompareStrings, Fork;
    assert (v + t)[i] == v[i];
  }

  lemma FirstEntryLists(
    w: World, entries: seq<Entry>, path: Path, name: Name, target: string, visited: set<string>, sought: Visit)
    requires visited <= w.directories && entries != [] && entries[0] == To(name, target)
    requires target in w.directories - visited && !w.oneFileSystem && !IsExcluded(w, path + [name])
    requires sought in WalkDirectory(w, target, path + [name], visited + {target}).visits
    ensures sought in WalkEntries(w, entries, 0, path, visited).visits
  {
  }

  /** Beyond the shared directory, there is one entry only to each directory. */
  lemma OnlyDoor(v: Path, u: Path, t: Path, directory: string, e: Entry, i: nat)
    requires |v| < i <= |v + t| && e in Listing(v, u, t, directory) && Leads(e.node) == Some(Own(i))
    ensures directory == Own(i - 1) && e.name == (v + t)[i - 1]
  {
    hide Fork, CompareStrings;
    OwnDiffer(i);
    assert forall j: nat :: Side(v, u, j) != Own(i);
  }

  lemma OnlyWayIn(w: World, v: Path, u: Path, t: Path, i: nat, path: Path)
    requires |v| < i <= |v + t| && Resolve(Forked(w, v, u, t), path) == Some(Own(i))
    ensures path != [] && Resolve(Forked(w, v, u, t), Parent(path)) == Some(Own(i - 1)) && Last(path) == (v + t)[i - 1]
  {
    hide IsExcluded, Listing, Own;
    var x := Forked(w, v, u, t);
    OwnDiffer(0);
    var d := Resolve(x, Parent(path)).value;
    OnlyDoor(v, u, t, d, Find(x.read(d).value, Last(path)).value, i);
  }

  /** A listing beyond the shared directory was made through its one door. */
  lemma ThroughTheDoor(w: World, v: Path, u: Path, t: Path, i: nat, k: nat) returns (j: nat)
    requires Genuine(Forked(w, v, u, t)) && |v| < i <= |v + t|
    requires
      var visits := WalkFromRoot(Forked(w, v, u, t)).visits;
      k < |visits| && visits[k].directory == Own(i)
    ensures
      var visits := WalkFromRoot(Forked(w, v, u, t)).visits;
      j < |visits| && visits[j].directory == Own(i - 1) && visits[k].path == visits[j].path + [(v + t)[i - 1]]
  {
    hide WalkFromRoot, Forked, Own, RealListing, Resolve;
    var x := Forked(w, v, u, t);
    var visits := WalkFromRoot(x).visits;
    var path := visits[k].path;
    ListedLeadsThere(x, k);
    OnlyWayIn(w, v, u, t, i, path);
    ParentIsListed(x, path) by {
      assert visits[k].path == path;
    }
    j :| 0 <= j < |visits| && visits[j].path == Parent(path);
    ListedLeadsThere(x, j);
    assert path == Parent(path) + [Last(path)];
  }

  /** What is listed beyond the shared directory is listed along the first way. */
  lemma {:induction false} BeyondIsOnFirst(w: World, v: Path, u: Path, t: Path, i: nat, k: nat)
    requires Clash(w, v, u, t) && Genuine(Forked(w, v, u, t)) && |v| <= i <= |v + t|
    requires
      var visits := WalkFromRoot(Forked(w, v, u, t)).visits;
      k < |visits| && visits[k].directory == Own(i)
    ensures WalkFromRoot(Forked(w, v, u, t)).visits[k].path == (v + t)[..i]
    decreases i
  {
    hide WalkFromRoot, Forked, Own, Finite, RealListing, Clash;
    var x := Forked(w, v, u, t);
    if i == |v| {
      var j := SharedIsListed(w, v, u, t);
      ListedByOnePath(x, j, k);
      assert (v + t)[..i] == v;
    } else {
      var j := ThroughTheDoor(w, v, u, t, i, k);
      BeyondIsOnFirst(w, v, u, t, i - 1, j);
      assert (v + t)[..i] == (v + t)[..i - 1] + [(v + t)[i - 1]];
    }
  }

  lemma SharedIsListed(w: World, v: Path, u: Path, t: Path) returns (k: nat)
    requires Clash(w, v, u, t) && Genuine(Forked(w, v, u, t))
    ensures
      var visits := WalkFromRoot(Forked(w, v, u, t)).visits;
      k < |visits| && visits[k] == Visit(Own(|v|), v)
  {
    hide IsExcluded, WalkDirectory, Finite, Listing, Clash;
    var x := Forked(w, v, u, t);
    var visits := WalkFromRoot(x).visits;
    assert v[..0] == [];
    OwnDiffer(0);
    FirstWayLists(w, v, u, t, 0, {Own(0)});
    k :| 0 <= k < |visits| && visits[k] == Visit(Own(|v|), v);
  }

  lemma HiddenIsNotVisited(w: World, v: Path, u: Path, t: Path)
    requires Clash(w, v, u, t) && Genuine(Forked(w, v, u, t))
    ensures Hidden(v, t) !in WalkFromRoot(Forked(w, v, u, t)).visited
  {
    hide IsExcluded, WalkFromRoot, Forked, Resolve, Open, RealPath, MetFirst, SamePatterns;
    var x := Forked(w, v, u, t);
    var r := WalkFromRoot(x);
    if Hidden(v, t) in r.visited {
      var hidden := ListingOf(x, Hidden(v, t));
      var k :| 0 <= k < |r.visits| && r.visits[k] == hidden;
      BeyondIsOnFirst(w, v, u, t, |v + t|, k);
      assert hidden.path == v + t;
      ForkedSame(w, v, u, t);
      SameTests(w, x, v + t);
      ListedLeadsThere(x, k);
      ResolvedIsOpen(x, hidden.path);
    }
  }

  /** A clash loses a directory of a tree as a file system shows it: names that a
      directory can contain, in sorted listings. */
  lemma ClashLoses(w: World, v: Path, u: Path, t: Path)
    requires Clash(w, v, u, t)
    ensures
      var x := Forked(w, v, u, t);
      SamePatterns(w, x) && Genuine(x) && Reachable(x, Hidden(v, t)) && Hidden(v, t) !in WalkFromRoot(x).visited
  {
    hide Finite, Resolve, WalkFromRoot, IsExcluded, Reachable;
    ForkedSame(w, v, u, t);
    ForkedIsGenuine(w, v, u, t);
    HiddenIsReachable(w, v, u, t);
    HiddenIsNotVisited(w, v, u, t);
  }

  lemma NotComplete(w: World, directory: string)
    requires Finite(w) && Reachable(w, directory) && directory !in WalkFromRoot(w).visited
    ensures !Complete(w)
  {
  }

  // ------------------------------------------------------------------- the main results

  lemma SamePatternsAgree(w: World, v: World)
    requires SamePatterns(w, v) && Consistent(w)
    ensures Consistent(v)
  {
    hide IsExcluded, RealPath, MetFirst;
    forall path: Path | path != [] ensures IsExcluded(v, path) == IsExcluded(w, path) {
      SameTests(w, v, path);
    }
    forall a, b, t ensures !Clash(v, a, b, t) {
      assert !Clash(w, a, b, t);
    }
  }

  /** Patterns leave the walk complete on every tree a file system can show exactly when
      they never clash: whatever the directories, links and devices, no more is needed;
      and for every clash there is such a tree of which a reachable directory is never
      listed. */
  lemma PatternsDecide(w: World)
    ensures Consistent(w) <==> forall v: World :: SamePatterns(w, v) && Genuine(v) ==> Complete(v)
  {
    hide Finite, Complete, Clash, Reachable, WalkFromRoot, Forked, SamePatterns;
    if Consistent(w) {
      forall v: World | SamePatterns(w, v) && Genuine(v) ensures Complete(v) {
        SamePatternsAgree(w, v);
        ConsistentIsComplete(v);
      }
    } else {
      var v, u, t :| Clash(w, v, u, t);
      ClashLoses(w, v, u, t);
      NotComplete(Forked(w, v, u, t), Hidden(v, t));
    }
  }

  /** Patterns that look at names only never clash. */
  lemma NamePatternsAreConsistent(w: World)
    requires NamePatterns(w)
    ensures Consistent(w)
  {
    hide IsExcluded, MetFirst, RealPath, Open;
    forall v, u, t ensures !Clash(w, v, u, t) {
      if t != [] && RealPath(v + t) && RealPath(u + t) {
        ExclusionByName(w, v + t, u + t);
      }
    }
  }

  /** Under consistent patterns, name patterns among them, the directories listed are
      exactly the reachable ones, whatever cannot be read on the way. */
  lemma WalkIsExact(w: World)
    requires Genuine(w) && (Consistent(w) || NamePatterns(w))
    ensures forall d :: d in WalkFromRoot(w).visited <==> Reachable(w, d)
  {
    hide WalkFromRoot, Reachable, Consistent, NamePatterns;
    if NamePatterns(w) {
      NamePatternsAreConsistent(w);
    }
    WalkIsSound(w);
    ConsistentIsComplete(w);
  }

  /** One pattern with a slash, without wildcards. */
  ghost predicate OnlyPattern(w: World, text: string) {
    w.patterns == [text] && '/' in text && forall candidate :: w.matches(text, candidate) <==> candidate == text
  }

  /** The only excluded path is the one the pattern spells out. */
  lemma ExcludesText(w: World, text: string, path: Path)
    requires OnlyPattern(w, text) && path != []
    ensures IsExcluded(w, path) <==> Joined(path) == text
  {
    hide Joined, Base;
    assert w.patterns[0] == text && text in w.patterns;
    assert forall pattern <- w.patterns :: pattern == text;
  }

  lemma ExcludesOnly(w: World, p: Path, other: Path)
    requires p != [] && OnlyPattern(w, Joined(p)) && RealPath(p) && other != [] && RealPath(other) && other != p
    ensures !IsExcluded(w, other)
  {
    hide Joined, RealPath, IsExcluded, OnlyPattern;
    ExcludesText(w, Joined(p), other);
    TextsDiffer(p, other);
  }

  lemma OpenOtherwise(w: World, p: Path, q: Path)
    requires p != [] && OnlyPattern(w, Joined(p)) && RealPath(p) && RealPath(q)
    requires forall k :: 1 <= k < |q| ==> q[..k] != p
    ensures Open(w, q)
  {
    hide Joined, IsExcluded, RealName, OnlyPattern;
    forall k | 1 <= k < |q| ensures !IsExcluded(w, q[..k]) {
      ExcludesOnly(w, p, q[..k]);
    }
  }

  /** What a pattern spells out is excluded, but not below a link k beside it that leads
      back to its directory. */
  lemma CircleClashes(w: World, p: Path, k: Name)
    requires p != [] && OnlyPattern(w, Joined(p)) && RealPath(p) && RealName(k) && k != Last(p)
    ensures Clash(w, Parent(p), Parent(p) + [k], [Last(p)])
  {
    hide Joined, IsExcluded, RealName, OnlyPattern, CompareStrings, Open;
    var v, u, t := Parent(p), Parent(p) + [k], [Last(p)];
    var q, s := u + t, |p| - 1;
    assert v + t == p && p[..s] == v == u[..s] == q[..s];
    ForkIs(p, u, s);
    assert RealPath(q);
    OpenOtherwise(w, p, p);
    CircleMisses(p, k);
    OpenOtherwise(w, p, q);
    ExcludesOnly(w, p, q);
    ExcludesText(w, Joined(p), p);
  }

  lemma CircleMisses(p: Path, k: Name)
    requires p != [] && k != Last(p)
    ensures
      var q := Parent(p) + [k] + [Last(p)];
      q != p && forall j :: 1 <= j < |q| ==> q[..j] != p
  {
    var q := Parent(p) + [k] + [Last(p)];
    assert q[..|p|] == Parent(p) + [k];
    assert (Parent(p) + [k])[|p| - 1] == k;
  }

  /** A pattern with a slash and without wildcards loses directories of some tree exactly
      when it spells out a path of real names; one such as `a//b`, which does not,
      excludes nothing. */
  lemma LiteralPatternDecides(w: World, text: string)
    requires OnlyPattern(w, text)
    ensures Consistent(w) <==> forall p :: p != [] && RealPath(p) ==> Joined(p) != text
    ensures (forall v: World :: SamePatterns(w, v) && Genuine(v) ==> Complete(v))
       <==> forall p :: p != [] && RealPath(p) ==> Joined(p) != text
  {
    hide Joined, RealPath, IsExcluded, OnlyPattern, MetFirst, Open, Complete, Genuine, SamePatterns;
    PatternsDecide(w);
    if p: Path :| p != [] && RealPath(p) && Joined(p) == text {
      var k := if Last(p) == "a" then "b" else "a";
      CircleClashes(w, p, k);
      assert !Consistent(w);
    } else {
      forall v, u, t ensures !Clash(w, v, u, t) {
        if t != [] {
          ExcludesText(w, text, v + t);
        }
      }
    }
  }

  /** `m//n` is such a harmless pattern. */
  lemma DoubleSlashIsHarmless(w: World, m: Name, n: string)
    requires OnlyPattern(w, m + "//" + n) && '/' !in m
    ensures Consistent(w)
  {
    hide Joined, OnlyPattern, IsExcluded;
    forall p | p != [] && RealPath(p) ensures Joined(p) != m + "//" + n {
      NoEmptyName(p, m, n);
    }
    LiteralPatternDecides(w, m + "//" + n);
  }

  lemma NoEmptyName(p: Path, m: Name, n: string)
    requires p != [] && RealPath(p) && '/' !in m
    ensures Joined(p) != m + "//" + n
  {
    hide Joined, RealName;
    var text := m + "//" + n;
    JoinedStart(p);
    if |p| > 1 {
      NoSlashFirst(p[1..]);
    }
    assert text[|m|] == '/' && text[|m| + 1..][0] == '/';
    if Joined(p) == text {
      SameStart(text, p[0], m);
    }
  }

  lemma NoSlashFirst(p: Path)
    requires p != [] && RealPath(p)
    ensures Joined(p) != "" && Joined(p)[0] != '/'
  {
    hide Joined;
    JoinedStart(p);
    assert RealName(p[0]) && Joined(p)[0] == p[0][0];
  }

  /** `m/n` excludes the entry n of a directory under its name m, and not under a later
      name k of it; nor, whatever the order, where the directory has a link k to itself. */
  lemma SlashPatternsLoseDirectories(w: World, m: Name, n: Name, k: Name)
    requires OnlyPattern(w, m + "/" + n) && RealName(m) && RealName(n) && RealName(k) && k != n
    ensures CompareStrings(m, k) == LT ==> Clash(w, [m], [k], [n])
    ensures Clash(w, [m], [m, k], [n])
    ensures !forall v: World :: SamePatterns(w, v) && Genuine(v) ==> Complete(v)
  {
    hide Genuine, Complete, Consistent, RealName, OnlyPattern, Joined, IsExcluded;
    var p := [m, n];
    JoinTwo(m, n);
    assert Parent(p) == [m] && [m] + [k] == [m, k];
    CircleClashes(w, p, k);
    if CompareStrings(m, k) == LT {
      OtherNameClashes(w, m, n, k);
    }
    ClashIsInconsistent(w, [m], [m, k], [n]);
    PatternsDecide(w);
  }

  lemma OtherNameClashes(w: World, m: Name, n: Name, k: Name)
    requires OnlyPattern(w, m + "/" + n) && RealName(m) && RealName(n) && RealName(k) && CompareStrings(m, k) == LT
    ensures Clash(w, [m], [k], [n])
  {
    hide RealName, IsExcluded, CompareStrings, OnlyPattern, Joined, Open;
    var p, q := [m, n], [k, n];
    StringsOrder(m, k);
    JoinTwo(m, n);
    assert [m] + [n] == p && [k] + [n] == q;
    ForkIs(p, [k], 0);
    OpenOtherwise(w, p, p);
    OpenOtherwise(w, p, q);
    ExcludesOnly(w, p, q);
    ExcludesText(w, Joined(p), p);
  }

  lemma ClashIsInconsistent(w: World, v: Path, u: Path, t: Path)
    requires Clash(w, v, u, t)
    ensures !Consistent(w)
  {
  }

  lemma JoinTwo(m: Name, n: Name)
    ensures Joined([m, n]) == m + "/" + n
  {
  }
}
