/** The order of the walk. Listings come sorted by name, so the paths directories are
    listed by follow one another as in a dictionary: where a link leads to a directory
    that has been listed already, it was listed under a path that is not after this one. */
module SymlinkWalkOrder {
  import opened Common
  import opened SymlinkWalk
  import opened SymlinkWalkProofs
  import opened Ordering

  /** A name a directory can contain. */
  predicate RealName(name: Name) {
    name != "" && name != "." && name != ".." && '/' !in name
  }

  predicate RealPath(p: Path) {
    forall i :: 0 <= i < |p| ==> RealName(p[i])
  }

  /** In the order of `os.ReadDir`. */
  predicate Sorted(entries: seq<Entry>) {
    forall i, j :: 0 <= i < j < |entries| ==> CompareStrings(entries[i].name, entries[j].name) == LT
  }

  predicate RealListing(entries: seq<Entry>) {
    Sorted(entries) && forall i :: 0 <= i < |entries| ==> RealName(entries[i].name)
  }

  /** A finite tree as a file system shows it. */
  ghost predicate Genuine(w: World) {
    Finite(w) && forall d <- w.directories :: w.read(d).Some? ==> RealListing(w.read(d).value)
  }

  // ------------------------------------------------------------------- joined paths

  lemma JoinedStart(p: Path)
    requires p != [] && RealName(p[0])
    ensures p[0] <= Joined(p) && '/' !in p[0] && (|p| == 1 <==> |Joined(p)| == |p[0]|)
    ensures |p| > 1 ==> Joined(p)[|p[0]|] == '/' && Joined(p)[|p[0]| + 1..] == Joined(p[1..])
  {
    if |p| > 1 {
      assert Joined(p) == p[0] + "/" + Joined(p[1..]);
    }
  }

  /** The base of a path of real names is its last name. */
  lemma {:induction false} BaseIsLast(p: Path)
    requires p != [] && RealPath(p)
    ensures Base(Joined(p)) == p[|p| - 1]
    decreases |p|
  {
    hide RealName, Joined, TrimSlashes;
    EndsInLast(p);
    var last := p[|p| - 1];
    JoinedStart([last]);
    NothingToTrim(Joined(p));
    var head := Joined(p)[..|Joined(p)| - |last|];
    assert Joined(p) == head + last;
    AfterSlashIs(head, last);
  }

  lemma NothingToTrim(text: string)
    requires text != "" && text[|text| - 1] != '/'
    ensures TrimSlashes(text) == text
  {
  }

  lemma {:induction false} AfterSlashIs(head: string, name: string)
    requires '/' !in name && (head == "" || head[|head| - 1] == '/')
    ensures AfterSlash(head + name) == name
    decreases |name|
  {
    if name == "" {
      assert head + name == head;
    } else {
      var init, c := name[..|name| - 1], name[|name| - 1];
      assert head + name == head + init + [c] && (head + name)[..|head + name| - 1] == head + init;
      AfterSlashIs(head, init);
    }
  }

  lemma {:induction false} EndsInLast(p: Path)
    requires p != [] && RealPath(p)
    ensures
      var last, text := p[|p| - 1], Joined(p);
      && last != "" && '/' !in last && |text| >= |last| && text[|text| - |last|..] == last && text[|text| - 1] != '/'
      && (|text| == |last| || text[|text| - |last| - 1] == '/')
    decreases |p|
  {
    hide Joined;
    var last, text := p[|p| - 1], Joined(p);
    JoinedStart(p);
    if |p| > 1 {
      var rest := Joined(p[1..]);
      EndsInLast(p[1..]);
      assert p[1..][|p| - 2] == last && text == p[0] + "/" + rest;
      assert text[|text| - |last|..] == rest[|rest| - |last|..];
    } else {
      assert text == p[0];
    }
    assert RealName(last);
    assert text[|text| - 1] == last[|last| - 1];
  }

  /** A pattern with a slash excludes the paths whose text it matches, one without the
      paths whose last name it matches. */
  lemma ExclusionIs(w: World, p: Path)
    requires p != [] && RealPath(p)
    ensures IsExcluded(w, p) <==>
      exists i :: 0 <= i < |w.patterns| &&
        w.matches(w.patterns[i], if '/' in w.patterns[i] then Joined(p) else p[|p| - 1])
  {
    hide RealName, Joined, Base;
    BaseIsLast(p);
    if i :| 0 <= i < |w.patterns| && w.matches(w.patterns[i], if '/' in w.patterns[i] then Joined(p) else p[|p| - 1]) {
      assert Excludes(w, w.patterns[i], Joined(p));
    }
  }

  lemma SameStart(text: string, a: string, b: string)
    requires a <= text && b <= text && '/' !in a && '/' !in b
    requires |a| < |text| ==> text[|a|] == '/'
    requires |b| < |text| ==> text[|b|] == '/'
    ensures a == b
  {
    assert forall k :: 0 <= k < |a| ==> text[k] == a[k] && text[k] != '/';
    assert forall k :: 0 <= k < |b| ==> text[k] == b[k] && text[k] != '/';
    assert a == text[..|a|] && b == text[..|b|];
  }

  /** Different real paths have different texts. */
  lemma {:induction false} JoinedIsInjective(p: Path, q: Path)
    requires RealPath(p) && RealPath(q) && p != [] && q != [] && Joined(p) == Joined(q)
    ensures p == q
    decreases |p|
  {
    hide RealName, Joined;
    JoinedStart(p);
    JoinedStart(q);
    SameStart(Joined(p), p[0], q[0]);
    assert p == [p[0]] + p[1..] && q == [q[0]] + q[1..];
    if |p| > 1 {
      JoinedIsInjective(p[1..], q[1..]);
    }
  }

  lemma TextsDiffer(p: Path, q: Path)
    requires RealPath(p) && RealPath(q) && p != [] && q != [] && p != q
    ensures Joined(p) != Joined(q)
  {
    hide Joined, RealPath;
    if Joined(p) == Joined(q) {
      JoinedIsInjective(p, q);
    }
  }

  // ------------------------------------------------------------------ the order of paths

  /** Where two paths part. */
  function Fork(a: Path, b: Path): (c: nat)
    ensures c <= |a| && c <= |b| && a[..c] == b[..c]
    ensures c < |a| && c < |b| ==> a[c] != b[c]
  {
    if a == [] || b == [] || a[0] != b[0] then 0
    else
      var c := 1 + Fork(a[1..], b[1..]);
      assert a[..c] == [a[0]] + a[1..][..c - 1] && b[..c] == [b[0]] + b[1..][..c - 1];
      c
  }

  lemma {:induction false} ForkIs(a: Path, b: Path, c: nat)
    requires c < |a| && c < |b| && a[..c] == b[..c] && a[c] != b[c]
    ensures Fork(a, b) == c
  {
    if c > 0 {
      assert a[0] == a[..c][0] == b[..c][0] == b[0];
      assert a[1..][..c - 1] == a[..c][1..] == b[..c][1..] == b[1..][..c - 1];
      ForkIs(a[1..], b[1..], c - 1);
    }
  }

  /** The first path leads up to the second, or parts from it to an earlier name. */
  predicate NotAfter(p: Path, q: Path) {
    var c := Fork(p, q);
    c == |p| || (c < |q| && CompareStrings(p[c], q[c]) == LT)
  }

  lemma PrefixIsNotAfter(p: Path, q: Path)
    requires p <= q
    ensures NotAfter(p, q)
  {
    assert forall i :: 0 <= i < |p| ==> p[i] == q[i];
  }

  /** Paths through a smaller name are not after those through a greater one. */
  lemma EarlierBranch(path: Path, m: Name, n: Name, p: Path, q: Path)
    requires CompareStrings(m, n) == LT && path + [m] <= p && path + [n] <= q
    ensures NotAfter(p, q)
  {
    var c := |path|;
    StringsOrder(m, n);
    assert p[..c] == (path + [m])[..c] == path == (path + [n])[..c] == q[..c];
    assert p[c] == (path + [m])[c] && q[c] == (path + [n])[c];
    ForkIs(p, q, c);
  }

  // ---------------------------------------------------------------- edges in order

  ghost predicate ListedNotAfter(visits: seq<Visit>, directory: string, path: Path) {
    exists x :: 0 <= x < |visits| && visits[x].directory == directory && NotAfter(visits[x].path, path)
  }

  /** The directory an entry enters was visited before, or is listed not after it. */
  ghost predicate EdgeInOrder(w: World, visits: seq<Visit>, before: set<string>, e: Entry, path: Path)
    requires path != []
  {
    var target := Enters(w, e, path);
    target.Some? && target.value in w.directories ==>
      target.value in before || ListedNotAfter(visits, target.value, path)
  }

  ghost predicate EdgesFrom(
    w: World, visits: seq<Visit>, before: set<string>, entries: seq<Entry>, index: nat, path: Path)
  {
    forall j :: index <= j < |entries| ==> EdgeInOrder(w, visits, before, entries[j], path + [entries[j].name])
  }

  ghost predicate VisitInOrder(w: World, visits: seq<Visit>, before: set<string>, v: Visit) {
    w.read(v.directory).Some? ==> EdgesFrom(w, visits, before, w.read(v.directory).value, 0, v.path)
  }

  ghost predicate VisitsInOrder(w: World, visits: seq<Visit>, before: set<string>) {
    forall i :: 0 <= i < |visits| ==> VisitInOrder(w, visits, before, visits[i])
  }

  predicate AllUnder(visits: seq<Visit>, top: Path) {
    forall i :: 0 <= i < |visits| ==> top <= visits[i].path
  }

  /** Every listing is below one of the entries from an index on. */
  ghost predicate UnderEntries(visits: seq<Visit>, entries: seq<Entry>, index: nat, path: Path) {
    forall i :: 0 <= i < |visits| ==> UnderOne(visits[i].path, entries, index, path)
  }

  ghost predicate UnderOne(p: Path, entries: seq<Entry>, index: nat, path: Path) {
    exists j :: index <= j < |entries| && path + [entries[j].name] <= p
  }

  /** An edge stays in order among more listings, or if what was visited before it is
      listed not after it. */
  lemma EdgeStays(
    w: World, visits: seq<Visit>, more: seq<Visit>, before: set<string>, earlier: set<string>, e: Entry, path: Path)
    requires path != [] && EdgeInOrder(w, visits, before, e, path)
    requires forall i :: 0 <= i < |visits| ==> visits[i] in more
    requires forall d :: d in before && d !in earlier && d in w.directories ==> ListedNotAfter(more, d, path)
    ensures EdgeInOrder(w, more, earlier, e, path)
  {
    hide Enters, NotAfter;
    var target := Enters(w, e, path);
    if target.Some? && ListedNotAfter(visits, target.value, path) {
      var x :| 0 <= x < |visits| && visits[x].directory == target.value && NotAfter(visits[x].path, path);
      assert visits[x] in more;
    }
  }

  lemma {:induction false} DirectoryInOrder(w: World, directory: string, path: Path, visited: set<string>)
    requires Genuine(w) && visited <= w.directories && directory in w.directories
    ensures
      var visits := WalkDirectory(w, directory, path, visited).visits;
      && visits != [] && visits[0] == Visit(directory, path)
      && AllUnder(visits, path) && VisitsInOrder(w, visits, visited)
    decreases w.directories - visited, 2, 0
  {
    hide WalkEntries, EdgeInOrder;
    var visits := WalkDirectory(w, directory, path, visited).visits;
    match w.read(directory)
    case None =>
    case Some(entries) =>
      var rest := WalkEntries(w, entries, 0, path, visited).visits;
      EntriesInOrder(w, directory, entries, 0, path, visited);
      assert visits == [Visit(directory, path)] + rest;
      forall i | 0 <= i < |visits| ensures path <= visits[i].path && VisitInOrder(w, visits, visited, visits[i]) {
        if i > 0 {
          assert visits[i] == rest[i - 1];
          var j :| 0 <= j < |entries| && path + [entries[j].name] <= rest[i - 1].path;
        }
        MoreVisits(w, rest, visits, visited, visits[i]);
        EdgesAmongMore(w, rest, visits, visited, entries, 0, path);
      }
  }

  lemma EdgesAmongMore(
    w: World, visits: seq<Visit>, more: seq<Visit>, before: set<string>, entries: seq<Entry>, index: nat, path: Path)
    requires EdgesFrom(w, visits, before, entries, index, path) && forall i :: 0 <= i < |visits| ==> visits[i] in more
    ensures EdgesFrom(w, more, before, entries, index, path)
  {
    hide EdgeInOrder;
    forall j | index <= j < |entries| ensures EdgeInOrder(w, more, before, entries[j], path + [entries[j].name]) {
      EdgeStays(w, visits, more, before, before, entries[j], path + [entries[j].name]);
    }
  }

  lemma MoreVisits(w: World, visits: seq<Visit>, more: seq<Visit>, before: set<string>, v: Visit)
    requires forall i :: 0 <= i < |visits| ==> visits[i] in more
    ensures VisitInOrder(w, visits, before, v) ==> VisitInOrder(w, more, before, v)
  {
    hide EdgeInOrder, EdgesFrom;
    if VisitInOrder(w, visits, before, v) && w.read(v.directory).Some? {
      EdgesAmongMore(w, visits, more, before, w.read(v.directory).value, 0, v.path);
    }
  }

  lemma {:induction false} EntriesInOrder(
    w: World, directory: string, entries: seq<Entry>, index: nat, path: Path, visited: set<string>)
    requires Genuine(w) && visited <= w.directories && directory in w.directories
    requires w.read(directory) == Some(entries) && index <= |entries|
    ensures
      var visits := WalkEntries(w, entries, index, path, visited).visits;
      && UnderEntries(visits, entries, index, path) && VisitsInOrder(w, visits, visited)
      && EdgesFrom(w, visits, visited, entries, index, path)
    decreases w.directories - visited, 1, |entries| - index
  {
    hide WalkEntry, EdgeInOrder, Genuine, VisitInOrder, EdgesFrom, UnderOne;
    if index == |entries| {
      NoEdges(w, [], visited, entries, index, path);
    } else {
      var e := entries[index];
      var p := path + [e.name];
      var one := WalkEntry(w, e, p, visited);
      var rest := WalkEntries(w, entries, index + 1, path, one.visited);
      ListedLeads(w, directory, index);
      EntryInOrder(w, e, p, visited);
      EntryListsOnce(w, e, p, visited);
      assert w.directories - one.visited <= w.directories - visited;
      EntriesInOrder(w, directory, entries, index + 1, path, one.visited);
      OneThenRest(w, directory, entries, index, path, visited, one.visits, rest.visits, one.visited);
    }
  }

  lemma NoEdges(w: World, visits: seq<Visit>, before: set<string>, entries: seq<Entry>, index: nat, path: Path)
    requires index == |entries|
    ensures EdgesFrom(w, visits, before, entries, index, path)
  {
  }

  lemma ListedLeads(w: World, directory: string, i: nat)
    requires Genuine(w) && directory in w.directories && w.read(directory).Some? && i < |w.read(directory).value|
    ensures
      var lead := Leads(w.read(directory).value[i].node);
      lead.Some? ==> lead.value in w.directories
  {
    ListedLead(w, directory, i);
  }

  /** What a later branch finds visited by an earlier one is listed before it. */
  lemma LaterBranch(
    w: World, entries: seq<Entry>, index: nat, path: Path, visited: set<string>, one: seq<Visit>, after: set<string>,
    d: string, q: Path)
    requires Sorted(entries) && index < |entries| && AllUnder(one, path + [entries[index].name])
    requires Elements(Directories(one)) == after - visited && d in after && d !in visited
    requires UnderOne(q, entries, index + 1, path)
    ensures ListedNotAfter(one, d, q)
  {
    assert d in Elements(Directories(one));
    var x :| 0 <= x < |one| && Directories(one)[x] == d;
    var j :| index + 1 <= j < |entries| && path + [entries[j].name] <= q;
    EarlierBranch(path, entries[index].name, entries[j].name, one[x].path, q);
  }

  lemma OneThenRest(
    w: World, directory: string, entries: seq<Entry>, index: nat, path: Path, visited: set<string>,
    one: seq<Visit>, rest: seq<Visit>, after: set<string>)
    requires Genuine(w) && directory in w.directories && w.read(directory) == Some(entries) && index < |entries|
    requires AllUnder(one, path + [entries[index].name]) && VisitsInOrder(w, one, visited)
    requires EdgeInOrder(w, one, visited, entries[index], path + [entries[index].name])
    requires Elements(Directories(one)) == after - visited && visited <= after
    requires UnderEntries(rest, entries, index + 1, path) && VisitsInOrder(w, rest, after)
    requires EdgesFrom(w, rest, after, entries, index + 1, path)
    ensures UnderEntries(one + rest, entries, index, path) && VisitsInOrder(w, one + rest, visited)
    ensures EdgesFrom(w, one + rest, visited, entries, index, path)
  {
    hide EdgeInOrder, Genuine, Enters;
    var all := one + rest;
    SortedListing(w, directory);
    forall i | 0 <= i < |all|
      ensures UnderOne(all[i].path, entries, index, path) && VisitInOrder(w, all, visited, all[i])
    {
      if i < |one| {
        assert all[i] == one[i];
        MoreVisits(w, one, all, visited, all[i]);
      } else {
        assert all[i] == rest[i - |one|];
        var j :| index + 1 <= j < |entries| && path + [entries[j].name] <= rest[i - |one|].path;
        LaterVisit(w, entries, index, path, visited, one, rest, after, all[i]);
      }
    }
    forall j | index <= j < |entries| ensures EdgeInOrder(w, all, visited, entries[j], path + [entries[j].name]) {
      var q := path + [entries[j].name];
      if j == index {
        EdgeStays(w, one, all, visited, visited, entries[j], q);
      } else {
        LaterEdge(w, entries, index, path, visited, one, rest, after, entries[j], q);
      }
    }
  }

  lemma SortedListing(w: World, directory: string)
    requires Genuine(w) && directory in w.directories && w.read(directory).Some?
    ensures Sorted(w.read(directory).value)
  {
  }

  lemma LaterEdge(
    w: World, entries: seq<Entry>, index: nat, path: Path, visited: set<string>, one: seq<Visit>, rest: seq<Visit>,
    after: set<string>, e: Entry, q: Path)
    requires Sorted(entries) && index < |entries| && AllUnder(one, path + [entries[index].name])
    requires Elements(Directories(one)) == after - visited && q != [] && UnderOne(q, entries, index + 1, path)
    requires EdgeInOrder(w, rest, after, e, q)
    ensures EdgeInOrder(w, one + rest, visited, e, q)
  {
    hide EdgeInOrder, UnderOne, NotAfter;
    forall d | d in after && d !in visited && d in w.directories ensures ListedNotAfter(one + rest, d, q) {
      LaterBranch(w, entries, index, path, visited, one, after, d, q);
      var x :| 0 <= x < |one| && one[x].directory == d && NotAfter(one[x].path, q);
      assert (one + rest)[x] == one[x];
    }
    EdgeStays(w, rest, one + rest, after, visited, e, q);
  }

  lemma LaterVisit(
    w: World, entries: seq<Entry>, index: nat, path: Path, visited: set<string>, one: seq<Visit>, rest: seq<Visit>,
    after: set<string>, v: Visit)
    requires Sorted(entries) && index < |entries| && AllUnder(one, path + [entries[index].name])
    requires Elements(Directories(one)) == after - visited && UnderOne(v.path, entries, index + 1, path)
    requires VisitInOrder(w, rest, after, v)
    ensures VisitInOrder(w, one + rest, visited, v)
  {
    hide EdgeInOrder;
    if w.read(v.directory).Some? {
      var listing := w.read(v.directory).value;
      forall j | 0 <= j < |listing|
        ensures EdgeInOrder(w, one + rest, visited, listing[j], v.path + [listing[j].name])
      {
        var k :| index + 1 <= k < |entries| && path + [entries[k].name] <= v.path;
        assert path + [entries[k].name] <= v.path + [listing[j].name];
        LaterEdge(w, entries, index, path, visited, one, rest, after, listing[j], v.path + [listing[j].name]);
      }
    }
  }

  lemma {:induction false} EntryInOrder(w: World, e: Entry, path: Path, visited: set<string>)
    requires Genuine(w) && visited <= w.directories && path != []
    ensures
      var visits := WalkEntry(w, e, path, visited).visits;
      AllUnder(visits, path) && VisitsInOrder(w, visits, visited) && EdgeInOrder(w, visits, visited, e, path)
    decreases w.directories - visited, 0, 0
  {
    hide WalkDirectory, Enters, Queues, Reports, Genuine, NotAfter;
    var target := Enters(w, e, path);
    if target.Some? && target.value !in visited && target.value in w.directories {
      assert target.value in w.directories - visited;
      var inner := WalkDirectory(w, target.value, path, visited + {target.value});
      DirectoryInOrder(w, target.value, path, visited + {target.value});
      assert [] + inner.visits == inner.visits;
      PrefixIsNotAfter(path, path);
      assert ListedNotAfter(inner.visits, target.value, path);
      forall i | 0 <= i < |inner.visits| ensures VisitInOrder(w, inner.visits, visited, inner.visits[i]) {
        TopVisited(w, inner.visits, visited, target.value, path, inner.visits[i]);
      }
    }
  }

  /** What is below a listing finds that directory listed not after it. */
  lemma TopVisited(w: World, visits: seq<Visit>, visited: set<string>, directory: string, path: Path, v: Visit)
    requires visits != [] && visits[0] == Visit(directory, path) && path <= v.path
    requires VisitInOrder(w, visits, visited + {directory}, v)
    ensures VisitInOrder(w, visits, visited, v)
  {
    hide EdgeInOrder, NotAfter;
    if w.read(v.directory).Some? {
      var listing := w.read(v.directory).value;
      forall j | 0 <= j < |listing| ensures EdgeInOrder(w, visits, visited, listing[j], v.path + [listing[j].name]) {
        var q := v.path + [listing[j].name];
        PrefixIsNotAfter(path, q);
        assert ListedNotAfter(visits, directory, q);
        EdgeStays(w, visits, visits, visited + {directory}, visited, listing[j], q);
      }
    }
  }

  /** Every directory that can be entered from a listed one, by an entry that is not
      excluded there, is listed, under a path that is not after that entry. */
  lemma EnteredIsListed(w: World, i: nat, j: nat) returns (k: nat)
    requires Genuine(w) && i < |WalkFromRoot(w).visits|
    requires
      var v := WalkFromRoot(w).visits[i];
      w.read(v.directory).Some? && j < |w.read(v.directory).value| &&
      var e := w.read(v.directory).value[j];
      Enters(w, e, v.path + [e.name]).Some? && Enters(w, e, v.path + [e.name]).value in w.directories
    ensures
      var visits := WalkFromRoot(w).visits;
      var e := w.read(visits[i].directory).value[j];
      var q := visits[i].path + [e.name];
      k < |visits| && Enters(w, e, q) == Some(visits[k].directory) && NotAfter(visits[k].path, q)
  {
    hide WalkDirectory, Enters, NotAfter;
    var visits := WalkFromRoot(w).visits;
    var e := w.read(visits[i].directory).value[j];
    var q := visits[i].path + [e.name];
    DirectoryInOrder(w, w.root, [], {w.root});
    assert VisitInOrder(w, visits, {w.root}, visits[i]);
    assert EdgeInOrder(w, visits, {w.root}, e, q);
    PrefixIsNotAfter([], q);
    if Enters(w, e, q).value == w.root {
      k := 0;
    } else {
      k :| 0 <= k < |visits| && visits[k].directory == Enters(w, e, q).value && NotAfter(visits[k].path, q);
    }
  }
}
