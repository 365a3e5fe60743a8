/** From the file tree to the report: the files the walk with symbolic links finds go
    through the pipeline, and the report depends on the tree and its files alone. */
module ScanReport {
  import opened Common
  import opened Content
  import opened Ordering
  import opened Schedule
  import opened SymlinkWalkProofs
  import Archive
  import ArchiveBudget
  import ArchiveFile
  import ArchiveFlatten
  import Pipeline
  import W = SymlinkWalk
  import Order = SymlinkWalkOrder
  import Patterns = SymlinkWalkPatterns
  import Queue = SymlinkWalkQueue

  // ---------------------------------------------------- what the walk hands to workers

  /** The path a file is shown and opened by. `prefix` is what `filepath.Join` keeps of the
      root before the first name below it: the cleaned root and a slash, a lone slash
      for the root directory, nothing for the current directory. */
  function Display(root: string, prefix: string, path: W.Path): string {
    if path == [] then root else prefix + W.Joined(path)
  }

  function ToTask(root: string, prefix: string, found: W.Found): Pipeline.Task {
    match found
    case Queue(path) => Pipeline.Task.Queue(Display(root, prefix, path))
    case Report(path) => Pipeline.Task.Report(Display(root, prefix, path))
  }

  function ToTasks(root: string, prefix: string, found: seq<W.Found>): (r: seq<Pipeline.Task>)
    ensures |r| == |found| && forall i :: 0 <= i < |r| ==> r[i] == ToTask(root, prefix, found[i])
  {
    if found == [] then [] else [ToTask(root, prefix, found[0])] + ToTasks(root, prefix, found[1..])
  }

  /** What the walk over a tree gives the pipeline to do. */
  function TasksOf(w: W.World, root: string, prefix: string): seq<Pipeline.Task>
    requires w.root in w.directories
  {
    ToTasks(root, prefix, W.WalkFromRoot(w).tasks)
  }

  function Texts(root: string, prefix: string, paths: seq<W.Path>): (r: seq<string>)
    ensures |r| == |paths| && forall i :: 0 <= i < |r| ==> r[i] == Display(root, prefix, paths[i])
  {
    seq(|paths|, i requires 0 <= i < |paths| => Display(root, prefix, paths[i]))
  }

  lemma {:induction false} QueuedTexts(root: string, prefix: string, found: seq<W.Found>)
    ensures Pipeline.QueuedPaths(ToTasks(root, prefix, found)) == Texts(root, prefix, Queue.Queued(found))
  {
    if found != [] {
      QueuedTexts(root, prefix, found[1..]);
      var tasks := ToTasks(root, prefix, found);
      assert tasks[1..] == ToTasks(root, prefix, found[1..]);
    }
  }

  /** Where nothing is found twice under one text, and nothing but the root under its
      path, no two tasks have the same path. */
  lemma TasksAreApart(w: W.World, root: string, prefix: string)
    requires Order.Genuine(w)
    ensures DistinctPaths(TasksOf(w, root, prefix))
  {
    hide W.WalkFromRoot, W.Joined, Order.RealName;
    var found := W.WalkFromRoot(w).tasks;
    Queue.QueueIsExact(w);
    OnlyRootUnderItself(w);
    forall i, j | 0 <= i < j < |found|
      ensures Display(root, prefix, found[i].path) != Display(root, prefix, found[j].path)
    {
      SameAfterPrefix(prefix, W.Joined(found[i].path), W.Joined(found[j].path));
    }
  }

  lemma SameAfterPrefix(prefix: string, a: string, b: string)
    ensures prefix + a == prefix + b ==> a == b
  {
    assert (prefix + a)[|prefix|..] == a && (prefix + b)[|prefix|..] == b;
  }

  /** The root itself is reported only when there is nothing else. */
  lemma OnlyRootUnderItself(w: W.World)
    requires Order.Genuine(w)
    ensures
      var found := W.WalkFromRoot(w).tasks;
      |found| <= 1 || forall i :: 0 <= i < |found| ==> found[i].path != []
  {
    hide W.WalkDirectory, Order.RealListing;
    Queue.DirectoryFindsOnce(w, w.root, [], {w.root});
    var paths := Queue.Paths(W.WalkFromRoot(w).tasks);
    assert forall i :: 0 <= i < |paths| ==> paths[i] == W.WalkFromRoot(w).tasks[i].path;
  }

  // --------------------------------------------------------------- no repeated values

  lemma {:induction false} CountOne<T>(s: seq<T>, x: T)
    requires NoDuplicates(s)
    ensures multiset(s)[x] <= 1
  {
    if s != [] {
      var rest := s[1..];
      assert s == [s[0]] + rest && forall i :: 0 <= i < |rest| ==> rest[i] == s[i + 1];
      CountOne(rest, x);
      assert s[0] !in rest;
    }
  }

  lemma {:induction false} OneEach<T>(s: seq<T>)
    requires forall x :: multiset(s)[x] <= 1
    ensures NoDuplicates(s)
  {
    if s != [] {
      var rest := s[1..];
      assert s == [s[0]] + rest && multiset(s) == multiset{s[0]} + multiset(rest);
      forall x ensures multiset(rest)[x] <= 1 {
        assert multiset(s)[x] <= 1;
      }
      OneEach(rest);
      assert multiset(s)[s[0]] == 1 + multiset(rest)[s[0]];
      assert s[0] !in multiset(rest);
      forall i, j | 0 <= i < j < |s| ensures s[i] != s[j] {
        assert s[j] == rest[j - 1];
        if i > 0 {
          assert s[i] == rest[i - 1];
        }
      }
    }
  }

  lemma SameWithoutDuplicates<T>(a: seq<T>, b: seq<T>)
    requires NoDuplicates(a) && multiset(a) == multiset(b)
    ensures NoDuplicates(b)
  {
    forall x ensures multiset(b)[x] <= 1 {
      CountOne(a, x);
    }
    OneEach(b);
  }

  // ----------------------------------------------------- results of files in archives

  /** Certificates numbered from zero, findings in order, all of one entry of one file. */
  predicate NumberedUnder(o: Outcome, outer: string, entries: seq<string>) {
    && (forall i :: 0 <= i < |o.certificates| ==>
          o.certificates[i].path == outer && o.certificates[i].entries == entries && o.certificates[i].index == i)
    && (forall i :: 0 <= i < |o.findings| ==> o.findings[i].path == outer && o.findings[i].entries == entries)
    && (forall i, j :: 0 <= i < j < |o.findings| ==> o.findings[i].contentIndex < o.findings[j].contentIndex)
  }

  lemma EntryNumbers(cfg: Archive.Config, data: Bytes, complete: bool, path: seq<string>)
    ensures NumberedUnder(
              Archive.Attach(ScanContentData(cfg.codecs, cfg.outerPath, data, complete).0, path), cfg.outerPath, path)
  {
    hide ScanContentData;
    ContentNumbers(cfg.codecs, cfg.outerPath, data, complete);
  }

  lemma FailureKeepsNumbers(o: Outcome, cause: Cause, outer: string, entries: seq<string>)
    requires NumberedUnder(o, outer, entries)
    ensures NumberedUnder(Archive.Merge(o, Archive.Failure(cause)), outer, entries)
  {
  }

  lemma LeafNumbers(cfg: Archive.Config, s: Archive.Stream, path: seq<string>, p: Archive.PrefixRun)
    requires p.taken <= |s.data|
    ensures NumberedUnder(Archive.Leaf(cfg, s, path, p).outcome, cfg.outerPath, path)
  {
    hide ScanContentData, NumberedUnder, Archive.ReadFull, Archive.Merge, Archive.Attach;
    EntryNumbers(cfg, p.prefix, false, path);
    EntryNumbers(cfg, p.prefix, p.complete, path);
    var partial := Archive.Attach(ScanContentData(cfg.codecs, cfg.outerPath, p.prefix, p.complete && p.cause.None?).0,
                                  path);
    if p.cause.Some? {
      FailureKeepsNumbers(partial, p.cause.value, cfg.outerPath, path);
    } else {
      var full := Archive.ReadFull(cfg, s, p);
      EntryNumbers(cfg, full.data, true, path);
      if full.cause.Some? {
        FailureKeepsNumbers(partial, full.cause.value, cfg.outerPath, path);
      }
    }
  }

  lemma VisitNumbers(cfg: Archive.Config, v: ArchiveFlatten.Visit)
    requires v.Entry?
    ensures NumberedUnder(ArchiveFlatten.VisitOutcome(cfg, v), cfg.outerPath, v.path)
  {
    hide NumberedUnder, Archive.Leaf, Archive.ReadPrefix;
    LeafNumbers(ArchiveBudget.Free(cfg), v.content, v.path, ArchiveFlatten.FreePrefix(cfg, v.content));
  }

  /** No two entries that are no archives stand under the same path. */
  predicate LeavesApart(visits: seq<ArchiveFlatten.Visit>) {
    forall i, j :: 0 <= i < j < |visits| && visits[i].Entry? && visits[j].Entry? ==> visits[i].path != visits[j].path
  }

  lemma {:induction false} CertificateFrom(cfg: Archive.Config, visits: seq<ArchiveFlatten.Visit>, c: Certificate)
    returns (i: nat)
    requires c in ArchiveFlatten.CertificatesOf(cfg, visits)
    ensures i < |visits| && visits[i].Entry? && c in ArchiveFlatten.VisitOutcome(cfg, visits[i]).certificates
  {
    hide ArchiveFlatten.FreeLeaf;
    if c in ArchiveFlatten.VisitOutcome(cfg, visits[0]).certificates {
      i := 0;
    } else {
      i := CertificateFrom(cfg, visits[1..], c);
      i := i + 1;
    }
  }

  lemma {:induction false} FindingFrom(cfg: Archive.Config, visits: seq<ArchiveFlatten.Visit>, f: Finding)
    returns (i: nat)
    requires f in ArchiveFlatten.FindingsOf(cfg, visits)
    ensures i < |visits| && visits[i].Entry? && f in ArchiveFlatten.VisitOutcome(cfg, visits[i]).findings
  {
    hide ArchiveFlatten.FreeLeaf;
    if f in ArchiveFlatten.VisitOutcome(cfg, visits[0]).findings {
      i := 0;
    } else {
      i := FindingFrom(cfg, visits[1..], f);
      i := i + 1;
    }
  }

  lemma CertificatesPlaced(cfg: Archive.Config, visits: seq<ArchiveFlatten.Visit>)
    requires LeavesApart(visits)
    ensures
      var all := ArchiveFlatten.CertificatesOf(cfg, visits);
      (forall c <- all :: c.path == cfg.outerPath) && DistinctKeys(multiset(all), CertificateKey)
  {
    hide ArchiveFlatten.VisitOutcome, ArchiveFlatten.CertificatesOf;
    var all := ArchiveFlatten.CertificatesOf(cfg, visits);
    forall c <- all ensures c.path == cfg.outerPath {
      var i := CertificateFrom(cfg, visits, c);
      VisitNumbers(cfg, visits[i]);
    }
    forall x: Certificate, y: Certificate | x in all && y in all && CertificateKey(x) == CertificateKey(y)
      ensures x == y
    {
      var i := CertificateFrom(cfg, visits, x);
      var j := CertificateFrom(cfg, visits, y);
      VisitNumbers(cfg, visits[i]);
      VisitNumbers(cfg, visits[j]);
    }
  }

  lemma FindingsPlaced(cfg: Archive.Config, visits: seq<ArchiveFlatten.Visit>)
    requires LeavesApart(visits)
    ensures
      var all := ArchiveFlatten.FindingsOf(cfg, visits);
      (forall f <- all :: f.path == cfg.outerPath) && DistinctKeys(multiset(all), FindingKey)
  {
    hide ArchiveFlatten.VisitOutcome, ArchiveFlatten.FindingsOf;
    var all := ArchiveFlatten.FindingsOf(cfg, visits);
    forall f <- all ensures f.path == cfg.outerPath {
      var i := FindingFrom(cfg, visits, f);
      VisitNumbers(cfg, visits[i]);
    }
    forall x: Finding, y: Finding | x in all && y in all && FindingKey(x) == FindingKey(y) ensures x == y {
      var i := FindingFrom(cfg, visits, x);
      var j := FindingFrom(cfg, visits, y);
      VisitNumbers(cfg, visits[i]);
      VisitNumbers(cfg, visits[j]);
    }
  }

  /** With archives on, the results of an archive that is scanned to the end are of this
      kind too, if no two of its leaves stand under the same path. */
  lemma ArchivesQualify(cfg: Archive.Config, file: Bytes, format: Archive.Format)
    requires cfg.maxDepth >= 1 && Archive.DetectFormat(Prefix(file, cfg.maxBytes)) == Some(format)
    requires ArchiveFlatten.Unhindered(Archive.ScanOuter(ArchiveBudget.Free(cfg), file, format).outcome.causes)
    requires LeavesApart(ArchiveFlatten.PlanArchive(cfg, file, format, [], 1).visits)
    requires cfg.budget.Some? && cfg.budget.value >= ArchiveFlatten.PlanArchive(cfg, file, format, [], 1).bytes
    ensures Placed(ArchiveFile.ScanFile(cfg, file, true), cfg.outerPath)
  {
    hide Archive.ScanOuter, Archive.DetectFormat, ArchiveFlatten.PlanArchive, LeavesApart, DistinctKeys;
    ArchiveFlatten.ScanIsFlattening(cfg, file, format);
    CertificatesPlaced(cfg, ArchiveFlatten.PlanArchive(cfg, file, format, [], 1).visits);
    FindingsPlaced(cfg, ArchiveFlatten.PlanArchive(cfg, file, format, [], 1).visits);
  }

  // -------------------------------------------------------------------- main results

  /** A wanted file of a directory the walk lists, by the path it is shown under. */
  ghost predicate Wanted(w: W.World, prefix: string, text: string)
    requires w.root in w.directories
  {
    exists p :: Queue.FromVisits(w, W.WalkFromRoot(w).visits, W.Found.Queue(p)) && text == prefix + W.Joined(p)
  }

  lemma QueuedIsWanted(w: W.World, root: string, prefix: string, text: string)
    requires Order.Genuine(w)
    ensures text in Pipeline.QueuedPaths(TasksOf(w, root, prefix)) <==> Wanted(w, prefix, text)
    ensures NoDuplicates(Pipeline.QueuedPaths(TasksOf(w, root, prefix)))
  {
    hide W.WalkFromRoot, W.Joined, Order.RealName, Queue.FromVisits;
    var found := W.WalkFromRoot(w).tasks;
    Queue.QueueIsExact(w);
    QueuedTexts(root, prefix, found);
    QueuedAreApart(w, root, prefix);
    var paths := Queue.Queued(found);
    forall p ensures p in paths <==> Queue.FromVisits(w, W.WalkFromRoot(w).visits, W.Found.Queue(p)) {
      Queue.QueuedInTasks(found, p);
    }
    forall p | p in paths ensures p != [] {
      BelowRoot(w, p);
    }
    if text in Texts(root, prefix, paths) {
      var i :| 0 <= i < |paths| && Texts(root, prefix, paths)[i] == text;
      assert paths[i] in paths;
    }
    if Wanted(w, prefix, text) {
      var p :| Queue.FromVisits(w, W.WalkFromRoot(w).visits, W.Found.Queue(p)) && text == prefix + W.Joined(p);
      var i :| 0 <= i < |paths| && paths[i] == p;
      assert Texts(root, prefix, paths)[i] == text;
    }
  }

  lemma BelowRoot(w: W.World, p: W.Path)
    requires w.root in w.directories && Queue.FromVisits(w, W.WalkFromRoot(w).visits, W.Found.Queue(p))
    ensures p != []
  {
    hide W.WalkFromRoot;
  }

  lemma {:induction false} DistinctQueued(tasks: seq<Pipeline.Task>)
    requires DistinctPaths(tasks)
    ensures NoDuplicates(Pipeline.QueuedPaths(tasks))
    ensures forall x :: x in Pipeline.QueuedPaths(tasks) ==> exists i :: 0 <= i < |tasks| && tasks[i].path == x
  {
    if tasks != [] {
      var rest := tasks[1..];
      assert forall i :: 0 <= i < |rest| ==> rest[i] == tasks[i + 1];
      DistinctQueued(rest);
      assert tasks[0].path !in Pipeline.QueuedPaths(rest);
      forall x | x in Pipeline.QueuedPaths(tasks) ensures exists i :: 0 <= i < |tasks| && tasks[i].path == x {
        if x in Pipeline.QueuedPaths(rest) {
          var i :| 0 <= i < |rest| && rest[i].path == x;
          assert tasks[i + 1].path == x;
        }
      }
    }
  }

  lemma QueuedAreApart(w: W.World, root: string, prefix: string)
    requires Order.Genuine(w)
    ensures NoDuplicates(Pipeline.QueuedPaths(TasksOf(w, root, prefix)))
  {
    TasksAreApart(w, root, prefix);
    DistinctQueued(TasksOf(w, root, prefix));
  }

  /** From the tree to the workers: whatever the schedule, a finished run nobody cancelled
      has scanned every wanted file of every listed directory exactly once, under its
      own path, and no other file. */
  lemma WantedFilesAreScannedOnce(w: W.World, root: string, prefix: string, workers: nat, run: seq<Pipeline.Step>)
    requires Order.Genuine(w) && workers > 0 && Pipeline.Uncancelled(run)
    requires
      var end := Pipeline.After(Pipeline.Start(TasksOf(w, root, prefix), workers), run);
      end.Some? && end.value.collector.Returned?
    ensures
      var end := Pipeline.After(Pipeline.Start(TasksOf(w, root, prefix), workers), run).value;
      var scanned := Pipeline.FilePaths(end.processed);
      && NoDuplicates(scanned) && end.scanned == |scanned|
      && forall text :: text in scanned <==> Wanted(w, prefix, text)
  {
    hide Pipeline.After, TasksOf, Wanted, Pipeline.QueuedPaths, Pipeline.FilePaths, Order.RealListing;
    var tasks := TasksOf(w, root, prefix);
    var end := Pipeline.After(Pipeline.Start(tasks, workers), run).value;
    Pipeline.ExactlyOnce(tasks, workers, run);
    var queued, scanned := Pipeline.QueuedPaths(tasks), Pipeline.FilePaths(end.processed);
    QueuedIsWanted(w, root, prefix, "");
    SameWithoutDuplicates(queued, scanned);
    assert |scanned| == |multiset(scanned)| == |multiset(queued)| == |queued|;
    forall text ensures text in scanned <==> Wanted(w, prefix, text) {
      QueuedIsWanted(w, root, prefix, text);
      assert text in multiset(scanned) <==> text in multiset(queued);
    }
  }

  /** With patterns that look at names only, no wanted file of a reachable directory is
      missed, however it can be reached: it is scanned under some path to it. */
  lemma NoReachableFileIsMissed(
    w: W.World, root: string, prefix: string, workers: nat, run: seq<Pipeline.Step>, way: W.Path, d: string, i: nat)
    returns (path: W.Path)
    requires Order.Genuine(w) && NamePatterns(w) && workers > 0 && Pipeline.Uncancelled(run)
    requires
      var end := Pipeline.After(Pipeline.Start(TasksOf(w, root, prefix), workers), run);
      end.Some? && end.value.collector.Returned?
    requires Way(w, way, d) && w.read(d).Some? && i < |w.read(d).value|
    requires var e := w.read(d).value[i]; Queue.WantedFile(w, e, way + [e.name])
    ensures
      var name := w.read(d).value[i].name;
      var end := Pipeline.After(Pipeline.Start(TasksOf(w, root, prefix), workers), run).value;
      Way(w, path, d) && prefix + W.Joined(path + [name]) in Pipeline.FilePaths(end.processed)
  {
    hide Pipeline.After, TasksOf, Pipeline.FilePaths, Resolve, Way, NamePatterns, W.WalkFromRoot, W.Joined,
         Order.RealName;
    var e := w.read(d).value[i];
    Patterns.WalkIsExact(w);
    assert Reachable(w, d);
    var v := ListingOf(w, d);
    path := v.path;
    var k :| 0 <= k < |W.WalkFromRoot(w).visits| && W.WalkFromRoot(w).visits[k] == v;
    Patterns.ListedLeadsThere(w, k);
    WaysResolve(w, path, d);
    WaysResolve(w, way, d);
    Patterns.ResolvedIsReal(w, path);
    Patterns.ResolvedIsReal(w, way);
    ResolvedStays(w, way);
    Patterns.ExclusionByName(w, path + [e.name], way + [e.name]);
    ListedFileIsWanted(w, prefix, k, i);
    WantedFilesAreScannedOnce(w, root, prefix, workers, run);
  }

  lemma ListedFileIsWanted(w: W.World, prefix: string, k: nat, i: nat)
    requires Order.Genuine(w) && k < |W.WalkFromRoot(w).visits|
    requires
      var v := W.WalkFromRoot(w).visits[k];
      w.read(v.directory).Some? && i < |w.read(v.directory).value| &&
      Queue.WantedFile(w, w.read(v.directory).value[i], v.path + [w.read(v.directory).value[i].name])
    ensures
      var v := W.WalkFromRoot(w).visits[k];
      Wanted(w, prefix, prefix + W.Joined(v.path + [w.read(v.directory).value[i].name]))
  {
    hide W.WalkFromRoot, Queue.WantedFile, W.Joined, Order.RealListing;
    var v := W.WalkFromRoot(w).visits[k];
    var p := v.path + [w.read(v.directory).value[i].name];
    assert Queue.FromListing(w, w.read(v.directory).value, 0, v.path, W.Found.Queue(p));
    assert Queue.FromVisit(w, v, W.Found.Queue(p));
  }

  /** The error a scan reports of a path the walk could not deal with, or of a file. */
  ghost predicate TreeError(
    w: W.World, root: string, prefix: string, scan: FileScan, walk: WalkErrors, e: FileError)
    requires w.root in w.directories
  {
    exists found ::
      Queue.FromVisits(w, W.WalkFromRoot(w).visits, found) && ErrorOf(e, ToTask(root, prefix, found), scan, walk)
  }

  /** The report of a finished scan over a tree: the certificates and findings of exactly
      the wanted files of the listed directories, and the errors of exactly the files
      that failed and of what the walk could not deal with. */
  lemma ReportIsOfTheTree(
    w: W.World, root: string, prefix: string, scan: FileScan, walk: WalkErrors, workers: nat,
    run: seq<Pipeline.Step>, r: Report)
    requires Order.Genuine(w) && workers > 0 && Pipeline.Uncancelled(run)
    requires
      var s := Pipeline.After(Pipeline.Start(TasksOf(w, root, prefix), workers), run);
      s.Some? && s.value.collector.Returned? && IsReport(r, s.value.processed, scan, walk)
    ensures forall c :: c in r.certificates <==> exists text :: Wanted(w, prefix, text) && c in scan(text).certificates
    ensures forall f :: f in r.findings <==> exists text :: Wanted(w, prefix, text) && f in scan(text).findings
    ensures forall e :: e in r.errors <==> TreeError(w, root, prefix, scan, walk, e)
  {
    hide Pipeline.After, TasksOf, IsReport, Wanted, TreeError, Order.RealListing;
    var tasks := TasksOf(w, root, prefix);
    ReportHoldsAll(r, tasks, scan, walk, workers, run);
    forall text ensures Wanted(w, prefix, text) <==> Pipeline.Task.Queue(text) in tasks {
      QueuedIsWanted(w, root, prefix, text);
      QueuedTask(tasks, text);
    }
    forall e ensures e in r.errors <==> TreeError(w, root, prefix, scan, walk, e) {
      ErrorsOfTasks(w, root, prefix, scan, walk, e);
    }
  }

  lemma {:induction false} QueuedTask(tasks: seq<Pipeline.Task>, text: string)
    ensures text in Pipeline.QueuedPaths(tasks) <==> Pipeline.Task.Queue(text) in tasks
  {
    if tasks != [] {
      QueuedTask(tasks[1..], text);
      assert tasks == [tasks[0]] + tasks[1..];
    }
  }

  lemma ErrorsOfTasks(w: W.World, root: string, prefix: string, scan: FileScan, walk: WalkErrors, e: FileError)
    requires Order.Genuine(w)
    ensures (exists t <- TasksOf(w, root, prefix) :: ErrorOf(e, t, scan, walk)) <==>
            TreeError(w, root, prefix, scan, walk, e)
  {
    hide W.WalkFromRoot, ToTask, TasksOf, Queue.FromVisits, ErrorOf, Order.RealListing;
    Queue.QueueIsExact(w);
    TasksAreFound(w, root, prefix);
  }

  lemma TasksAreFound(w: W.World, root: string, prefix: string)
    requires w.root in w.directories
    ensures forall t :: t in TasksOf(w, root, prefix) <==>
              exists one <- W.WalkFromRoot(w).tasks :: t == ToTask(root, prefix, one)
  {
    hide W.WalkFromRoot, ToTask;
    var found, tasks := W.WalkFromRoot(w).tasks, TasksOf(w, root, prefix);
    forall one | one in found ensures ToTask(root, prefix, one) in tasks {
      var i :| 0 <= i < |found| && found[i] == one;
      assert tasks[i] == ToTask(root, prefix, one);
    }
  }

  /** The whole report, errors of the walk included, is determined by the tree and the
      files: any two schedules give the same. */
  lemma ReportIsDetermined(
    w: W.World, root: string, prefix: string, scan: FileScan, walk: WalkErrors, m: nat, n: nat,
    p: seq<Pipeline.Step>, q: seq<Pipeline.Step>, a: Report, b: Report)
    requires Order.Genuine(w) && AllPlaced(TasksOf(w, root, prefix), scan)
    requires m > 0 && n > 0 && Pipeline.Uncancelled(p) && Pipeline.Uncancelled(q)
    requires
      var s := Pipeline.After(Pipeline.Start(TasksOf(w, root, prefix), m), p);
      s.Some? && s.value.collector.Returned? && IsReport(a, s.value.processed, scan, walk)
    requires
      var t := Pipeline.After(Pipeline.Start(TasksOf(w, root, prefix), n), q);
      t.Some? && t.value.collector.Returned? && IsReport(b, t.value.processed, scan, walk)
    ensures a == b
  {
    hide Pipeline.After, TasksOf, IsReport, AllPlaced, DistinctPaths, Order.RealListing;
    TasksAreApart(w, root, prefix);
    ReportIsIndependentOfSchedule(TasksOf(w, root, prefix), scan, walk, m, n, p, q, a, b);
  }
}
