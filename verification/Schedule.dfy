/** The collector of `Scan`, and why the sorted report does not depend on how many
    workers there are or how they interleave. */
module Schedule {
  import opened Common
  import opened Content
  import opened Ordering
  import opened Pipeline
  import Duplicates
  import Pkcs12
  import JavaKeystore
  import opened Der

  /** What scanning a file gives; the file does not change during the scan. */
  type FileScan = string -> Outcome

  /** What the walk has to say about a path it reports. */
  type WalkErrors = string -> seq<Cause>

  datatype FileError = FileError(path: string, causes: seq<Cause>)

  function CertificateKey(c: Certificate): Key {
    Duplicates.KeyOf(c)
  }

  function FindingKey(f: Finding): Key {
    Key(f.path, f.entries, f.contentIndex)
  }

  function ErrorKey(e: FileError): Key {
    Key(e.path, [], 0)
  }

  /** Results under the path of their file, and different ones at different positions. */
  ghost predicate Placed(o: Outcome, path: string) {
    && (forall c <- o.certificates :: c.path == path) && DistinctKeys(multiset(o.certificates), CertificateKey)
    && (forall f <- o.findings :: f.path == path) && DistinctKeys(multiset(o.findings), FindingKey)
  }

  /** Every queued file gives such results. */
  ghost predicate AllPlaced(tasks: seq<Task>, scan: FileScan) {
    forall t <- tasks :: t.Queue? ==> Placed(scan(t.path), t.path)
  }

  predicate DistinctPaths(tasks: seq<Task>) {
    forall i, j :: 0 <= i < j < |tasks| ==> tasks[i].path != tasks[j].path
  }

  // ------------------------------------------------------------- plain files qualify

  /** Findings of the contents from an index on, under increasing content indices. */
  predicate Ascending(e: seq<Pkcs12.EncryptedContent>, index: nat) {
    && (forall i :: 0 <= i < |e| ==> index <= e[i].contentIndex)
    && (forall i, j :: 0 <= i < j < |e| ==> e[i].contentIndex < e[j].contentIndex)
  }

  lemma {:induction false} FindingsAscend(codec: Pkcs12.Codec, contents: seq<Tlv>, index: nat, bagCount: nat)
    requires index <= |contents|
    ensures Ascending(Pkcs12.ContentsFrom(codec, contents, index, bagCount).encrypted, index)
    decreases |contents| - index
  {
    hide Pkcs12.OneContent, Ascending;
    if index == |contents| {
      EmptyAscends(index);
    } else {
      OneFinding(codec, contents[index], index, bagCount);
      var one := Pkcs12.OneContent(codec, contents[index], index, bagCount);
      FindingsAscend(codec, contents, index + 1, one.bagCount);
      var rest := Pkcs12.ContentsFrom(codec, contents, index + 1, one.bagCount);
      assert Pkcs12.ContentsFrom(codec, contents, index, bagCount).encrypted == one.encrypted + rest.encrypted;
      AscendingPrepend(one.encrypted, rest.encrypted, index);
    }
  }

  lemma EmptyAscends(index: nat)
    ensures Ascending([], index)
  {
  }

  lemma AscendingPrepend(one: seq<Pkcs12.EncryptedContent>, rest: seq<Pkcs12.EncryptedContent>, index: nat)
    requires |one| <= 1 && (|one| == 1 ==> one[0].contentIndex == index) && Ascending(rest, index + 1)
    ensures Ascending(one + rest, index)
  {
  }

  lemma OneFinding(codec: Pkcs12.Codec, encoded: Tlv, index: nat, bagCount: nat)
    ensures
      var e := Pkcs12.OneContent(codec, encoded, index, bagCount).encrypted;
      |e| <= 1 && (|e| == 1 ==> e[0].contentIndex == index)
  {
    hide Pkcs12.SafeContents, Pkcs12.OctetString, Pkcs12.ParseContentInfo;
    var parsed := Pkcs12.ParseContentInfo(encoded);
    if parsed.Ok? && parsed.value.0 == Pkcs12.OID_ENCRYPTED_DATA {
      EncryptedKeepsIndex(parsed.value.1, index);
    }
  }

  lemma EncryptedKeepsIndex(value: Tlv, index: nat)
    ensures
      var finding := Pkcs12.ParseEncrypted(value, index);
      finding.Ok? ==> finding.value.contentIndex == index
  {
  }

  lemma PfxFindingsAscend(codec: Pkcs12.Codec, data: Bytes)
    ensures Ascending(Pkcs12.Parse(codec, data).encrypted, 0)
  {
    hide Pkcs12.ContentsFrom, Pkcs12.OpenPfx, Ascending;
    match Pkcs12.OpenPfx(data)
    case Err(_) => EmptyAscends(0);
    case Ok(contents) => FindingsAscend(codec, contents, 0, 0);
  }

  /** Certificates numbered from zero, findings under increasing content indices, all
      under one path and in no archive. */
  predicate WellNumbered(o: Outcome, path: string) {
    && Numbered(o.certificates, path)
    && (forall i :: 0 <= i < |o.findings| ==> o.findings[i].path == path && o.findings[i].entries == [])
    && (forall i, j :: 0 <= i < j < |o.findings| ==> o.findings[i].contentIndex < o.findings[j].contentIndex)
  }

  lemma PfxNumbers(codecs: Codecs, path: string, data: Bytes)
    ensures WellNumbered(PfxOutcome(codecs, path, data), path)
  {
    hide Pkcs12.Parse;
    PfxFindingsAscend(Pkcs12.Codec(codecs.accepts, codecs.utf8), data);
  }

  lemma ContentNumbers(codecs: Codecs, path: string, data: Bytes, complete: bool)
    ensures WellNumbered(ScanContentData(codecs, path, data, complete).0, path)
  {
    hide Pkcs12.Parse, Pkcs12.Detect, JavaKeystore.Parse, JavaKeystore.DetectJavaKeystore, PfxOutcome;
    PfxNumbers(codecs, path, data);
  }

  lemma NumberedIsPlaced(o: Outcome, path: string)
    requires WellNumbered(o, path)
    ensures Placed(o, path)
  {
  }

  /** With archives off, the results of every file are of this kind. */
  lemma PlainFilesQualify(codecs: Codecs, path: string, file: Bytes, maxBytes: nat)
    ensures Placed(ScanPlainFile(codecs, path, file, maxBytes), path)
  {
    hide ScanContentData, Placed;
    ContentNumbers(codecs, path, file, true);
    NumberedIsPlaced(ScanPlainFile(codecs, path, file, maxBytes), path);
  }

  // --------------------------------------------------------------- what is collected

  /** What some outcomes give, in their order of arrival. */
  function Gather<T>(items: seq<Item>, gives: Item -> seq<T>): seq<T> {
    if items == [] then [] else Gather(items[..|items| - 1], gives) + gives(items[|items| - 1])
  }

  function CertificatesIn(scan: FileScan): Item -> seq<Certificate> {
    (item: Item) => if item.FromFile? then scan(item.path).certificates else []
  }

  function FindingsIn(scan: FileScan): Item -> seq<Finding> {
    (item: Item) => if item.FromFile? then scan(item.path).findings else []
  }

  function ErrorsIn(scan: FileScan, walk: WalkErrors): Item -> seq<FileError> {
    (item: Item) =>
      if item.FromWalker? then [FileError(item.path, walk(item.path))]
      else if scan(item.path).causes == [] then []
      else [FileError(item.path, scan(item.path).causes)]
  }

  function FileIn(item: Item): seq<string> {
    if item.FromFile? then [item.path] else []
  }

  function CappedIn(scan: FileScan): Item -> seq<string> {
    (item: Item) => if item.FromFile? && scan(item.path).capped then [item.path] else []
  }

  lemma OneMoreItem<T>(items: seq<Item>, item: Item, gives: Item -> seq<T>)
    ensures Gather(items + [item], gives) == Gather(items, gives) + gives(item)
  {
    assert (items + [item])[..|items|] == items;
  }

  /** The report and counters of `Scan`. Callbacks see every certificate and finding,
      whether or not the report keeps them. */
  class ReportCollector {
    const discardCertificates: bool
    const discardFindings: bool
    var certificates: seq<Certificate>
    var findings: seq<Finding>
    var errors: seq<FileError>
    var called: seq<Certificate>
    var calledFindings: seq<Finding>
    var filesScanned: nat
    var filesCapped: nat
    var certificatesFound: nat
    var findingsFound: nat
    var scanErrors: nat

    constructor (discardCertificates: bool, discardFindings: bool)
      ensures this.discardCertificates == discardCertificates && this.discardFindings == discardFindings
      ensures Shows([], _ => NOTHING, _ => [])
    {
      this.discardCertificates, this.discardFindings := discardCertificates, discardFindings;
      certificates, findings, errors, called, calledFindings := [], [], [], [], [];
      filesScanned, filesCapped, certificatesFound, findingsFound, scanErrors := 0, 0, 0, 0, 0;
    }

    /** Report, callbacks and counters are those of the outcomes received. */
    ghost predicate Shows(items: seq<Item>, scan: FileScan, walk: WalkErrors)
      reads this
    {
      && called == Gather(items, CertificatesIn(scan)) && calledFindings == Gather(items, FindingsIn(scan))
      && certificates == (if discardCertificates then [] else called)
      && findings == (if discardFindings then [] else calledFindings)
      && errors == Gather(items, ErrorsIn(scan, walk))
      && filesScanned == |Gather(items, FileIn)| && filesCapped == |Gather(items, CappedIn(scan))|
      && certificatesFound == |called| && findingsFound == |calledFindings| && scanErrors == |errors|
    }

    /** One received outcome, in the order of the collector's statements. */
    method Receive(item: Item, scan: FileScan, walk: WalkErrors, ghost items: seq<Item>)
      requires Shows(items, scan, walk)
      modifies this
      ensures Shows(items + [item], scan, walk)
    {
      hide Gather;
      OneMoreItem(items, item, CertificatesIn(scan));
      OneMoreItem(items, item, FindingsIn(scan));
      OneMoreItem(items, item, ErrorsIn(scan, walk));
      OneMoreItem(items, item, FileIn);
      OneMoreItem(items, item, CappedIn(scan));
      var result := if item.FromFile? then scan(item.path) else NOTHING.(causes := walk(item.path));
      if !discardCertificates {
        certificates := certificates + result.certificates;
      }
      if !discardFindings {
        findings := findings + result.findings;
      }
      if item.FromFile? {
        filesScanned := filesScanned + 1;
        if result.capped {
          filesCapped := filesCapped + 1;
        }
        certificatesFound := certificatesFound + |result.certificates|;
        findingsFound := findingsFound + |result.findings|;
      }
      if item.FromWalker? || result.causes != [] {
        errors := errors + [FileError(item.path, result.causes)];
        scanErrors := scanErrors + 1;
      }
      called := called + result.certificates;
      calledFindings := calledFindings + result.findings;
    }
  }

  // --------------------------------------------------- arrival order does not matter

  lemma {:induction false} GatherConcat<T>(a: seq<Item>, b: seq<Item>, gives: Item -> seq<T>)
    ensures Gather(a + b, gives) == Gather(a, gives) + Gather(b, gives)
    decreases |b|
  {
    if b == [] {
      assert a + b == a;
    } else {
      var init := b[..|b| - 1];
      GatherConcat(a, init, gives);
      assert (a + b)[..|a + b| - 1] == a + init;
    }
  }

  /** An item in the middle might as well come first. */
  lemma MoveToFront<T>(before: seq<Item>, item: Item, after: seq<Item>, gives: Item -> seq<T>)
    ensures multiset(Gather(before + ([item] + after), gives)) ==
            multiset(gives(item)) + multiset(Gather(before + after, gives))
  {
    hide Gather;
    GatherConcat(before, [item] + after, gives);
    GatherConcat([item], after, gives);
    GatherConcat(before, after, gives);
    OnlyItem(item, gives);
  }

  lemma OnlyItem<T>(item: Item, gives: Item -> seq<T>)
    ensures Gather([item], gives) == gives(item)
  {
    assert [item][..0] == [];
  }

  /** The same items in another order give the same, in another order. */
  lemma {:induction false} GatherInAnyOrder<T>(a: seq<Item>, b: seq<Item>, gives: Item -> seq<T>)
    requires multiset(a) == multiset(b)
    ensures multiset(Gather(a, gives)) == multiset(Gather(b, gives))
    decreases |a|
  {
    hide Gather;
    if a == [] {
      assert |multiset(b)| == 0;
    } else {
      assert a[0] in multiset(b);
      var i :| 0 <= i < |b| && b[i] == a[0];
      RemoveOne(a, b, i);
      GatherInAnyOrder(a[1..], b[..i] + b[i + 1..], gives);
      MoveToFront(b[..i], b[i], b[i + 1..], gives);
      MoveToFront([], a[0], a[1..], gives);
      assert [] + ([a[0]] + a[1..]) == a && [] + a[1..] == a[1..];
    }
  }

  lemma RemoveOne(a: seq<Item>, b: seq<Item>, i: nat)
    requires a != [] && i < |b| && b[i] == a[0] && multiset(a) == multiset(b)
    ensures b == b[..i] + ([b[i]] + b[i + 1..])
    ensures multiset(a[1..]) == multiset(b[..i] + b[i + 1..])
  {
    assert a == [a[0]] + a[1..] && b == b[..i] + ([b[i]] + b[i + 1..]);
    assert multiset(a) == multiset{a[0]} + multiset(a[1..]);
    assert multiset(b) == multiset(b[..i]) + (multiset{b[i]} + multiset(b[i + 1..]));
    assert multiset(b[..i] + b[i + 1..]) == multiset(b[..i]) + multiset(b[i + 1..]);
    assert multiset(a[1..]) == multiset(a) - multiset{a[0]};
  }

  lemma {:induction false} GatheredFrom<T>(items: seq<Item>, gives: Item -> seq<T>, x: T) returns (item: Item)
    requires x in Gather(items, gives)
    ensures item in items && x in gives(item)
    decreases |items|
  {
    var last := items[|items| - 1];
    if x in gives(last) {
      item := last;
    } else {
      item := GatheredFrom(items[..|items| - 1], gives, x);
    }
  }

  /** What arrives in a complete run comes from the tasks. */
  lemma {:induction false} ItemOfTask(tasks: seq<Task>, item: Item) returns (i: nat)
    requires item in TaskItems(tasks)
    ensures i < |tasks| && TaskItem(tasks[i]) == item
  {
    if item == TaskItem(tasks[0]) {
      i := 0;
    } else {
      i := ItemOfTask(tasks[1..], item);
      i := i + 1;
    }
  }

  lemma PlacedItem(tasks: seq<Task>, scan: FileScan, items: seq<Item>, item: Item)
    requires AllPlaced(tasks, scan) && multiset(items) == multiset(TaskItems(tasks)) && item in items && item.FromFile?
    ensures Placed(scan(item.path), item.path)
  {
    hide Placed;
    assert item in multiset(TaskItems(tasks));
    var i := ItemOfTask(tasks, item);
    assert tasks[i] in tasks;
  }

  /** No two collected results share a sorting position. */
  lemma CertificatesAreApart(tasks: seq<Task>, scan: FileScan, items: seq<Item>)
    requires AllPlaced(tasks, scan) && multiset(items) == multiset(TaskItems(tasks))
    ensures DistinctKeys(multiset(Gather(items, CertificatesIn(scan))), CertificateKey)
  {
    hide Gather, AllPlaced;
    var all := Gather(items, CertificatesIn(scan));
    forall x: Certificate, y: Certificate | x in all && y in all && CertificateKey(x) == CertificateKey(y)
      ensures x == y
    {
      var i := GatheredFrom(items, CertificatesIn(scan), x);
      var j := GatheredFrom(items, CertificatesIn(scan), y);
      PlacedItem(tasks, scan, items, i);
      PlacedItem(tasks, scan, items, j);
    }
  }

  lemma FindingsAreApart(tasks: seq<Task>, scan: FileScan, items: seq<Item>)
    requires AllPlaced(tasks, scan) && multiset(items) == multiset(TaskItems(tasks))
    ensures DistinctKeys(multiset(Gather(items, FindingsIn(scan))), FindingKey)
  {
    hide Gather, AllPlaced;
    var all := Gather(items, FindingsIn(scan));
    forall x: Finding, y: Finding | x in all && y in all && FindingKey(x) == FindingKey(y) ensures x == y {
      var i := GatheredFrom(items, FindingsIn(scan), x);
      var j := GatheredFrom(items, FindingsIn(scan), y);
      PlacedItem(tasks, scan, items, i);
      PlacedItem(tasks, scan, items, j);
    }
  }

  lemma ErrorsAreApart(tasks: seq<Task>, scan: FileScan, walk: WalkErrors, items: seq<Item>)
    requires DistinctPaths(tasks) && multiset(items) == multiset(TaskItems(tasks))
    ensures DistinctKeys(multiset(Gather(items, ErrorsIn(scan, walk))), ErrorKey)
  {
    hide Gather;
    var all := Gather(items, ErrorsIn(scan, walk));
    forall x: FileError, y: FileError | x in all && y in all && ErrorKey(x) == ErrorKey(y) ensures x == y {
      var a := GatheredFrom(items, ErrorsIn(scan, walk), x);
      var b := GatheredFrom(items, ErrorsIn(scan, walk), y);
      assert a in multiset(TaskItems(tasks)) && b in multiset(TaskItems(tasks));
      var i := ItemOfTask(tasks, a);
      var j := ItemOfTask(tasks, b);
      assert tasks[i].path == tasks[j].path;
    }
  }

  datatype Report = Report(certificates: seq<Certificate>, findings: seq<Finding>, errors: seq<FileError>)

  /** A report `Scan` may return for some outcomes, whatever the unstable sorts do. */
  predicate IsReport(r: Report, items: seq<Item>, scan: FileScan, walk: WalkErrors) {
    && IsSortOf(r.certificates, Gather(items, CertificatesIn(scan)), CertificateKey)
    && IsSortOf(r.findings, Gather(items, FindingsIn(scan)), FindingKey)
    && IsSortOf(r.errors, Gather(items, ErrorsIn(scan, walk)), ErrorKey)
  }

  lemma OneReport(tasks: seq<Task>, scan: FileScan, walk: WalkErrors, s: seq<Item>, t: seq<Item>, a: Report, b: Report)
    requires AllPlaced(tasks, scan) && multiset(s) == multiset(t) == multiset(TaskItems(tasks))
    requires IsReport(a, s, scan, walk) && IsReport(b, t, scan, walk)
    ensures a.certificates == b.certificates && a.findings == b.findings
    ensures DistinctPaths(tasks) ==> a.errors == b.errors
  {
    hide Gather, AllPlaced, SortedBy, DistinctKeys, CertificatesIn, FindingsIn, ErrorsIn, DistinctPaths;
    GatherInAnyOrder(s, t, CertificatesIn(scan));
    GatherInAnyOrder(s, t, FindingsIn(scan));
    GatherInAnyOrder(s, t, ErrorsIn(scan, walk));
    CertificatesAreApart(tasks, scan, s);
    FindingsAreApart(tasks, scan, s);
    SortIsUnique(a.certificates, b.certificates, CertificateKey);
    SortIsUnique(a.findings, b.findings, FindingKey);
    if DistinctPaths(tasks) {
      ErrorsAreApart(tasks, scan, walk, s);
      SortIsUnique(a.errors, b.errors, ErrorKey);
    }
  }

  lemma {:induction false} GatheredWhole<T>(items: seq<Item>, item: Item, gives: Item -> seq<T>, x: T)
    requires item in items && x in gives(item)
    ensures x in Gather(items, gives)
    decreases |items|
  {
    if item != items[|items| - 1] {
      GatheredWhole(items[..|items| - 1], item, gives, x);
    }
  }

  lemma {:induction false} TaskGivesItem(tasks: seq<Task>, t: Task)
    requires t in tasks
    ensures TaskItem(t) in TaskItems(tasks)
  {
    if t != tasks[0] {
      TaskGivesItem(tasks[1..], t);
    }
  }

  /** What the tasks of a scan give, one way or another. */
  ghost predicate Given<T>(tasks: seq<Task>, gives: Item -> seq<T>, x: T) {
    exists t <- tasks :: x in gives(TaskItem(t))
  }

  lemma GatheredIsGiven<T>(tasks: seq<Task>, items: seq<Item>, gives: Item -> seq<T>, x: T)
    requires multiset(items) == multiset(TaskItems(tasks))
    ensures x in Gather(items, gives) <==> Given(tasks, gives, x)
  {
    if x in Gather(items, gives) {
      var item := GatheredFrom(items, gives, x);
      assert item in multiset(TaskItems(tasks));
      var i := ItemOfTask(tasks, item);
      assert tasks[i] in tasks;
    }
    if Given(tasks, gives, x) {
      var t :| t in tasks && x in gives(TaskItem(t));
      TaskGivesItem(tasks, t);
      assert TaskItem(t) in multiset(items);
      GatheredWhole(items, TaskItem(t), gives, x);
    }
  }

  /** The error of a task: what the walk reports of a path, or what made a file fail. */
  predicate ErrorOf(e: FileError, t: Task, scan: FileScan, walk: WalkErrors) {
    e.path == t.path && if t.Report? then e.causes == walk(t.path) else e.causes == scan(t.path).causes != []
  }

  /** The report holds exactly the certificates and findings of the queued files, and
      exactly the errors of all tasks. */
  ghost predicate HoldsAll(r: Report, tasks: seq<Task>, scan: FileScan, walk: WalkErrors) {
    && (forall c :: c in r.certificates <==> exists t <- tasks :: t.Queue? && c in scan(t.path).certificates)
    && (forall f :: f in r.findings <==> exists t <- tasks :: t.Queue? && f in scan(t.path).findings)
    && (forall e :: e in r.errors <==> exists t <- tasks :: ErrorOf(e, t, scan, walk))
  }

  lemma ReportOfItems(r: Report, tasks: seq<Task>, items: seq<Item>, scan: FileScan, walk: WalkErrors)
    requires IsReport(r, items, scan, walk) && multiset(items) == multiset(TaskItems(tasks))
    ensures HoldsAll(r, tasks, scan, walk)
  {
    hide Gather, SortedBy, Given;
    forall c: Certificate
      ensures c in r.certificates <==> exists t <- tasks :: t.Queue? && c in scan(t.path).certificates
    {
      GatheredIsGiven(tasks, items, CertificatesIn(scan), c);
      GivenCertificate(tasks, scan, c);
      assert c in r.certificates <==> c in multiset(Gather(items, CertificatesIn(scan)));
    }
    forall f: Finding ensures f in r.findings <==> exists t <- tasks :: t.Queue? && f in scan(t.path).findings {
      GatheredIsGiven(tasks, items, FindingsIn(scan), f);
      GivenFinding(tasks, scan, f);
      assert f in r.findings <==> f in multiset(Gather(items, FindingsIn(scan)));
    }
    forall e: FileError ensures e in r.errors <==> exists t <- tasks :: ErrorOf(e, t, scan, walk) {
      GatheredIsGiven(tasks, items, ErrorsIn(scan, walk), e);
      GivenError(tasks, scan, walk, e);
      assert e in r.errors <==> e in multiset(Gather(items, ErrorsIn(scan, walk)));
    }
  }

  lemma GivenCertificate(tasks: seq<Task>, scan: FileScan, c: Certificate)
    ensures Given(tasks, CertificatesIn(scan), c) <==> exists t <- tasks :: t.Queue? && c in scan(t.path).certificates
  {
  }

  lemma GivenFinding(tasks: seq<Task>, scan: FileScan, f: Finding)
    ensures Given(tasks, FindingsIn(scan), f) <==> exists t <- tasks :: t.Queue? && f in scan(t.path).findings
  {
  }

  lemma GivenError(tasks: seq<Task>, scan: FileScan, walk: WalkErrors, e: FileError)
    ensures Given(tasks, ErrorsIn(scan, walk), e) <==> exists t <- tasks :: ErrorOf(e, t, scan, walk)
  {
  }

  lemma ReportHoldsAll(
    r: Report, tasks: seq<Task>, scan: FileScan, walk: WalkErrors, workers: nat, run: seq<Step>)
    requires workers > 0 && Uncancelled(run) && After(Start(tasks, workers), run).Some?
    requires After(Start(tasks, workers), run).value.collector.Returned?
    requires IsReport(r, After(Start(tasks, workers), run).value.processed, scan, walk)
    ensures HoldsAll(r, tasks, scan, walk)
  {
    hide After, IsReport, HoldsAll;
    ExactlyOnce(tasks, workers, run);
    ReportOfItems(r, tasks, After(Start(tasks, workers), run).value.processed, scan, walk);
  }

  /** The report is sorted by path, then by archive entries, then by the index. */
  lemma ReportIsSorted(r: Report, items: seq<Item>, scan: FileScan, walk: WalkErrors, i: nat, j: nat)
    requires IsReport(r, items, scan, walk) && i < j
    ensures
      j < |r.certificates| ==>
        var x, y := r.certificates[i], r.certificates[j];
        !KeyBefore(Key(y.path, y.entries, y.index), Key(x.path, x.entries, x.index))
    ensures
      j < |r.findings| ==>
        var x, y := r.findings[i], r.findings[j];
        !KeyBefore(Key(y.path, y.entries, y.contentIndex), Key(x.path, x.entries, x.contentIndex))
    ensures j < |r.errors| ==> !TextBefore(r.errors[j].path, r.errors[i].path)
  {
    hide KeyBefore, SortedBy, Gather, TextBefore;
    if j < |r.certificates| {
      SortedIsAlphabetical(r.certificates, Gather(items, CertificatesIn(scan)), CertificateKey, i, j);
    }
    if j < |r.findings| {
      SortedIsAlphabetical(r.findings, Gather(items, FindingsIn(scan)), FindingKey, i, j);
    }
    if j < |r.errors| {
      SortedIsAlphabetical(r.errors, Gather(items, ErrorsIn(scan, walk)), ErrorKey, i, j);
      PathsDecide(r.errors[j].path, r.errors[i].path);
    }
  }

  lemma PathsDecide(a: string, b: string)
    ensures KeyBefore(Key(a, [], 0), Key(b, [], 0)) <==> TextBefore(a, b)
  {
    hide TextBefore;
    TextNotBeforeItself(a);
  }

  /** Two finished runs over the same tasks, with any numbers of workers and in any
      interleavings nobody cancelled: whatever the unstable sorts make of what they
      collected, the certificates and findings reported are the same; and so are the
      errors, if no path was queued or reported twice. */
  lemma ReportIsIndependentOfSchedule(
    tasks: seq<Task>, scan: FileScan, walk: WalkErrors, m: nat, n: nat, p: seq<Step>, q: seq<Step>, a: Report,
    b: Report)
    requires AllPlaced(tasks, scan) && m > 0 && n > 0 && Uncancelled(p) && Uncancelled(q)
    requires After(Start(tasks, m), p).Some? && After(Start(tasks, m), p).value.collector.Returned?
    requires After(Start(tasks, n), q).Some? && After(Start(tasks, n), q).value.collector.Returned?
    requires IsReport(a, After(Start(tasks, m), p).value.processed, scan, walk)
    requires IsReport(b, After(Start(tasks, n), q).value.processed, scan, walk)
    ensures a.certificates == b.certificates && a.findings == b.findings
    ensures DistinctPaths(tasks) ==> a.errors == b.errors
  {
    hide After, AllPlaced, IsReport, DistinctPaths;
    ExactlyOnce(tasks, m, p);
    ExactlyOnce(tasks, n, q);
    var s, t := After(Start(tasks, m), p).value.processed, After(Start(tasks, n), q).value.processed;
    OneReport(tasks, scan, walk, s, t, a, b);
  }
}
