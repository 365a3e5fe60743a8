/** What a scan that hits no limit returns: the contents of the nested archives, laid
    out flat. A plan lists, in pre-order and without any counter, the entries that are
    no archives and the places where something is wrong; it also says how many bytes
    and entries the scan needs. */
module ArchiveFlatten {
  import opened Common
  import opened Content
  import opened Archive
  import opened ArchiveBudget
  import Pkcs12

  /** One thing a scan meets: an entry with its whole path, or a failure. */
  datatype Visit = Entry(path: seq<string>, content: Stream) | Trouble(cause: Cause)

  datatype Plan = Plan(visits: seq<Visit>, bytes: nat, entries: nat)

  const NO_PLAN := Plan([], 0, 0)

  function Both(a: Plan, b: Plan): Plan {
    Plan(a.visits + b.visits, a.bytes + b.bytes, a.entries + b.entries)
  }

  // ------------------------------------------------------------ reading on its own

  /** The first read of a stream nobody limits. */
  function FreePrefix(cfg: Config, s: Stream): PrefixRun {
    ReadPrefix(Free(cfg), s, Ledger(0, 0))
  }

  /** An entry that is no archive, scanned on its own. */
  function FreeLeaf(cfg: Config, s: Stream, path: seq<string>): EntryRun {
    Leaf(Free(cfg), s, path, FreePrefix(cfg, s))
  }

  function FreeFull(cfg: Config, s: Stream): ReadRun {
    ReadFull(Free(cfg), s, FreePrefix(cfg, s))
  }

  /** Whether scanEntry takes the entry for an archive. */
  predicate LooksLikeArchive(cfg: Config, s: Stream) {
    FreePrefix(cfg, s).cause.None? && DetectFormat(FreePrefix(cfg, s).prefix).Some?
  }

  // -------------------------------------------------------------------------- plans

  function PlanEntry(cfg: Config, s: Stream, path: seq<string>, depth: nat): Plan
    requires 1 <= depth <= cfg.maxDepth
    decreases cfg.maxDepth - depth, 0, 0
  {
    var p := FreePrefix(cfg, s);
    if !LooksLikeArchive(cfg, s) then Plan([Entry(path, s)], FreeLeaf(cfg, s, path).ledger.bytesRead, 0)
    else if depth >= cfg.maxDepth then Plan([Trouble(DepthLimit)], p.ledger.bytesRead, 0)
    else
      var format := DetectFormat(p.prefix).value;
      if p.complete then Both(Plan([], p.ledger.bytesRead, 0), PlanArchive(cfg, p.prefix, format, path, depth + 1))
      else
        var full := FreeFull(cfg, s);
        if full.cause.Some? then Plan([Trouble(full.cause.value)], full.ledger.bytesRead, 0)
        else Both(Plan([], full.ledger.bytesRead, 0), PlanArchive(cfg, full.data, format, path, depth + 1))
  }

  /** How far an entry's stream is read, which its closing may depend on. */
  function TakenFrom(cfg: Config, s: Stream, path: seq<string>, depth: nat): nat {
    if !LooksLikeArchive(cfg, s) then FreeLeaf(cfg, s, path).taken
    else if depth >= cfg.maxDepth || FreePrefix(cfg, s).complete then FreePrefix(cfg, s).taken
    else FreeFull(cfg, s).taken
  }

  function PlanClose(cfg: Config, s: Stream, path: seq<string>, depth: nat): Plan {
    var closeError := s.close(TakenFrom(cfg, s, path, depth));
    if closeError.Some? then Plan([Trouble(Library(closeError.value))], 0, 0) else NO_PLAN
  }

  function PlanItem(cfg: Config, item: Item, parents: seq<string>, depth: nat): Plan
    requires 1 <= depth <= cfg.maxDepth
    decreases cfg.maxDepth - depth, 1, 0
  {
    match item
    case Unreadable(cause) => Plan([Trouble(cause)], 0, 0)
    case Skipped(_) => Plan([], 0, 1)
    case Refused(_, cause) => Plan([Trouble(cause)], 0, 1)
    case Content(name, s) =>
      var path := Append(cfg, parents, name);
      Both(Plan([], 0, 1), Both(PlanEntry(cfg, s, path, depth), PlanClose(cfg, s, path, depth)))
  }

  function PlanItems(cfg: Config, items: seq<Item>, parents: seq<string>, depth: nat): Plan
    requires 1 <= depth <= cfg.maxDepth
    decreases cfg.maxDepth - depth, 2, |items|
  {
    if items == [] then NO_PLAN
    else if items[0].Unreadable? then PlanItem(cfg, items[0], parents, depth)
    else Both(PlanItem(cfg, items[0], parents, depth), PlanItems(cfg, items[1..], parents, depth))
  }

  function PlanArchive(cfg: Config, data: Bytes, format: Format, parents: seq<string>, depth: nat): Plan
    requires 1 <= depth <= cfg.maxDepth
    decreases cfg.maxDepth - depth, 3, 0
  {
    match format
    case ZIP =>
      if DeclaredCount(data).None? then Plan([Trouble(MissingFooter)], 0, 0)
      else
        (match cfg.libraries.unzip(data)
         case None => Plan([Trouble(BadArchive)], 0, 0)
         case Some(entries) => PlanItems(cfg, ZipItems(entries), parents, depth))
    case TAR => PlanItems(cfg, TarItems(cfg.libraries.untar(data)), parents, depth)
    case GZIP =>
      match cfg.libraries.gunzip(data)
      case None => Plan([Trouble(BadArchive)], 0, 0)
      case Some(member) => PlanItem(cfg, GzipItem(cfg, parents, member), parents, depth)
  }

  // -------------------------------------------------- what the visits amount to

  function VisitOutcome(cfg: Config, v: Visit): Outcome {
    match v
    case Entry(path, s) => FreeLeaf(cfg, s, path).outcome
    case Trouble(cause) => Failure(cause)
  }

  function Total(cfg: Config, visits: seq<Visit>): Outcome {
    if visits == [] then NOTHING else Merge(Merge(NOTHING, VisitOutcome(cfg, visits[0])), Total(cfg, visits[1..]))
  }

  /** Equal but for the capped flag of the outer result. */
  predicate Same(a: Outcome, b: Outcome) {
    a.certificates == b.certificates && a.findings == b.findings && a.causes == b.causes
  }

  lemma {:induction false} TotalConcat(cfg: Config, a: seq<Visit>, b: seq<Visit>)
    ensures Total(cfg, a + b) == Merge(Total(cfg, a), Total(cfg, b))
    ensures !Total(cfg, a).capped
    decreases |a|
  {
    if a == [] {
      assert a + b == b;
      MergeLaws(NOTHING, NOTHING, Total(cfg, b));
      NotCapped(cfg, b);
    } else {
      assert (a + b)[1..] == a[1..] + b;
      TotalConcat(cfg, a[1..], b);
      MergeLaws(Merge(NOTHING, VisitOutcome(cfg, a[0])), Total(cfg, a[1..]), Total(cfg, b));
    }
  }

  lemma NotCapped(cfg: Config, a: seq<Visit>)
    ensures !Total(cfg, a).capped
  {
  }

  lemma MergeLaws(a: Outcome, b: Outcome, c: Outcome)
    ensures Merge(a, Merge(b, c)) == Merge(Merge(a, b), c)
    ensures Same(Merge(NOTHING, c), c) && Same(Merge(c, NOTHING), c)
    ensures Merge(NOTHING, Merge(a, c)) == Merge(Merge(NOTHING, a), c)
  {
    assert a.certificates + (b.certificates + c.certificates) == a.certificates + b.certificates + c.certificates;
    assert a.findings + (b.findings + c.findings) == a.findings + b.findings + c.findings;
    assert a.causes + (b.causes + c.causes) == a.causes + b.causes + c.causes;
    assert [] + c.certificates == c.certificates && [] + c.findings == c.findings && [] + c.causes == c.causes;
    assert c.certificates + [] == c.certificates && c.findings + [] == c.findings && c.causes + [] == c.causes;
    assert [] + (a.certificates + c.certificates) == [] + a.certificates + c.certificates;
    assert [] + (a.findings + c.findings) == [] + a.findings + c.findings;
    assert [] + (a.causes + c.causes) == [] + a.causes + c.causes;
  }

  lemma TotalOfOne(cfg: Config, v: Visit)
    ensures Same(Total(cfg, [v]), VisitOutcome(cfg, v))
  {
    MergeLaws(NOTHING, VisitOutcome(cfg, v), VisitOutcome(cfg, v));
    MergeLaws(Merge(NOTHING, VisitOutcome(cfg, v)), NOTHING, Merge(NOTHING, VisitOutcome(cfg, v)));
    assert [v][1..] == [];
  }

  // ------------------------------------------------------------- runs follow plans

  /** None of the limits that cut a scan short. A too deep archive is only a trouble. */
  predicate Unhindered(causes: seq<Cause>) {
    ByteLimit !in causes && EntryLimit !in causes && CountLimit !in causes
  }

  /** A run did what the plan says, starting from a ledger. */
  predicate Follows(cfg: Config, o: Outcome, before: Ledger, after: Ledger, plan: Plan) {
    && Same(o, Total(cfg, plan.visits))
    && after == Ledger(before.bytesRead + plan.bytes, before.entries + plan.entries)
  }

  lemma FollowsBoth(cfg: Config, a: Outcome, b: Outcome, l: Ledger, m: Ledger, n: Ledger, p: Plan, q: Plan)
    requires Follows(cfg, a, l, m, p) && Follows(cfg, b, m, n, q)
    ensures Follows(cfg, Merge(a, b), l, n, Both(p, q))
    ensures Follows(cfg, Merge(Merge(NOTHING, a), b), l, n, Both(p, q))
  {
    TotalConcat(cfg, p.visits, q.visits);
    MergeLaws(NOTHING, a, a);
  }

  lemma FollowsAfterBytes(cfg: Config, o: Outcome, l: Ledger, m: Ledger, n: Ledger, p: Plan, bytes: nat, entries: nat)
    requires Follows(cfg, o, m, n, p) && m == Ledger(l.bytesRead + bytes, l.entries + entries)
    ensures Follows(cfg, o, l, n, Both(Plan([], bytes, entries), p))
  {
    assert [] + p.visits == p.visits;
  }

  lemma FreeReadShifts(cfg: Config, s: Stream, from: nat, limit: Option<nat>, led: Ledger, other: Ledger)
    requires cfg.budget.None? && from <= |s.data|
    ensures
      var r, o := ReadUpTo(cfg, s, from, limit, led), ReadUpTo(cfg, s, from, limit, other);
      && r.data == o.data && r.cause == o.cause && r.taken == o.taken && r.events == o.events
      && r.ledger.bytesRead - led.bytesRead == o.ledger.bytesRead - other.bytesRead
      && r.ledger.entries == led.entries
      && (r.cause.Some? ==> r.cause.value.Library?)
  {
  }

  lemma PrefixShifts(cfg: Config, s: Stream, led: Ledger)
    ensures
      var p, o := ReadPrefix(Free(cfg), s, led), FreePrefix(cfg, s);
      && p == o.(ledger := p.ledger)
      && p.ledger == Ledger(led.bytesRead + o.ledger.bytesRead, led.entries)
      && (p.cause.Some? ==> p.cause.value.Library?)
  {
    hide ReadUpTo;
    FreeReadShifts(Free(cfg), s, 0, PrefixLimit(cfg.maxBytes), led, Ledger(0, 0));
  }

  lemma FullShifts(cfg: Config, s: Stream, led: Ledger)
    ensures
      var p := ReadPrefix(Free(cfg), s, led);
      var r, o := ReadFull(Free(cfg), s, p), FreeFull(cfg, s);
      && r == o.(ledger := r.ledger)
      && r.ledger == Ledger(led.bytesRead + o.ledger.bytesRead, led.entries)
      && (r.cause.Some? ==> r.cause.value.Library?)
  {
    hide ReadUpTo, ReadPrefix;
    PrefixShifts(cfg, s, led);
    var p, o := ReadPrefix(Free(cfg), s, led), FreePrefix(cfg, s);
    FreeReadShifts(Free(cfg), s, p.taken, None, p.ledger, o.ledger);
  }

  lemma LeafFollows(cfg: Config, s: Stream, path: seq<string>, led: Ledger)
    ensures
      var r, o := Leaf(Free(cfg), s, path, ReadPrefix(Free(cfg), s, led)), FreeLeaf(cfg, s, path);
      && r == o.(ledger := r.ledger)
      && r.ledger == Ledger(led.bytesRead + o.ledger.bytesRead, led.entries)
      && Unhindered(r.outcome.causes)
  {
    hide ReadUpTo, ReadPrefix, ReadFull;
    PrefixShifts(cfg, s, led);
    FullShifts(cfg, s, led);
    ContentIsUnhindered(cfg, FreePrefix(cfg, s).prefix, false);
    ContentIsUnhindered(cfg, FreePrefix(cfg, s).prefix, true);
    ContentIsUnhindered(cfg, FreeFull(cfg, s).data, true);
  }

  lemma ContentIsUnhindered(cfg: Config, data: Bytes, complete: bool)
    ensures Unhindered(ScanContentData(cfg.codecs, cfg.outerPath, data, complete).0.causes)
  {
  }

  lemma {:induction false} EntryFollows(cfg: Config, s: Stream, path: seq<string>, depth: nat, led: Ledger)
    requires 1 <= depth <= cfg.maxDepth
    requires Unhindered(ScanEntry(Free(cfg), s, path, depth, led).outcome.causes)
    ensures
      var r := ScanEntry(Free(cfg), s, path, depth, led);
      && Follows(cfg, r.outcome, led, r.ledger, PlanEntry(cfg, s, path, depth))
      && r.taken == TakenFrom(cfg, s, path, depth)
    decreases cfg.maxDepth - depth, 0, 0
  {
    hide Leaf, ReadPrefix, ReadFull, DetectFormat, ScanArchive, PlanArchive, Total;
    var p := ReadPrefix(Free(cfg), s, led);
    PrefixShifts(cfg, s, led);
    FullShifts(cfg, s, led);
    LeafFollows(cfg, s, path, led);
    TotalOfOne(cfg, Entry(path, s));
    TotalOfOne(cfg, Trouble(DepthLimit));
    if LooksLikeArchive(cfg, s) && depth < cfg.maxDepth {
      var full := ReadFull(Free(cfg), s, p);
      var format := DetectFormat(p.prefix).value;
      if p.complete {
        NestedFollows(cfg, p.prefix, format, path, depth, led, p.ledger, FreePrefix(cfg, s).ledger.bytesRead);
      } else if full.cause.None? {
        NestedFollows(cfg, full.data, format, path, depth, led, full.ledger, FreeFull(cfg, s).ledger.bytesRead);
      } else {
        TotalOfOne(cfg, Trouble(full.cause.value));
      }
    }
  }

  lemma {:induction false} NestedFollows(
    cfg: Config, data: Bytes, format: Format, path: seq<string>, depth: nat, led: Ledger, read: Ledger, bytes: nat)
    requires 1 <= depth < cfg.maxDepth && read == Ledger(led.bytesRead + bytes, led.entries)
    requires Unhindered(ScanArchive(Free(cfg), data, format, path, depth + 1, read).outcome.causes)
    ensures
      var r := ScanArchive(Free(cfg), data, format, path, depth + 1, read);
      Follows(cfg, r.outcome, led, r.ledger, Both(Plan([], bytes, 0), PlanArchive(cfg, data, format, path, depth + 1)))
    decreases cfg.maxDepth - depth - 1, 4, 0
  {
    hide ScanArchive, PlanArchive, Total;
    ArchiveFollows(cfg, data, format, path, depth + 1, read);
    var r := ScanArchive(Free(cfg), data, format, path, depth + 1, read);
    FollowsAfterBytes(cfg, r.outcome, led, read, r.ledger, PlanArchive(cfg, data, format, path, depth + 1), bytes, 0);
  }

  lemma {:induction false} ItemFollows(cfg: Config, item: Item, parents: seq<string>, depth: nat, led: Ledger)
    requires 1 <= depth <= cfg.maxDepth
    requires Unhindered(ScanItem(Free(cfg), item, parents, depth, led).outcome.causes)
    ensures
      var r := ScanItem(Free(cfg), item, parents, depth, led);
      Follows(cfg, r.outcome, led, r.ledger, PlanItem(cfg, item, parents, depth)) && r.stop == item.Unreadable?
    decreases cfg.maxDepth - depth, 1, 0
  {
    hide ScanEntry, PlanEntry, Total, TakenFrom;
    match item
    case Unreadable(cause) => TotalOfOne(cfg, Trouble(cause));
    case Skipped(_) => NothingFollows(cfg, led.(entries := led.entries + 1));
    case Refused(_, cause) => TotalOfOne(cfg, Trouble(cause));
    case Content(name, s) =>
      var path, begun := Append(cfg, parents, name), led.(entries := led.entries + 1);
      assert Append(Free(cfg), parents, name) == path;
      var r := ScanEntry(Free(cfg), s, path, depth, begun);
      EntryFollows(cfg, s, path, depth, begun);
      var closeError := s.close(r.taken);
      var whole := if closeError.Some? then Merge(r.outcome, Failure(Library(closeError.value))) else r.outcome;
      if closeError.Some? {
        TotalOfOne(cfg, Trouble(Library(closeError.value)));
        FollowsBoth(cfg, r.outcome, Failure(Library(closeError.value)), begun, r.ledger, r.ledger,
                    PlanEntry(cfg, s, path, depth), PlanClose(cfg, s, path, depth));
      } else {
        NothingFollows(cfg, r.ledger);
        FollowsBoth(cfg, r.outcome, NOTHING, begun, r.ledger, r.ledger,
                    PlanEntry(cfg, s, path, depth), PlanClose(cfg, s, path, depth));
        MergeLaws(NOTHING, NOTHING, r.outcome);
      }
      FollowsAfterBytes(cfg, whole, led, begun, r.ledger,
                        Both(PlanEntry(cfg, s, path, depth), PlanClose(cfg, s, path, depth)), 0, 1);
  }

  lemma NothingFollows(cfg: Config, led: Ledger)
    ensures Follows(cfg, NOTHING, led, led, NO_PLAN)
  {
  }

  lemma {:induction false} ItemsFollow(cfg: Config, items: seq<Item>, parents: seq<string>, depth: nat, led: Ledger)
    requires 1 <= depth <= cfg.maxDepth
    requires Unhindered(ScanItems(Free(cfg), items, parents, depth, led).outcome.causes)
    ensures
      var r := ScanItems(Free(cfg), items, parents, depth, led);
      Follows(cfg, r.outcome, led, r.ledger, PlanItems(cfg, items, parents, depth))
    decreases cfg.maxDepth - depth, 2, |items|
  {
    hide ScanItem, PlanItem, Total;
    if items == [] {
      NothingFollows(cfg, led);
    } else {
      var step := ScanItem(Free(cfg), items[0], parents, depth, led);
      MergeLaws(NOTHING, NOTHING, step.outcome);
      ItemFollows(cfg, items[0], parents, depth, led);
      if !step.stop {
        var rest := ScanItems(Free(cfg), items[1..], parents, depth, step.ledger);
        ItemsFollow(cfg, items[1..], parents, depth, step.ledger);
        FollowsBoth(cfg, step.outcome, rest.outcome, led, step.ledger, rest.ledger,
                    PlanItem(cfg, items[0], parents, depth), PlanItems(cfg, items[1..], parents, depth));
      }
    }
  }

  lemma {:induction false} ArchiveFollows(
    cfg: Config, data: Bytes, format: Format, parents: seq<string>, depth: nat, led: Ledger)
    requires 1 <= depth <= cfg.maxDepth
    requires Unhindered(ScanArchive(Free(cfg), data, format, parents, depth, led).outcome.causes)
    ensures
      var r := ScanArchive(Free(cfg), data, format, parents, depth, led);
      Follows(cfg, r.outcome, led, r.ledger, PlanArchive(cfg, data, format, parents, depth))
    decreases cfg.maxDepth - depth, 3, 0
  {
    hide ScanItems, ScanItem, PlanItems, PlanItem, Total, DeclaredCount, DefaultGzipName;
    TotalOfOne(cfg, Trouble(MissingFooter));
    TotalOfOne(cfg, Trouble(BadArchive));
    match format
    case ZIP =>
      var list := cfg.libraries.unzip(data);
      if CountProblem(Free(cfg), data, led).None? && list.Some? {
        ItemsFollow(cfg, ZipItems(list.value), parents, depth, led);
      }
    case TAR =>
      ItemsFollow(cfg, TarItems(cfg.libraries.untar(data)), parents, depth, led);
    case GZIP =>
      var member := cfg.libraries.gunzip(data);
      if member.Some? {
        GzipNameIsFree(cfg, parents, member.value);
        ItemFollows(cfg, GzipItem(cfg, parents, member.value), parents, depth, led);
      }
  }

  // -------------------------------------------------------------- the main results

  // What some visits give, one after the other.

  function CertificatesOf(cfg: Config, visits: seq<Visit>): seq<Certificate> {
    if visits == [] then [] else VisitOutcome(cfg, visits[0]).certificates + CertificatesOf(cfg, visits[1..])
  }

  function FindingsOf(cfg: Config, visits: seq<Visit>): seq<Finding> {
    if visits == [] then [] else VisitOutcome(cfg, visits[0]).findings + FindingsOf(cfg, visits[1..])
  }

  function CausesOf(cfg: Config, visits: seq<Visit>): seq<Cause> {
    if visits == [] then [] else VisitOutcome(cfg, visits[0]).causes + CausesOf(cfg, visits[1..])
  }

  lemma {:induction false} TotalIsInOrder(cfg: Config, visits: seq<Visit>)
    ensures
      var t := Total(cfg, visits);
      && t.certificates == CertificatesOf(cfg, visits) && t.findings == FindingsOf(cfg, visits)
      && t.causes == CausesOf(cfg, visits)
  {
    hide VisitOutcome;
    if visits != [] {
      TotalIsInOrder(cfg, visits[1..]);
    }
  }

  /** Flattening with the exact threshold: when no entry or count limit is met, a budget
      of at least the planned bytes gives certificates, findings and causes of the
      planned visits one after the other, with exactly the planned bytes and entries on
      the counters; any smaller budget gives the byte-limit error with the budget spent. */
  lemma ScanIsFlattening(cfg: Config, data: Bytes, format: Format)
    requires cfg.maxDepth >= 1 && cfg.budget.Some?
    requires Unhindered(ScanOuter(Free(cfg), data, format).outcome.causes)
    ensures
      var plan := PlanArchive(cfg, data, format, [], 1);
      var r := ScanOuter(cfg, data, format);
      if cfg.budget.value >= plan.bytes then
        && r.outcome.certificates == CertificatesOf(cfg, plan.visits)
        && r.outcome.findings == FindingsOf(cfg, plan.visits)
        && r.outcome.causes == CausesOf(cfg, plan.visits) && r.ledger == Ledger(plan.bytes, plan.entries)
      else
        ByteLimit in r.outcome.causes && r.ledger.bytesRead == cfg.budget.value
  {
    hide ScanArchive, PlanArchive, Total, CertificatesOf, FindingsOf, CausesOf;
    ArchiveFollows(cfg, data, format, [], 1, Ledger(0, 0));
    TotalIsInOrder(cfg, PlanArchive(cfg, data, format, [], 1).visits);
    ByteThreshold(cfg, data, format);
  }

  // ------------------------------------------ what is met in an archive, by its entries

  /** The archive an entry turns out to be: its bytes and their format. */
  function OpensAs(cfg: Config, s: Stream): Option<(Bytes, Format)> {
    if !LooksLikeArchive(cfg, s) then None
    else
      var p := FreePrefix(cfg, s);
      var format := DetectFormat(p.prefix).value;
      if p.complete then Some((p.prefix, format))
      else if FreeFull(cfg, s).cause.None? then Some((FreeFull(cfg, s).data, format))
      else None
  }

  /** Closing an entry after as much of it was taken fails. */
  predicate ClosesBadly(cfg: Config, s: Stream, here: seq<string>, depth: nat, v: Visit) {
    var closeError := s.close(TakenFrom(cfg, s, here, depth));
    closeError.Some? && v == Trouble(Library(closeError.value))
  }

  /** What is met in the content of an entry at a path: the entry itself, if it is no
      archive; at the depth limit only that it is one; else why it cannot be read to its
      end, or what is met in the archive. */
  ghost predicate MetInside(cfg: Config, s: Stream, here: seq<string>, depth: nat, v: Visit)
    requires 1 <= depth <= cfg.maxDepth
    decreases cfg.maxDepth - depth, 1
  {
    if !LooksLikeArchive(cfg, s) then v == Entry(here, s)
    else if depth == cfg.maxDepth then v == Trouble(DepthLimit)
    else
      match OpensAs(cfg, s)
      case None => v == Trouble(FreeFull(cfg, s).cause.value)
      case Some((data, format)) => MetInArchive(cfg, data, format, here, depth + 1, v)
  }

  /** Directories and other irregular entries of a ZIP archive hold nothing; an encrypted
      one and one that cannot be opened are failures; any other holds its content. */
  ghost predicate MetInZip(cfg: Config, e: ZipEntry, parents: seq<string>, depth: nat, v: Visit)
    requires 1 <= depth <= cfg.maxDepth
    decreases cfg.maxDepth - depth, 2
  {
    && e.regular
    && if e.encrypted then v == Trouble(EncryptedEntry)
       else
         match e.content
         case None => v == Trouble(Library(0))
         case Some(s) =>
           var here := Append(cfg, parents, e.name);
           MetInside(cfg, s, here, depth, v) || ClosesBadly(cfg, s, here, depth, v)
  }

  ghost predicate MetInTar(cfg: Config, h: TarHeader, parents: seq<string>, depth: nat, v: Visit)
    requires 1 <= depth <= cfg.maxDepth
    decreases cfg.maxDepth - depth, 2
  {
    h.regular && MetInside(cfg, Unclosed(h.content), Append(cfg, parents, h.name), depth, v)
  }

  /** The one entry of a gzip archive, under its own name or one made up from its parent's. */
  ghost predicate MetInGzip(cfg: Config, member: GzipMember, parents: seq<string>, depth: nat, v: Visit)
    requires 1 <= depth <= cfg.maxDepth
    decreases cfg.maxDepth - depth, 2
  {
    var name := if member.name != "" then member.name else DefaultGzipName(cfg, parents);
    var here := Append(cfg, parents, name);
    MetInside(cfg, member.content, here, depth, v) || ClosesBadly(cfg, member.content, here, depth, v)
  }

  ghost predicate MetInArchive(
    cfg: Config, data: Bytes, format: Format, parents: seq<string>, depth: nat, v: Visit)
    requires 1 <= depth <= cfg.maxDepth
    decreases cfg.maxDepth - depth, 3
  {
    match format
    case ZIP =>
      if DeclaredCount(data).None? then v == Trouble(MissingFooter)
      else
        (match cfg.libraries.unzip(data)
         case None => v == Trouble(BadArchive)
         case Some(entries) => exists i :: 0 <= i < |entries| && MetInZip(cfg, entries[i], parents, depth, v))
    case TAR =>
      var archive := cfg.libraries.untar(data);
      || (archive.fault.Some? && v == Trouble(Library(archive.fault.value)))
      || exists i :: 0 <= i < |archive.headers| && MetInTar(cfg, archive.headers[i], parents, depth, v)
    case GZIP =>
      match cfg.libraries.gunzip(data)
      case None => v == Trouble(BadArchive)
      case Some(member) => MetInGzip(cfg, member, parents, depth, v)
  }

  lemma InBoth(a: Plan, b: Plan, v: Visit)
    ensures v in Both(a, b).visits <==> v in a.visits || v in b.visits
  {
  }

  lemma {:induction false} EntryMeets(cfg: Config, s: Stream, here: seq<string>, depth: nat, v: Visit)
    requires 1 <= depth <= cfg.maxDepth
    ensures v in PlanEntry(cfg, s, here, depth).visits <==> MetInside(cfg, s, here, depth, v)
    decreases cfg.maxDepth - depth, 0, 0
  {
    hide FreeLeaf, FreePrefix, FreeFull, DetectFormat, PlanArchive, MetInArchive;
    if LooksLikeArchive(cfg, s) && depth < cfg.maxDepth && OpensAs(cfg, s).Some? {
      var (data, format) := OpensAs(cfg, s).value;
      ArchiveMeets(cfg, data, format, here, depth + 1, v);
      InBoth(Plan([], FreePrefix(cfg, s).ledger.bytesRead, 0), PlanArchive(cfg, data, format, here, depth + 1), v);
      InBoth(Plan([], FreeFull(cfg, s).ledger.bytesRead, 0), PlanArchive(cfg, data, format, here, depth + 1), v);
    }
  }

  /** The content of an entry and its closing. */
  lemma {:induction false} ContentMeets(
    cfg: Config, name: string, s: Stream, parents: seq<string>, depth: nat, v: Visit)
    requires 1 <= depth <= cfg.maxDepth
    ensures
      var here := Append(cfg, parents, name);
      v in PlanItem(cfg, Content(name, s), parents, depth).visits
      <==> MetInside(cfg, s, here, depth, v) || ClosesBadly(cfg, s, here, depth, v)
    decreases cfg.maxDepth - depth, 1, 0
  {
    hide PlanEntry, MetInside, TakenFrom;
    EntryMeets(cfg, s, Append(cfg, parents, name), depth, v);
  }

  lemma {:induction false} ZipEntryMeets(cfg: Config, e: ZipEntry, parents: seq<string>, depth: nat, v: Visit)
    requires 1 <= depth <= cfg.maxDepth
    ensures v in PlanItem(cfg, ZipItem(e), parents, depth).visits <==> MetInZip(cfg, e, parents, depth, v)
    decreases cfg.maxDepth - depth, 1, 1
  {
    hide PlanEntry, MetInside, TakenFrom, ClosesBadly;
    if e.content.Some? {
      ContentMeets(cfg, e.name, e.content.value, parents, depth, v);
    }
  }

  lemma {:induction false} TarEntryMeets(cfg: Config, h: TarHeader, parents: seq<string>, depth: nat, v: Visit)
    requires 1 <= depth <= cfg.maxDepth
    ensures v in PlanItem(cfg, TarItem(h), parents, depth).visits <==> MetInTar(cfg, h, parents, depth, v)
    decreases cfg.maxDepth - depth, 1, 1
  {
    hide PlanEntry, MetInside, TakenFrom;
    ContentMeets(cfg, h.name, Unclosed(h.content), parents, depth, v);
  }

  /** Only at the end of a TAR archive something may be unreadable. */
  predicate ReadableToTheEnd(items: seq<Item>) {
    forall i :: 0 <= i < |items| - 1 ==> !items[i].Unreadable?
  }

  /** Plans one after the other. */
  function AllOf(parts: seq<Plan>): Plan {
    if parts == [] then NO_PLAN else Both(parts[0], AllOf(parts[1..]))
  }

  lemma {:induction false} InAllOf(parts: seq<Plan>, v: Visit)
    ensures v in AllOf(parts).visits <==> exists i :: 0 <= i < |parts| && v in parts[i].visits
  {
    if parts != [] {
      InAllOf(parts[1..], v);
      InBoth(parts[0], AllOf(parts[1..]), v);
      assert forall i :: 0 <= i < |parts| - 1 ==> parts[1..][i] == parts[i + 1];
      if i :| 0 <= i < |parts[1..]| && v in parts[1..][i].visits {
        assert v in parts[i + 1].visits;
      }
    }
  }

  lemma {:induction false} ItemsInOrder(cfg: Config, items: seq<Item>, parents: seq<string>, depth: nat)
    returns (parts: seq<Plan>)
    requires 1 <= depth <= cfg.maxDepth && ReadableToTheEnd(items)
    ensures |parts| == |items| && PlanItems(cfg, items, parents, depth) == AllOf(parts)
    ensures forall i :: 0 <= i < |items| ==> parts[i] == PlanItem(cfg, items[i], parents, depth)
    decreases |items|
  {
    hide PlanItem;
    if items == [] {
      parts := [];
    } else {
      var rest := items[1..];
      assert forall i :: 0 <= i < |rest| ==> rest[i] == items[i + 1];
      var others := ItemsInOrder(cfg, rest, parents, depth);
      var first := PlanItem(cfg, items[0], parents, depth);
      parts := [first] + others;
      assert parts[1..] == others;
      if items[0].Unreadable? {
        assert rest == [];
        NothingMore(first);
      }
    }
  }

  lemma {:induction false} AllOfAppend(parts: seq<Plan>, last: Plan)
    ensures AllOf(parts + [last]) == Both(AllOf(parts), last)
  {
    if parts == [] {
      assert [] + [last] == [last] && [last][1..] == [];
      NothingMore(last);
    } else {
      assert (parts + [last])[1..] == parts[1..] + [last];
      AllOfAppend(parts[1..], last);
    }
  }

  lemma NothingMore(p: Plan)
    ensures Both(p, NO_PLAN) == p
  {
  }

  /** What a regular, open ZIP entry costs beside itself. */
  function NestedEntries(cfg: Config, s: Stream, here: seq<string>, depth: nat): nat
    requires 1 <= depth <= cfg.maxDepth
  {
    if depth < cfg.maxDepth && OpensAs(cfg, s).Some? then
      var (data, format) := OpensAs(cfg, s).value;
      PlanArchive(cfg, data, format, here, depth + 1).entries
    else 0
  }

  lemma ContentCosts(cfg: Config, name: string, s: Stream, parents: seq<string>, depth: nat)
    requires 1 <= depth <= cfg.maxDepth
    ensures PlanItem(cfg, Content(name, s), parents, depth).entries
         == 1 + NestedEntries(cfg, s, Append(cfg, parents, name), depth)
  {
    hide FreeLeaf, FreePrefix, FreeFull, DetectFormat, PlanArchive, TakenFrom;
  }

  /** The plan of a ZIP archive lists what is met in its entries, entry after entry. Each
      entry, regular or not, counts as one, and as those met inside if it is opened. */
  lemma {:induction false} ZipInOrder(
    cfg: Config, data: Bytes, parents: seq<string>, depth: nat) returns (parts: seq<Plan>)
    requires 1 <= depth <= cfg.maxDepth && DeclaredCount(data).Some? && cfg.libraries.unzip(data).Some?
    ensures
      var entries := cfg.libraries.unzip(data).value;
      && |parts| == |entries| && PlanArchive(cfg, data, ZIP, parents, depth) == AllOf(parts)
      && forall i :: 0 <= i < |entries| ==>
           var e := entries[i];
           && (forall v :: v in parts[i].visits <==> MetInZip(cfg, e, parents, depth, v))
           && parts[i].entries == 1 +
                if e.regular && !e.encrypted && e.content.Some?
                then NestedEntries(cfg, e.content.value, Append(cfg, parents, e.name), depth) else 0
    decreases cfg.maxDepth - depth, 2
  {
    hide PlanItem, MetInZip, NestedEntries;
    var entries := cfg.libraries.unzip(data).value;
    parts := ItemsInOrder(cfg, ZipItems(entries), parents, depth);
    forall i | 0 <= i < |entries|
      ensures forall v :: v in parts[i].visits <==> MetInZip(cfg, entries[i], parents, depth, v)
      ensures parts[i].entries == 1 +
                if entries[i].regular && !entries[i].encrypted && entries[i].content.Some?
                then NestedEntries(cfg, entries[i].content.value, Append(cfg, parents, entries[i].name), depth) else 0
    {
      forall v ensures v in parts[i].visits <==> MetInZip(cfg, entries[i], parents, depth, v) {
        ZipEntryMeets(cfg, entries[i], parents, depth, v);
      }
      ZipEntryCosts(cfg, entries[i], parents, depth);
    }
  }

  lemma ZipEntryCosts(cfg: Config, e: ZipEntry, parents: seq<string>, depth: nat)
    requires 1 <= depth <= cfg.maxDepth
    ensures PlanItem(cfg, ZipItem(e), parents, depth).entries == 1 +
              if e.regular && !e.encrypted && e.content.Some?
              then NestedEntries(cfg, e.content.value, Append(cfg, parents, e.name), depth) else 0
  {
    hide PlanEntry, NestedEntries, TakenFrom;
    if e.content.Some? {
      ContentCosts(cfg, e.name, e.content.value, parents, depth);
    }
  }

  /** The same for a TAR archive, with the fault that ends it, if any. */
  lemma {:induction false} TarInOrder(
    cfg: Config, data: Bytes, parents: seq<string>, depth: nat) returns (parts: seq<Plan>)
    requires 1 <= depth <= cfg.maxDepth
    ensures
      var archive := cfg.libraries.untar(data);
      var fault := if archive.fault.Some? then Plan([Trouble(Library(archive.fault.value))], 0, 0) else NO_PLAN;
      && |parts| == |archive.headers| && PlanArchive(cfg, data, TAR, parents, depth) == Both(AllOf(parts), fault)
      && forall i :: 0 <= i < |parts| ==>
           var h := archive.headers[i];
           && (forall v :: v in parts[i].visits <==> MetInTar(cfg, h, parents, depth, v))
           && parts[i].entries == 1 +
                if h.regular then NestedEntries(cfg, Unclosed(h.content), Append(cfg, parents, h.name), depth) else 0
    decreases cfg.maxDepth - depth, 2
  {
    hide PlanItem, MetInTar, NestedEntries;
    var archive := cfg.libraries.untar(data);
    var n := |archive.headers|;
    var all := ItemsInOrder(cfg, TarItems(archive), parents, depth);
    parts := all[..n];
    if archive.fault.Some? {
      FaultIsPlanned(cfg, archive.fault.value, parents, depth);
      assert all == parts + [Plan([Trouble(Library(archive.fault.value))], 0, 0)];
      AllOfAppend(parts, Plan([Trouble(Library(archive.fault.value))], 0, 0));
    } else {
      assert all == parts;
      NothingMore(AllOf(parts));
    }
    forall i | 0 <= i < n
      ensures forall v :: v in parts[i].visits <==> MetInTar(cfg, archive.headers[i], parents, depth, v)
      ensures parts[i].entries == 1 +
                if archive.headers[i].regular
                then NestedEntries(cfg, Unclosed(archive.headers[i].content),
                                   Append(cfg, parents, archive.headers[i].name), depth) else 0
    {
      forall v ensures v in parts[i].visits <==> MetInTar(cfg, archive.headers[i], parents, depth, v) {
        TarEntryMeets(cfg, archive.headers[i], parents, depth, v);
      }
      TarEntryCosts(cfg, archive.headers[i], parents, depth);
    }
  }

  lemma FaultIsPlanned(cfg: Config, code: nat, parents: seq<string>, depth: nat)
    requires 1 <= depth <= cfg.maxDepth
    ensures PlanItem(cfg, Unreadable(Library(code)), parents, depth) == Plan([Trouble(Library(code))], 0, 0)
  {
  }

  lemma TarEntryCosts(cfg: Config, h: TarHeader, parents: seq<string>, depth: nat)
    requires 1 <= depth <= cfg.maxDepth
    ensures PlanItem(cfg, TarItem(h), parents, depth).entries == 1 +
              if h.regular then NestedEntries(cfg, Unclosed(h.content), Append(cfg, parents, h.name), depth) else 0
  {
    hide PlanEntry, NestedEntries, TakenFrom;
    ContentCosts(cfg, h.name, Unclosed(h.content), parents, depth);
  }

  /** The visits planned are exactly what is met in the archive: no leaf and no failure is
      missing, and none is made up, at any nesting depth. */
  lemma {:induction false} ArchiveMeets(
    cfg: Config, data: Bytes, format: Format, parents: seq<string>, depth: nat, v: Visit)
    requires 1 <= depth <= cfg.maxDepth
    ensures v in PlanArchive(cfg, data, format, parents, depth).visits
       <==> MetInArchive(cfg, data, format, parents, depth, v)
    decreases cfg.maxDepth - depth, 3, 0
  {
    hide PlanItem, MetInZip, MetInTar, MetInside, ClosesBadly, DefaultGzipName, DeclaredCount;
    match format
    case ZIP =>
      if DeclaredCount(data).Some? && cfg.libraries.unzip(data).Some? {
        var parts := ZipInOrder(cfg, data, parents, depth);
        InAllOf(parts, v);
      }
    case TAR =>
      var parts := TarInOrder(cfg, data, parents, depth);
      var fault := cfg.libraries.untar(data).fault;
      InAllOf(parts, v);
      InBoth(AllOf(parts), if fault.Some? then Plan([Trouble(Library(fault.value))], 0, 0) else NO_PLAN, v);
    case GZIP =>
      var member := cfg.libraries.gunzip(data);
      if member.Some? {
        ContentMeets(cfg, GzipItem(cfg, parents, member.value).name, member.value.content, parents, depth, v);
      }
  }

  lemma {:induction false} InsidePaths(
    cfg: Config, content: Stream, here: seq<string>, depth: nat, path: seq<string>, s: Stream)
    requires 1 <= depth <= cfg.maxDepth && |here| == depth
    requires MetInside(cfg, content, here, depth, Entry(path, s))
    ensures here <= path && |path| <= cfg.maxDepth
    decreases cfg.maxDepth - depth, 1
  {
    hide LooksLikeArchive, FreeFull, MetInArchive;
    if depth < cfg.maxDepth && OpensAs(cfg, content).Some? && LooksLikeArchive(cfg, content) {
      var (data, format) := OpensAs(cfg, content).value;
      ArchivePaths(cfg, data, format, here, depth + 1, path, s);
    }
  }

  /** The path of an entry that is met has one element for each layer around it, down to
      the depth limit. */
  lemma {:induction false} ArchivePaths(
    cfg: Config, data: Bytes, format: Format, parents: seq<string>, depth: nat, path: seq<string>, s: Stream)
    requires 1 <= depth <= cfg.maxDepth && |parents| == depth - 1
    requires MetInArchive(cfg, data, format, parents, depth, Entry(path, s))
    ensures parents < path && |path| <= cfg.maxDepth
    decreases cfg.maxDepth - depth, 3
  {
    hide MetInside, DefaultGzipName, DeclaredCount, TakenFrom;
    match format
    case ZIP =>
      var entries := cfg.libraries.unzip(data).value;
      var i :| 0 <= i < |entries| && MetInZip(cfg, entries[i], parents, depth, Entry(path, s));
      InsidePaths(cfg, entries[i].content.value, Append(cfg, parents, entries[i].name), depth, path, s);
    case TAR =>
      var headers := cfg.libraries.untar(data).headers;
      var i :| 0 <= i < |headers| && MetInTar(cfg, headers[i], parents, depth, Entry(path, s));
      InsidePaths(cfg, Unclosed(headers[i].content), Append(cfg, parents, headers[i].name), depth, path, s);
    case GZIP =>
      var member := cfg.libraries.gunzip(data).value;
      var name := if member.name != "" then member.name else DefaultGzipName(cfg, parents);
      InsidePaths(cfg, member.content, Append(cfg, parents, name), depth, path, s);
  }

  /** A sound entry opens as all of its bytes, in the format its prefix shows. */
  lemma SoundEntriesOpenWhole(cfg: Config, s: Stream)
    requires s.end.Eof? && |s.data| < MAX_INT64
    ensures OpensAs(cfg, s)
         == var format := DetectFormat(Prefix(s.data, cfg.maxBytes));
            if format.Some? then Some((s.data, format.value)) else None
  {
    hide DetectFormat;
    var p, full := FreePrefix(cfg, s), FreeFull(cfg, s);
    assert p.prefix == Prefix(s.data, cfg.maxBytes) && p.cause.None?;
    assert p.prefix + p.overflow == s.data[..p.taken];
    assert full.cause.None? && full.data == s.data;
  }

  predicate GzSuffix(t: string) {
    |t| == 3 && t[0] == '.' && t[1] in "gG" && t[2] in "zZ"
  }

  /** A gzip archive without a name inside is named after its parent, without the suffix
      .gz in any case of letters. */
  lemma GzipNames(cfg: Config, parents: seq<string>, stem: string, suffix: string)
    requires GzSuffix(suffix)
    ensures
      var base := cfg.libraries.base(if parents != [] then parents[|parents| - 1] else cfg.outerPath);
      && (base == stem + suffix ==>
            DefaultGzipName(cfg, parents) == if stem == "" || stem == "." then "content" else stem)
      && (!(|base| >= 3 && GzSuffix(base[|base| - 3..])) ==>
            DefaultGzipName(cfg, parents) == if base == "" || base == "." then "content" else base)
  {
    var base := cfg.libraries.base(if parents != [] then parents[|parents| - 1] else cfg.outerPath);
    SuffixIs(base);
    if base == stem + suffix {
      assert base[..|base| - 3] == stem && base[|base| - 3..] == suffix;
    }
  }

  lemma SuffixIs(name: string)
    ensures HasGzSuffix(name) <==> |name| >= 3 && GzSuffix(name[|name| - 3..])
  {
  }

  /** An entry's name joins the names around it, cleaned; an empty one is made up. */
  lemma EntryNames(cfg: Config, parents: seq<string>, name: string)
    ensures
      var path, cleaned := Append(cfg, parents, name), cfg.libraries.clean(name);
      && path[..|parents|] == parents && |path| == |parents| + 1
      && (cleaned != "" && cleaned != "." ==> path[|parents|] == cleaned)
      && (cleaned == "" || cleaned == "." ==> path[|parents|] == "(unnamed)")
  {
  }

  /** Whether sniffing the entry sees how its stream ends. */
  predicate EndIsSeen(cfg: Config, s: Stream) {
    cfg.maxBytes == 0 || |s.data| <= cfg.maxBytes || (|s.data| == cfg.maxBytes + 1 && s.eager)
  }

  lemma FaultyPrefix(cfg: Config, s: Stream)
    requires s.end.Fails? && |s.data| < MAX_INT64
    ensures
      var p := FreePrefix(cfg, s);
      && !p.complete && p.cause == (if EndIsSeen(cfg, s) then Some(Library(s.end.code)) else None)
      && p.prefix == if EndIsSeen(cfg, s) then s.data else s.data[..cfg.maxBytes]
    ensures !EndIsSeen(cfg, s) ==> FreeFull(cfg, s).cause == Some(Library(s.end.code))
  {
  }

  /** The entry's stream fails at its end: if that is seen, or the complete content is
      asked for, the error is reported along with the PEM certificates of the prefix;
      otherwise nobody notices. */
  lemma FaultyEntry(cfg: Config, s: Stream, path: seq<string>)
    requires s.end.Fails? && |s.data| < MAX_INT64
    ensures
      var seen := EndIsSeen(cfg, s);
      var prefix := if seen then s.data else s.data[..cfg.maxBytes];
      var keystore := JavaMagic(prefix) || Pkcs12.Detect(prefix);
      var pem := if keystore then [] else cfg.codecs.pem(prefix);
      var o := FreeLeaf(cfg, s, path).outcome;
      && |o.certificates| == |pem| && o.findings == []
      && (forall i :: 0 <= i < |pem| ==> o.certificates[i].der == pem[i])
      && o.causes == if seen || keystore || cfg.codecs.pem(prefix) != [] then [Library(s.end.code)] else []
  {
    hide ScanContentData, Pkcs12.Detect, JavaMagic, EndIsSeen, ReadPrefix, ReadFull;
    FaultyPrefix(cfg, s);
    IncompleteContentGives(cfg.codecs, cfg.outerPath, FreePrefix(cfg, s).prefix);
  }

  /** Every certificate and finding of a visit carries the path of its entry. */
  lemma VisitsCarryTheirPath(cfg: Config, v: Visit)
    requires v.Entry?
    ensures
      var o := VisitOutcome(cfg, v);
      && (forall i :: 0 <= i < |o.certificates| ==> o.certificates[i].entries == v.path)
      && (forall i :: 0 <= i < |o.findings| ==> o.findings[i].entries == v.path)
  {
    hide ReadPrefix, ReadFull, ScanContentData;
  }

  // ------------------------------------- entries are scanned like files of their own

  /** What reading a sound entry costs: all of it when its prefix asks for all of it,
      and otherwise no more than one byte beyond the sniff limit. */
  function Cost(cfg: Config, data: Bytes): nat {
    if cfg.maxBytes == 0 || |data| <= cfg.maxBytes then |data|
    else if ScanContentData(cfg.codecs, cfg.outerPath, data[..cfg.maxBytes], false).1 then |data|
    else cfg.maxBytes + 1
  }

  /** The same results, under an entry path. */
  predicate Under(r: Outcome, file: Outcome, path: seq<string>) {
    && |r.certificates| == |file.certificates| && |r.findings| == |file.findings|
    && r.causes == file.causes && r.capped == file.capped
    && (forall i :: 0 <= i < |r.certificates| ==>
          var c, d := r.certificates[i], file.certificates[i];
          c.entries == path && c.path == d.path && c.index == d.index && c.der == d.der && c.keystore == d.keystore)
    && forall i :: 0 <= i < |r.findings| ==>
         var f, g := r.findings[i], file.findings[i];
         f.entries == path && f.path == g.path && f.contentIndex == g.contentIndex && f.algorithm == g.algorithm
  }

  lemma AttachKeeps(o: Outcome, path: seq<string>)
    ensures Under(Attach(o, path), o, path)
  {
  }

  /** An entry that is no archive is scanned exactly like a plain file with the same
      bytes: same result under its path, same capped flag, at the stated cost. */
  lemma EntryScannedLikeAFile(cfg: Config, data: Bytes, eager: bool, close: nat -> Option<nat>, path: seq<string>)
    requires |data| < MAX_INT64
    ensures
      var s := Stream(data, Eof, eager, close);
      var r := FreeLeaf(cfg, s, path);
      var file := ScanPlainFile(cfg.codecs, cfg.outerPath, data, cfg.maxBytes);
      && r.outcome == Attach(file, path) && Under(r.outcome, file, path) && r.capped == file.capped
      && r.ledger.bytesRead == Cost(cfg, data)
  {
    hide ScanContentData, Under;
    AttachKeeps(ScanPlainFile(cfg.codecs, cfg.outerPath, data, cfg.maxBytes), path);
    var s := Stream(data, Eof, eager, close);
    var p := FreePrefix(cfg, s);
    assert p.prefix == Prefix(data, cfg.maxBytes) && p.complete == Complete(data, cfg.maxBytes) && p.cause.None?;
    assert p.prefix + p.overflow == data[..p.taken];
    var full := FreeFull(cfg, s);
    assert full.data == data && full.cause.None?;
  }
}
