/** What every nested-archive scan keeps, whatever the containers hold: the byte
    budget is never passed, a refused read ends the whole scan, and the entry and
    depth limits bound what is begun. */
module ArchiveSafety {
  import opened Common
  import opened Content
  import opened Archive

  // ------------------------------------------------------------- events of a run

  /** After a refused read nothing happens any more but finishing what is open. */
  predicate StopsAtBudget(events: seq<Event>) {
    forall i, j :: 0 <= i < j < |events| && events[i] == BudgetHit ==> events[j].Finished?
  }

  /** No entry is deeper than the depth limit, and the count check always sees an entry
      counter within the entry limit. */
  predicate WithinLimits(cfg: Config, events: seq<Event>) {
    forall i :: 0 <= i < |events| ==>
      && (events[i].Reached? ==> |events[i].path| <= cfg.maxDepth)
      && (events[i].CountChecked? ==> events[i].entries <= cfg.maxEntries)
  }

  function ReachedCount(events: seq<Event>): nat {
    if events == [] then 0 else (if events[0].Reached? then 1 else 0) + ReachedCount(events[1..])
  }

  lemma {:induction false} ReachedConcat(a: seq<Event>, b: seq<Event>)
    ensures ReachedCount(a + b) == ReachedCount(a) + ReachedCount(b)
    decreases |a|
  {
    if a == [] {
      assert a + b == b;
    } else {
      assert (a + b)[1..] == a[1..] + b;
      ReachedConcat(a[1..], b);
    }
  }

  /** How many bytes the readings of a run handed on. */
  function Handed(events: seq<Event>): nat {
    if events == [] then 0 else (if events[0].HandedOn? then events[0].size else 0) + Handed(events[1..])
  }

  lemma {:induction false} HandedConcat(a: seq<Event>, b: seq<Event>)
    ensures Handed(a + b) == Handed(a) + Handed(b)
    decreases |a|
  {
    if a == [] {
      assert a + b == b;
    } else {
      assert (a + b)[1..] == a[1..] + b;
      HandedConcat(a[1..], b);
    }
  }

  function CappedEntries(cfg: Config, led: Ledger): nat {
    if led.entries <= cfg.maxEntries then led.entries else cfg.maxEntries
  }

  /** How many entries were begun above the limit. */
  function Over(cfg: Config, led: Ledger): nat {
    if led.entries <= cfg.maxEntries then 0 else led.entries - cfg.maxEntries
  }

  // -------------------------------------------------------------- the invariant

  predicate InBudget(cfg: Config, led: Ledger) {
    cfg.budget.Some? ==> led.bytesRead <= cfg.budget.value
  }

  /** What a stretch of the scan keeps: `spare` is how many entries it may reach
      without having begun them itself. */
  predicate Safe(cfg: Config, before: Ledger, after: Ledger, events: seq<Event>, causes: seq<Cause>, spare: nat) {
    && before.bytesRead + Handed(events) == after.bytesRead && before.entries <= after.entries
    && multiset(events)[Discovered] == after.entries - before.entries
    && multiset(causes)[EntryLimit] == Over(cfg, after) - Over(cfg, before)
    && InBudget(cfg, after)
    && StopsAtBudget(events) && WithinLimits(cfg, events)
    && (BudgetHit in events <==> ByteLimit in causes)
    && (ByteLimit in causes ==> cfg.budget == Some(after.bytesRead))
    && ReachedCount(events) + CappedEntries(cfg, before) <= CappedEntries(cfg, after) + spare
  }

  lemma Compose(
    cfg: Config, a: Ledger, b: Ledger, c: Ledger, e: seq<Event>, f: seq<Event>, p: seq<Cause>, q: seq<Cause>,
                m: nat, n: nat)
    requires Safe(cfg, a, b, e, p, m) && Safe(cfg, b, c, f, q, n) && ByteLimit !in p
    ensures Safe(cfg, a, c, e + f, p + q, m + n)
  {
    ReachedConcat(e, f);
    HandedConcat(e, f);
    assert BudgetHit !in e;
    forall i, j | 0 <= i < j < |e + f| && (e + f)[i] == BudgetHit ensures (e + f)[j].Finished? {
      assert i >= |e|;
      assert (e + f)[i] == f[i - |e|] && (e + f)[j] == f[j - |e|];
    }
  }

  /** An event that only reports, put in front. */
  lemma Prepend(cfg: Config, a: Ledger, b: Ledger, first: Event, e: seq<Event>, p: seq<Cause>, m: nat)
    requires Safe(cfg, a, b, e, p, m) && WithinLimits(cfg, [first])
    requires first != BudgetHit && !first.HandedOn? && first != Discovered
    ensures Safe(cfg, a, b, [first] + e, p, m + if first.Reached? then 1 else 0)
  {
  }

  /** Finishing an entry at the end, and further causes that are no byte limit. */
  lemma Finish(cfg: Config, a: Ledger, b: Ledger, e: seq<Event>, p: seq<Cause>, q: seq<Cause>, m: nat, capped: bool)
    requires Safe(cfg, a, b, e, p, m) && ByteLimit !in q && EntryLimit !in q
    ensures Safe(cfg, a, b, e + [Finished(capped)], p + q, m)
  {
    ReachedConcat(e, [Finished(capped)]);
    HandedConcat(e, [Finished(capped)]);
    assert ReachedCount([Finished(capped)]) == ReachedCount([]) && Handed([Finished(capped)]) == Handed([]);
  }

  lemma Reading(cfg: Config, s: Stream, from: nat, limit: Option<nat>, led: Ledger)
    requires from <= |s.data| && InBudget(cfg, led)
    ensures
      var r := ReadUpTo(cfg, s, from, limit, led);
      && Safe(cfg, led, r.ledger, r.events, if r.cause.Some? then [r.cause.value] else [], 0)
      && |r.data| == r.ledger.bytesRead - led.bytesRead
      && (r.cause.Some? ==> r.cause == Some(ByteLimit) || r.cause.value.Library?)
  {
    var n := |ReadUpTo(cfg, s, from, limit, led).data|;
    assert Handed([HandedOn(n)]) == n + Handed([HandedOn(n)][1..]) && Handed([BudgetHit]) == Handed([BudgetHit][1..]);
    assert ReachedCount([HandedOn(n)]) == ReachedCount([HandedOn(n)][1..]);
    assert ReachedCount([BudgetHit]) == ReachedCount([BudgetHit][1..]);
    HandedConcat([HandedOn(n)], [BudgetHit]);
    ReachedConcat([HandedOn(n)], [BudgetHit]);
  }

  lemma ReadingPrefix(cfg: Config, s: Stream, led: Ledger)
    requires InBudget(cfg, led)
    ensures
      var p := ReadPrefix(cfg, s, led);
      && Safe(cfg, led, p.ledger, p.events, if p.cause.Some? then [p.cause.value] else [], 0)
      && |p.prefix| + |p.overflow| == p.ledger.bytesRead - led.bytesRead
  {
    hide ReadUpTo;
    Reading(cfg, s, 0, PrefixLimit(cfg.maxBytes), led);
  }

  lemma ReadingFull(cfg: Config, s: Stream, led: Ledger, p: PrefixRun)
    requires InBudget(cfg, led) && p == ReadPrefix(cfg, s, led) && p.cause.None?
    ensures
      var full := ReadFull(cfg, s, p);
      && Safe(cfg, led, full.ledger, p.events + full.events, if full.cause.Some? then [full.cause.value] else [], 0)
      && full.ledger.entries == led.entries
  {
    hide ReadUpTo, Safe;
    ReadingPrefix(cfg, s, led);
    SafeKeepsBudget(cfg, led, p.ledger, p.events, [], 0);
    Reading(cfg, s, p.taken, None, p.ledger);
    var full := ReadFull(cfg, s, p);
    var causes := if full.cause.Some? then [full.cause.value] else [];
    Compose(cfg, led, p.ledger, full.ledger, p.events, full.events, [], causes, 0, 0);
    assert [] + causes == causes;
  }

  lemma LeafIsSafe(cfg: Config, s: Stream, path: seq<string>, led: Ledger)
    requires InBudget(cfg, led)
    ensures
      var r := Leaf(cfg, s, path, ReadPrefix(cfg, s, led));
      Safe(cfg, led, r.ledger, r.events, r.outcome.causes, 0)
  {
    hide ReadUpTo, ReadPrefix, ScanContentData;
    var p := ReadPrefix(cfg, s, led);
    ReadingPrefix(cfg, s, led);
    if p.cause.Some? {
      var partial := ScanContentData(cfg.codecs, cfg.outerPath, p.prefix, false).0;
      OtherCausesFirst(cfg, led, p.ledger, p.events, partial.causes, [p.cause.value]);
    } else {
      var (result, needsFullRead) := ScanContentData(cfg.codecs, cfg.outerPath, p.prefix, p.complete);
      if needsFullRead {
        Reading(cfg, s, p.taken, None, p.ledger);
        var full := ReadUpTo(cfg, s, p.taken, None, p.ledger);
        var causes := if full.cause.Some? then [full.cause.value] else [];
        Compose(cfg, led, p.ledger, full.ledger, p.events, full.events, [], causes, 0, 0);
        assert [] + causes == causes;
        if full.cause.Some? {
          OtherCausesFirst(cfg, led, full.ledger, p.events + full.events, result.causes, [full.cause.value]);
        }
      }
    }
  }

  lemma OtherCausesFirst(cfg: Config, a: Ledger, b: Ledger, e: seq<Event>, q: seq<Cause>, p: seq<Cause>)
    requires Safe(cfg, a, b, e, p, 0) && ByteLimit !in q && EntryLimit !in q
    ensures Safe(cfg, a, b, e, q + p, 0)
  {
  }

  // ----------------------------------------------------------- the mutual recursion

  /** How far the entry counter may pass its limit below an entry or in an archive. */
  predicate EntriesBounded(cfg: Config, before: Ledger, after: Ledger, levels: nat) {
    if before.entries <= cfg.maxEntries then after.entries <= cfg.maxEntries + levels
    else after.entries <= before.entries + 1
  }

  lemma {:induction false} EntryIsSafe(cfg: Config, s: Stream, path: seq<string>, depth: nat, led: Ledger)
    requires 1 <= depth <= cfg.maxDepth && |path| == depth
    requires InBudget(cfg, led) && led.entries <= cfg.maxEntries
    ensures
      var r := ScanEntry(cfg, s, path, depth, led);
      && Safe(cfg, led, r.ledger, r.events, r.outcome.causes, 1)
      && r.ledger.entries <= cfg.maxEntries + (cfg.maxDepth - depth)
    decreases cfg.maxDepth - depth, 0, 0
  {
    hide Leaf, ReadPrefix, ReadUpTo, DetectFormat, ScanArchive, Safe;
    var p := ReadPrefix(cfg, s, led);
    ReadingPrefix(cfg, s, led);
    var format := DetectFormat(p.prefix);
    if p.cause.Some? || format.None? {
      LeafIsSafe(cfg, s, path, led);
      var leaf := Leaf(cfg, s, path, p);
      Prepend(cfg, led, leaf.ledger, Reached(path), leaf.events, leaf.outcome.causes, 0);
    } else if depth >= cfg.maxDepth {
      OtherCause(cfg, led, p.ledger, p.events, DepthLimit);
      Prepend(cfg, led, p.ledger, Reached(path), p.events, [DepthLimit], 0);
    } else if p.complete {
      NestedIsSafe(cfg, p.prefix, format.value, path, depth, led, p.ledger, p.events);
    } else {
      NestedReadIsSafe(cfg, s, path, depth, led, p, format.value);
    }
  }

  lemma OtherCause(cfg: Config, a: Ledger, b: Ledger, e: seq<Event>, cause: Cause)
    requires Safe(cfg, a, b, e, [], 0) && cause != ByteLimit && cause != EntryLimit
    ensures Safe(cfg, a, b, e, [cause], 0)
  {
  }

  /** An archive found inside an entry, after its bytes were read. */
  lemma {:induction false} NestedIsSafe(
    cfg: Config, data: Bytes, format: Format, path: seq<string>, depth: nat, led: Ledger, read: Ledger,
    reading: seq<Event>)
    requires 1 <= depth < cfg.maxDepth && |path| == depth && led.entries <= cfg.maxEntries
    requires Safe(cfg, led, read, reading, [], 0) && led.entries == read.entries
    ensures
      var inner := ScanArchive(cfg, data, format, path, depth + 1, read);
      && Safe(cfg, led, inner.ledger, [Reached(path)] + reading + inner.events, inner.outcome.causes, 1)
      && inner.ledger.entries <= cfg.maxEntries + (cfg.maxDepth - depth)
    decreases cfg.maxDepth - depth - 1, 4, 0
  {
    hide ScanArchive, Safe;
    SafeKeepsBudget(cfg, led, read, reading, [], 0);
    ArchiveIsSafe(cfg, data, format, path, depth + 1, read);
    var inner := ScanArchive(cfg, data, format, path, depth + 1, read);
    Compose(cfg, led, read, inner.ledger, reading, inner.events, [], inner.outcome.causes, 0, 0);
    assert [] + inner.outcome.causes == inner.outcome.causes;
    Prepend(cfg, led, inner.ledger, Reached(path), reading + inner.events, inner.outcome.causes, 0);
    Regroup([Reached(path)], reading, inner.events);
  }

  lemma Regroup(a: seq<Event>, b: seq<Event>, c: seq<Event>)
    ensures a + (b + c) == a + b + c
  {
  }

  lemma {:induction false} NestedReadIsSafe(
    cfg: Config, s: Stream, path: seq<string>, depth: nat, led: Ledger, p: PrefixRun, format: Format)
    requires 1 <= depth < cfg.maxDepth && |path| == depth && led.entries <= cfg.maxEntries && InBudget(cfg, led)
    requires p == ReadPrefix(cfg, s, led) && p.cause.None?
    ensures
      var full := ReadFull(cfg, s, p);
      var before := [Reached(path)] + p.events + full.events;
      if full.cause.Some? then
        Safe(cfg, led, full.ledger, before, [full.cause.value], 1)
      else
        var inner := ScanArchive(cfg, full.data, format, path, depth + 1, full.ledger);
        && Safe(cfg, led, inner.ledger, before + inner.events, inner.outcome.causes, 1)
        && inner.ledger.entries <= cfg.maxEntries + (cfg.maxDepth - depth)
    decreases cfg.maxDepth - depth - 1, 5, 0
  {
    hide ScanArchive, Safe, ReadUpTo, ReadPrefix, ReadFull;
    ReadingFull(cfg, s, led, p);
    var full := ReadFull(cfg, s, p);
    var causes, reading := if full.cause.Some? then [full.cause.value] else [], p.events + full.events;
    Regroup([Reached(path)], p.events, full.events);
    if full.cause.Some? {
      Prepend(cfg, led, full.ledger, Reached(path), reading, causes, 0);
    } else {
      NestedIsSafe(cfg, full.data, format, path, depth, led, full.ledger, reading);
    }
  }

  lemma {:induction false} ItemIsSafe(cfg: Config, item: Item, parents: seq<string>, depth: nat, led: Ledger)
    requires 1 <= depth <= cfg.maxDepth && |parents| == depth - 1 && InBudget(cfg, led) && Allowed(item)
    ensures
      var r := ScanItem(cfg, item, parents, depth, led);
      && Safe(cfg, led, r.ledger, r.events, r.outcome.causes, 0)
      && (ByteLimit in r.outcome.causes ==> r.stop)
      && (if led.entries <= cfg.maxEntries then r.ledger.entries <= cfg.maxEntries + (cfg.maxDepth - depth) + 1
          else r.stop && r.ledger.entries <= led.entries + 1)
      && (!r.stop ==> r.ledger.entries <= cfg.maxEntries + (cfg.maxDepth - depth))
    decreases cfg.maxDepth - depth, 1, 0
  {
    hide ScanEntry, Safe;
    if !item.Unreadable? && item.Content? && led.entries < cfg.maxEntries {
      var path, begun := Append(cfg, parents, item.name), led.(entries := led.entries + 1);
      NothingIsSafe(cfg, begun);
      EntryIsSafe(cfg, item.content, path, depth, begun);
      CloseIsSafe(cfg, item.content, led, ScanEntry(cfg, item.content, path, depth, begun));
    } else {
      OtherItemIsSafe(cfg, item, parents, depth, led);
    }
  }

  /** An item that is not scanned: it costs at most one entry. */
  lemma OtherItemIsSafe(cfg: Config, item: Item, parents: seq<string>, depth: nat, led: Ledger)
    requires 1 <= depth <= cfg.maxDepth && InBudget(cfg, led) && Allowed(item)
    requires item.Content? ==> led.entries >= cfg.maxEntries
    ensures
      var r := ScanItem(cfg, item, parents, depth, led);
      && Safe(cfg, led, r.ledger, r.events, r.outcome.causes, 0)
      && ByteLimit !in r.outcome.causes
      && led.entries <= r.ledger.entries <= led.entries + 1
      && (r.ledger.entries > cfg.maxEntries ==> r.stop)
  {
    hide ScanEntry, Safe, Append;
    if item.Unreadable? {
      NothingIsSafe(cfg, led);
      OtherCause(cfg, led, led, [], item.cause);
    } else if led.entries >= cfg.maxEntries {
      OverTheLimit(cfg, led);
    } else if item.Skipped? {
      SkippedIsSafe(cfg, led);
    } else {
      RefusedIsSafe(cfg, led, item.cause);
    }
  }

  lemma SkippedIsSafe(cfg: Config, led: Ledger)
    requires led.entries < cfg.maxEntries && InBudget(cfg, led)
    ensures Safe(cfg, led, led.(entries := led.entries + 1), [Discovered], [], 0)
  {
    hide Safe;
    var begun := led.(entries := led.entries + 1);
    NothingIsSafe(cfg, begun);
    Begin(cfg, led, begun, [], [], 0);
    assert [Discovered] + [] == [Discovered];
  }

  lemma RefusedIsSafe(cfg: Config, led: Ledger, cause: Cause)
    requires led.entries < cfg.maxEntries && InBudget(cfg, led) && cause != ByteLimit && cause != EntryLimit
    ensures Safe(cfg, led, led.(entries := led.entries + 1), [Discovered, Finished(false)], [cause], 0)
  {
    hide Safe;
    var begun := led.(entries := led.entries + 1);
    NothingIsSafe(cfg, begun);
    Finish(cfg, begun, begun, [], [], [cause], 0, false);
    assert [] + [Finished(false)] == [Finished(false)] && [] + [cause] == [cause];
    Begin(cfg, led, begun, [Finished(false)], [cause], 0);
    assert [Discovered] + [Finished(false)] == [Discovered, Finished(false)];
  }

  /** An entry begun within the limit. */
  lemma Begin(cfg: Config, led: Ledger, after: Ledger, e: seq<Event>, p: seq<Cause>, m: nat)
    requires led.entries < cfg.maxEntries
    requires Safe(cfg, led.(entries := led.entries + 1), after, e, p, m)
    ensures Safe(cfg, led, after, [Discovered] + e, p, if m > 0 then m - 1 else 0)
  {
    ReachedConcat([Discovered], e);
    HandedConcat([Discovered], e);
    assert ReachedCount([Discovered]) == ReachedCount([]) && Handed([Discovered]) == Handed([]);
    var events := [Discovered] + e;
    forall i, j | 0 <= i < j < |events| && events[i] == BudgetHit ensures events[j].Finished? {
      assert events[i] == e[i - 1] && events[j] == e[j - 1];
    }
    assert BudgetHit in events <==> BudgetHit in e;
  }

  /** An entry begun above it. */
  lemma OverTheLimit(cfg: Config, led: Ledger)
    requires led.entries >= cfg.maxEntries && InBudget(cfg, led)
    ensures Safe(cfg, led, led.(entries := led.entries + 1), [Discovered], [EntryLimit], 0)
  {
    assert ReachedCount([Discovered]) == ReachedCount([]) && Handed([Discovered]) == Handed([]);
  }

  /** The libraries' own errors are no limit errors. */
  predicate Allowed(item: Item) {
    (item.Refused? || item.Unreadable?) ==> item.cause != ByteLimit && item.cause != EntryLimit
  }

  lemma CloseIsSafe(cfg: Config, s: Stream, led: Ledger, run: EntryRun)
    requires led.entries < cfg.maxEntries
    requires Safe(cfg, led.(entries := led.entries + 1), run.ledger, run.events, run.outcome.causes, 1)
    ensures
      var r := Close(s, run);
      Safe(cfg, led, r.ledger, r.events, r.outcome.causes, 0) && (ByteLimit in r.outcome.causes <==> r.stop)
  {
    hide Safe;
    var begun := led.(entries := led.entries + 1);
    var closeError := s.close(run.taken);
    var extra := if closeError.Some? then [Library(closeError.value)] else [];
    var events := run.events + [Finished(run.capped)];
    Finish(cfg, begun, run.ledger, run.events, run.outcome.causes, extra, 1, run.capped);
    assert run.outcome.causes + [] == run.outcome.causes;
    Begin(cfg, led, run.ledger, events, run.outcome.causes + extra, 1);
    assert [Discovered] + run.events + [Finished(run.capped)] == [Discovered] + events;
  }

  lemma {:induction false} ItemsAreSafe(cfg: Config, items: seq<Item>, parents: seq<string>, depth: nat, led: Ledger)
    requires 1 <= depth <= cfg.maxDepth && |parents| == depth - 1 && InBudget(cfg, led)
    requires forall i :: 0 <= i < |items| ==> Allowed(items[i])
    ensures
      var r := ScanItems(cfg, items, parents, depth, led);
      && Safe(cfg, led, r.ledger, r.events, r.outcome.causes, 0)
      && EntriesBounded(cfg, led, r.ledger, cfg.maxDepth - depth + 1)
    decreases cfg.maxDepth - depth, 2, |items|
  {
    hide ScanItem, Safe, Followed;
    if items == [] {
      NothingIsSafe(cfg, led);
    } else {
      var step := ScanItem(cfg, items[0], parents, depth, led);
      ItemIsSafe(cfg, items[0], parents, depth, led);
      assert [] + step.outcome.causes == step.outcome.causes;
      if !step.stop {
        SafeKeepsBudget(cfg, led, step.ledger, step.events, step.outcome.causes, 0);
        ItemsAreSafe(cfg, items[1..], parents, depth, step.ledger);
        FollowedIsSafe(cfg, led, step, ScanItems(cfg, items[1..], parents, depth, step.ledger));
      }
    }
  }

  lemma FollowedIsSafe(cfg: Config, led: Ledger, step: Step, rest: ScanRun)
    requires Safe(cfg, led, step.ledger, step.events, step.outcome.causes, 0) && ByteLimit !in step.outcome.causes
    requires Safe(cfg, step.ledger, rest.ledger, rest.events, rest.outcome.causes, 0)
    ensures
      var r := Followed(step, rest);
      Safe(cfg, led, r.ledger, r.events, r.outcome.causes, 0) && r.ledger == rest.ledger
  {
    hide Safe;
    var causes, more := step.outcome.causes, rest.outcome.causes;
    Compose(cfg, led, step.ledger, rest.ledger, step.events, rest.events, causes, more, 0, 0);
    assert Followed(step, rest).outcome.causes == causes + more by {
      assert [] + causes == causes;
    }
  }

  lemma NothingIsSafe(cfg: Config, led: Ledger)
    requires InBudget(cfg, led)
    ensures Safe(cfg, led, led, [], [], 0)
  {
  }

  lemma SafeKeepsBudget(cfg: Config, a: Ledger, b: Ledger, e: seq<Event>, p: seq<Cause>, m: nat)
    requires Safe(cfg, a, b, e, p, m)
    ensures InBudget(cfg, b)
  {
  }

  lemma {:induction false} ArchiveIsSafe(
    cfg: Config, data: Bytes, format: Format, parents: seq<string>, depth: nat, led: Ledger)
    requires 1 <= depth <= cfg.maxDepth && |parents| == depth - 1 && InBudget(cfg, led) && led.entries <= cfg.maxEntries
    ensures
      var r := ScanArchive(cfg, data, format, parents, depth, led);
      && Safe(cfg, led, r.ledger, r.events, r.outcome.causes, 0)
      && r.ledger.entries <= cfg.maxEntries + (cfg.maxDepth - depth) + 1
    decreases cfg.maxDepth - depth, 3, 0
  {
    hide ScanItems, ScanItem, CountProblem, Safe, DefaultGzipName;
    NothingIsSafe(cfg, led);
    match format
    case ZIP =>
      CountProblemIsOther(cfg, data, led);
      assert WithinLimits(cfg, [CountChecked(led.entries)]);
      var list := cfg.libraries.unzip(data);
      if CountProblem(cfg, data, led).Some? {
        OtherCause(cfg, led, led, [], CountProblem(cfg, data, led).value);
        Prepend(cfg, led, led, CountChecked(led.entries), [], [CountProblem(cfg, data, led).value], 0);
        assert [CountChecked(led.entries)] + [] == [CountChecked(led.entries)];
      } else if list.None? {
        OtherCause(cfg, led, led, [], BadArchive);
        Prepend(cfg, led, led, CountChecked(led.entries), [], [BadArchive], 0);
        assert [CountChecked(led.entries)] + [] == [CountChecked(led.entries)];
      } else {
        ItemsAreSafe(cfg, ZipItems(list.value), parents, depth, led);
        var run := ScanItems(cfg, ZipItems(list.value), parents, depth, led);
        Prepend(cfg, led, run.ledger, CountChecked(led.entries), run.events, run.outcome.causes, 0);
      }
    case TAR =>
      ItemsAreSafe(cfg, TarItems(cfg.libraries.untar(data)), parents, depth, led);
    case GZIP =>
      var member := cfg.libraries.gunzip(data);
      if member.None? {
        OtherCause(cfg, led, led, [], BadArchive);
      } else {
        ItemIsSafe(cfg, GzipItem(cfg, parents, member.value), parents, depth, led);
      }
  }

  lemma CountProblemIsOther(cfg: Config, data: Bytes, led: Ledger)
    ensures var c := CountProblem(cfg, data, led); c.Some? ==> c.value != ByteLimit && c.value != EntryLimit
  {
  }

  // ------------------------------------------------------------------- whole scans

  /** Over a whole scan: the bytes counted are those the readings handed on, no fewer and
      no more; the budget is never passed, the byte-limit error is reported
      exactly when a read was refused, and then the budget is spent to the last byte
      and no entry of any layer is begun any more; at most the allowed number of
      entries reach scanEntry, none too deep; every entry counted is noticed once, and
      every one above the limit is an error; the entry counter ends at most one per open
      layer above its limit; and the ZIP count check converts its remainder without
      loss. */
  lemma ScansAreSafe(cfg: Config, data: Bytes, format: Format)
    requires cfg.maxDepth >= 1 && cfg.budget.Some?
    ensures
      var r := ScanOuter(cfg, data, format);
      && r.ledger.bytesRead == Handed(r.events) <= cfg.budget.value
      && (ByteLimit in r.outcome.causes <==> BudgetHit in r.events)
      && (ByteLimit in r.outcome.causes ==> r.ledger.bytesRead == cfg.budget.value)
      && StopsAtBudget(r.events)
      && WithinLimits(cfg, r.events)
      && ReachedCount(r.events) <= cfg.maxEntries
      && r.ledger.entries == multiset(r.events)[Discovered]
      && multiset(r.outcome.causes)[EntryLimit] ==
         (if r.ledger.entries <= cfg.maxEntries then 0 else r.ledger.entries - cfg.maxEntries)
      && r.ledger.entries <= cfg.maxEntries + cfg.maxDepth
      && (cfg.maxEntries <= MAX_INT64 ==>
           forall i :: 0 <= i < |r.events| && r.events[i].CountChecked? ==>
             AsUint64(cfg.maxEntries - r.events[i].entries) == cfg.maxEntries - r.events[i].entries)
  {
    hide ScanArchive;
    ArchiveIsSafe(cfg, data, format, [], 1, Ledger(0, 0));
  }
}
