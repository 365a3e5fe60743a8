/** The exact byte threshold. A scan under a budget is compared with the same scan
    under none: if the free scan reads no more than the budget, the two are the same
    to the last event; otherwise the limited one stops with the byte-limit error and
    its budget spent exactly. */
module ArchiveBudget {
  import opened Common
  import opened Content
  import opened Archive
  import opened ArchiveSafety

  function Free(cfg: Config): Config {
    cfg.(budget := None)
  }

  /** Outcome, ledger and events of a limited run against those of the free run. */
  predicate Matches(
    cfg: Config, o: Outcome, led: Ledger, e: seq<Event>, freeO: Outcome, freeLed: Ledger, freeE: seq<Event>)
    requires cfg.budget.Some?
  {
    if freeLed.bytesRead <= cfg.budget.value then o == freeO && led == freeLed && e == freeE
    else ByteLimit in o.causes && led.bytesRead == cfg.budget.value
  }

  predicate EntryMatches(cfg: Config, r: EntryRun, free: EntryRun)
    requires cfg.budget.Some?
  {
    && Matches(cfg, r.outcome, r.ledger, r.events, free.outcome, free.ledger, free.events)
    && (free.ledger.bytesRead <= cfg.budget.value ==> r == free)
  }

  predicate StepMatches(cfg: Config, r: Step, free: Step)
    requires cfg.budget.Some?
  {
    && Matches(cfg, r.outcome, r.ledger, r.events, free.outcome, free.ledger, free.events)
    && (if free.ledger.bytesRead <= cfg.budget.value then r == free else r.stop)
  }

  predicate ScanMatches(cfg: Config, r: ScanRun, free: ScanRun)
    requires cfg.budget.Some?
  {
    Matches(cfg, r.outcome, r.ledger, r.events, free.outcome, free.ledger, free.events)
  }

  // ------------------------------------------------------------------------ reading

  lemma ReadMatches(cfg: Config, s: Stream, from: nat, limit: Option<nat>, led: Ledger)
    requires cfg.budget.Some? && from <= |s.data| && InBudget(cfg, led)
    ensures
      var r, free := ReadUpTo(cfg, s, from, limit, led), ReadUpTo(Free(cfg), s, from, limit, led);
      && led.bytesRead <= free.ledger.bytesRead
      && if free.ledger.bytesRead <= cfg.budget.value then r == free
         else r.cause == Some(ByteLimit) && r.ledger.bytesRead == cfg.budget.value
  {
  }

  lemma PrefixMatches(cfg: Config, s: Stream, led: Ledger)
    requires cfg.budget.Some? && InBudget(cfg, led)
    ensures
      var p, free := ReadPrefix(cfg, s, led), ReadPrefix(Free(cfg), s, led);
      && led.bytesRead <= free.ledger.bytesRead
      && if free.ledger.bytesRead <= cfg.budget.value then p == free
         else p.cause == Some(ByteLimit) && p.ledger.bytesRead == cfg.budget.value
  {
  }

  lemma LeafMatches(cfg: Config, s: Stream, path: seq<string>, p: PrefixRun)
    requires cfg.budget.Some? && p.taken <= |s.data| && InBudget(cfg, p.ledger)
    ensures EntryMatches(cfg, Leaf(cfg, s, path, p), Leaf(Free(cfg), s, path, p))
    ensures p.ledger.bytesRead <= Leaf(Free(cfg), s, path, p).ledger.bytesRead
  {
    hide ReadUpTo, ScanContentData;
    ReadMatches(cfg, s, p.taken, None, p.ledger);
  }

  /** A prefix refused for want of budget makes the whole entry fail that way. */
  lemma RefusedPrefix(cfg: Config, s: Stream, path: seq<string>, depth: nat, led: Ledger)
    requires 1 <= depth <= cfg.maxDepth && ReadPrefix(cfg, s, led).cause == Some(ByteLimit)
    ensures
      var r := ScanEntry(cfg, s, path, depth, led);
      ByteLimit in r.outcome.causes && r.ledger == ReadPrefix(cfg, s, led).ledger
  {
    hide ReadUpTo, ReadPrefix, ScanContentData, DetectFormat;
  }

  // ------------------------------------------------------------ the mutual recursion

  lemma {:induction false} FreeEntryGrows(cfg: Config, s: Stream, path: seq<string>, depth: nat, led: Ledger)
    requires cfg.budget.None? && 1 <= depth <= cfg.maxDepth && |path| == depth && led.entries <= cfg.maxEntries
    ensures ReadPrefix(cfg, s, led).ledger.bytesRead <= ScanEntry(cfg, s, path, depth, led).ledger.bytesRead
  {
    hide Leaf, ReadPrefix, ReadUpTo, DetectFormat, ScanArchive, Safe;
    var p := ReadPrefix(cfg, s, led);
    var format := DetectFormat(p.prefix);
    if p.cause.Some? || format.None? {
      FreeLeafGrows(cfg, s, path, p);
    } else if depth < cfg.maxDepth {
      if p.complete {
        FreeArchiveGrows(cfg, p.prefix, format.value, path, depth + 1, p.ledger);
      } else {
        FreeReadGrows(cfg, s, p.taken, p.ledger);
        var full := ReadFull(cfg, s, p);
        if full.cause.None? {
          FreeArchiveGrows(cfg, full.data, format.value, path, depth + 1, full.ledger);
        }
      }
    }
  }

  lemma FreeReadGrows(cfg: Config, s: Stream, from: nat, led: Ledger)
    requires cfg.budget.None? && from <= |s.data|
    ensures led.bytesRead <= ReadUpTo(cfg, s, from, None, led).ledger.bytesRead
  {
  }

  lemma FreeLeafGrows(cfg: Config, s: Stream, path: seq<string>, p: PrefixRun)
    requires cfg.budget.None? && p.taken <= |s.data|
    ensures p.ledger.bytesRead <= Leaf(cfg, s, path, p).ledger.bytesRead
  {
  }

  lemma FreeArchiveGrows(cfg: Config, data: Bytes, format: Format, path: seq<string>, depth: nat, led: Ledger)
    requires cfg.budget.None? && 1 <= depth <= cfg.maxDepth && |path| == depth - 1 && led.entries <= cfg.maxEntries
    ensures led.bytesRead <= ScanArchive(cfg, data, format, path, depth, led).ledger.bytesRead
  {
    hide ScanArchive;
    ArchiveIsSafe(cfg, data, format, path, depth, led);
  }

  lemma {:induction false} EntryThreshold(cfg: Config, s: Stream, path: seq<string>, depth: nat, led: Ledger)
    requires cfg.budget.Some? && 1 <= depth <= cfg.maxDepth && |path| == depth
    requires InBudget(cfg, led) && led.entries <= cfg.maxEntries
    ensures EntryMatches(cfg, ScanEntry(cfg, s, path, depth, led), ScanEntry(Free(cfg), s, path, depth, led))
    decreases cfg.maxDepth - depth, 0, 0
  {
    hide Leaf, ReadPrefix, ReadUpTo, DetectFormat, ScanArchive;
    var p, free := ReadPrefix(cfg, s, led), ReadPrefix(Free(cfg), s, led);
    PrefixMatches(cfg, s, led);
    FreeEntryGrows(Free(cfg), s, path, depth, led);
    if free.ledger.bytesRead > cfg.budget.value {
      RefusedPrefix(cfg, s, path, depth, led);
    } else {
      var format := DetectFormat(p.prefix);
      if p.cause.Some? || format.None? {
        LeafMatches(cfg, s, path, p);
      } else if depth < cfg.maxDepth && p.complete {
        ArchiveThreshold(cfg, p.prefix, format.value, path, depth + 1, p.ledger);
      } else if depth < cfg.maxDepth {
        FullThreshold(cfg, s, path, depth, p, format.value);
      }
    }
  }

  /** The branch that reads an archive completely before looking into it. */
  lemma {:induction false} FullThreshold(
    cfg: Config, s: Stream, path: seq<string>, depth: nat, p: PrefixRun, format: Format)
    requires cfg.budget.Some? && 1 <= depth < cfg.maxDepth && |path| == depth
    requires p.taken <= |s.data| && InBudget(cfg, p.ledger) && p.ledger.entries <= cfg.maxEntries
    ensures
      var full, freeFull := ReadFull(cfg, s, p), ReadFull(Free(cfg), s, p);
      if freeFull.ledger.bytesRead > cfg.budget.value then
        && full.cause == Some(ByteLimit) && full.ledger.bytesRead == cfg.budget.value
        && (freeFull.cause.None? ==>
              var inner := ScanArchive(Free(cfg), freeFull.data, format, path, depth + 1, freeFull.ledger);
              freeFull.ledger.bytesRead <= inner.ledger.bytesRead)
      else
        full == freeFull && (full.cause.None? ==>
          ScanMatches(cfg, ScanArchive(cfg, full.data, format, path, depth + 1, full.ledger),
                      ScanArchive(Free(cfg), full.data, format, path, depth + 1, full.ledger)))
    decreases cfg.maxDepth - depth - 1, 4, 0
  {
    hide ScanArchive, ReadUpTo;
    ReadMatches(cfg, s, p.taken, None, p.ledger);
    var full, freeFull := ReadFull(cfg, s, p), ReadFull(Free(cfg), s, p);
    if freeFull.ledger.bytesRead > cfg.budget.value {
      FreeArchiveGrows(Free(cfg), freeFull.data, format, path, depth + 1, freeFull.ledger);
    } else if full.cause.None? {
      ArchiveThreshold(cfg, full.data, format, path, depth + 1, full.ledger);
    }
  }

  lemma {:induction false} ItemThreshold(cfg: Config, item: Item, parents: seq<string>, depth: nat, led: Ledger)
    requires cfg.budget.Some? && 1 <= depth <= cfg.maxDepth && |parents| == depth - 1
    requires InBudget(cfg, led) && Allowed(item)
    ensures StepMatches(cfg, ScanItem(cfg, item, parents, depth, led), ScanItem(Free(cfg), item, parents, depth, led))
    decreases cfg.maxDepth - depth, 1, 0
  {
    hide ScanEntry;
    if !item.Unreadable? && item.Content? && led.entries < cfg.maxEntries {
      EntryThreshold(cfg, item.content, Append(cfg, parents, item.name), depth, led.(entries := led.entries + 1));
    }
  }

  lemma {:induction false} ItemsThreshold(cfg: Config, items: seq<Item>, parents: seq<string>, depth: nat, led: Ledger)
    requires cfg.budget.Some? && 1 <= depth <= cfg.maxDepth && |parents| == depth - 1 && InBudget(cfg, led)
    requires forall i :: 0 <= i < |items| ==> Allowed(items[i])
    ensures ScanMatches(cfg, ScanItems(cfg, items, parents, depth, led),
                        ScanItems(Free(cfg), items, parents, depth, led))
    decreases cfg.maxDepth - depth, 2, |items|
  {
    hide ScanItem, Safe;
    if items != [] {
      ItemThreshold(cfg, items[0], parents, depth, led);
      ItemIsSafe(cfg, items[0], parents, depth, led);
      var step := ScanItem(cfg, items[0], parents, depth, led);
      var free := ScanItem(Free(cfg), items[0], parents, depth, led);
      SafeKeepsBudget(cfg, led, step.ledger, step.events, step.outcome.causes, 0);
      if !free.stop {
        if free.ledger.bytesRead <= cfg.budget.value {
          ItemsThreshold(cfg, items[1..], parents, depth, step.ledger);
        }
        FreeItemsGrow(Free(cfg), items[1..], parents, depth, free.ledger);
      }
    }
  }

  lemma FreeItemsGrow(cfg: Config, items: seq<Item>, parents: seq<string>, depth: nat, led: Ledger)
    requires cfg.budget.None? && 1 <= depth <= cfg.maxDepth && |parents| == depth - 1
    requires forall i :: 0 <= i < |items| ==> Allowed(items[i])
    ensures led.bytesRead <= ScanItems(cfg, items, parents, depth, led).ledger.bytesRead
  {
    hide ScanItems;
    ItemsAreSafe(cfg, items, parents, depth, led);
  }

  lemma {:induction false} ArchiveThreshold(
    cfg: Config, data: Bytes, format: Format, parents: seq<string>, depth: nat, led: Ledger)
    requires cfg.budget.Some? && 1 <= depth <= cfg.maxDepth && |parents| == depth - 1
    requires InBudget(cfg, led) && led.entries <= cfg.maxEntries
    ensures ScanMatches(cfg, ScanArchive(cfg, data, format, parents, depth, led),
                        ScanArchive(Free(cfg), data, format, parents, depth, led))
    decreases cfg.maxDepth - depth, 3, 0
  {
    hide ScanItems, ScanItem, DefaultGzipName, DeclaredCount;
    match format
    case ZIP =>
      assert CountProblem(cfg, data, led) == CountProblem(Free(cfg), data, led);
      var list := cfg.libraries.unzip(data);
      if list.Some? {
        ItemsThreshold(cfg, ZipItems(list.value), parents, depth, led);
      }
    case TAR =>
      ItemsThreshold(cfg, TarItems(cfg.libraries.untar(data)), parents, depth, led);
    case GZIP =>
      var member := cfg.libraries.gunzip(data);
      if member.Some? {
        GzipNameIsFree(cfg, parents, member.value);
        ItemThreshold(cfg, GzipItem(cfg, parents, member.value), parents, depth, led);
      }
  }

  lemma GzipNameIsFree(cfg: Config, parents: seq<string>, member: GzipMember)
    ensures GzipItem(Free(cfg), parents, member) == GzipItem(cfg, parents, member)
  {
  }

  /** The exact threshold of a whole scan. */
  lemma ByteThreshold(cfg: Config, data: Bytes, format: Format)
    requires cfg.maxDepth >= 1 && cfg.budget.Some?
    ensures
      var needed := ScanOuter(Free(cfg), data, format).ledger.bytesRead;
      var r := ScanOuter(cfg, data, format);
      && (cfg.budget.value >= needed ==> r == ScanOuter(Free(cfg), data, format) && ByteLimit !in r.outcome.causes)
      && (cfg.budget.value < needed ==> ByteLimit in r.outcome.causes && r.ledger.bytesRead == cfg.budget.value)
  {
    hide ScanArchive;
    ArchiveThreshold(cfg, data, format, [], 1, Ledger(0, 0));
    ArchiveIsSafe(Free(cfg), data, format, [], 1, Ledger(0, 0));
  }
}
