/** The nested-archive scan of `internal/scanner/archive.go`, as a function of the
    archive, the limits and the two counters it shares between all layers. */
module Archive {
  import opened Common
  import opened Content

  datatype Format = ZIP | TAR | GZIP

  const USTAR_OFFSET: nat := 257

  /** `detectArchiveFormat`, from magic numbers only. */
  function DetectFormat(data: Bytes): Option<Format> {
    if |data| >= 4
       && (data[..4] == [0x50, 0x4B, 3, 4] || data[..4] == [0x50, 0x4B, 5, 6] || data[..4] == [0x50, 0x4B, 7, 8])
    then Some(ZIP)
    else if |data| >= 2 && data[0] == 0x1F && data[1] == 0x8B then Some(GZIP)
    else if |data| >= USTAR_OFFSET + 6
      && (data[257..263] == [0x75, 0x73, 0x74, 0x61, 0x72, 0] || data[257..263] == [0x75, 0x73, 0x74, 0x61, 0x72, 0x20])
    then Some(TAR)
    else None
  }

  // -------------------------------------------------------- what containers hold

  datatype End = Eof | Fails(code: nat)

  /** The decompressed content of an entry as a reader presents it: its bytes, how it
      ends, whether the end is reported along with the last byte or on the next call,
      and the error its closing reports after a number of bytes were taken. */
  datatype Stream = Stream(data: Bytes, end: End, eager: bool, close: nat -> Option<nat>)

  datatype ZipEntry = ZipEntry(name: string, regular: bool, encrypted: bool, content: Option<Stream>)
  datatype TarHeader = TarHeader(name: string, regular: bool, content: Stream)
  datatype TarArchive = TarArchive(headers: seq<TarHeader>, fault: Option<nat>)
  datatype GzipMember = GzipMember(name: string, content: Stream)

  /** The container libraries, and the path helpers of the standard library. */
  datatype Libraries = Libraries(
    unzip: Bytes -> Option<seq<ZipEntry>>, untar: Bytes -> TarArchive, gunzip: Bytes -> Option<GzipMember>,
    clean: string -> string, base: string -> string)

  /** The options of a scan. No budget at all is an idealised scan to compare with. */
  datatype Config = Config(
    codecs: Codecs, libraries: Libraries, outerPath: string,
    maxBytes: nat, budget: Option<nat>, maxEntries: nat, maxDepth: nat)

  /** One step of an archive loop. */
  datatype Item =
    | Skipped(name: string)
    | Refused(name: string, cause: Cause)
    | Content(name: string, content: Stream)
    | Unreadable(cause: Cause)

  function ZipItem(e: ZipEntry): Item {
    if !e.regular then Skipped(e.name)
    else if e.encrypted then Refused(e.name, EncryptedEntry)
    else if e.content.None? then Refused(e.name, Library(0))
    else Content(e.name, e.content.value)
  }

  function ZipItems(entries: seq<ZipEntry>): (r: seq<Item>)
    ensures |r| == |entries|
  {
    seq(|entries|, i requires 0 <= i < |entries| => ZipItem(entries[i]))
  }

  /** TAR entries have nothing to close. */
  function Unclosed(s: Stream): (r: Stream)
    ensures r.data == s.data && r.end == s.end && r.eager == s.eager && forall n :: r.close(n).None?
  {
    s.(close := _ => None)
  }

  function TarItem(h: TarHeader): Item {
    if h.regular then Content(h.name, Unclosed(h.content)) else Skipped(h.name)
  }

  function TarItems(archive: TarArchive): (r: seq<Item>)
    ensures |r| == |archive.headers| + if archive.fault.Some? then 1 else 0
  {
    seq(|archive.headers|, i requires 0 <= i < |archive.headers| => TarItem(archive.headers[i]))
    + if archive.fault.Some? then [Unreadable(Library(archive.fault.value))] else []
  }

  // ------------------------------------------------------------------- entry names

  function ToLower(c: char): char {
    if 'A' <= c <= 'Z' then (c as int + 32) as char else c
  }

  predicate HasGzSuffix(name: string) {
    |name| >= 3 && name[|name| - 3] == '.' && ToLower(name[|name| - 2]) == 'g' && ToLower(name[|name| - 1]) == 'z'
  }

  /** `defaultGZIPEntryName`. */
  function DefaultGzipName(cfg: Config, parents: seq<string>): string {
    var name := cfg.libraries.base(if parents == [] then cfg.outerPath else parents[|parents| - 1]);
    var stem := if HasGzSuffix(name) then name[..|name| - 3] else name;
    if stem == "" || stem == "." then "content" else stem
  }

  /** `appendArchiveEntry`. */
  function Append(cfg: Config, parents: seq<string>, name: string): (path: seq<string>)
    ensures |path| == |parents| + 1 && parents <= path
  {
    var cleaned := cfg.libraries.clean(name);
    parents + [if cleaned == "." || cleaned == "" then "(unnamed)" else cleaned]
  }

  function GzipItem(cfg: Config, parents: seq<string>, member: GzipMember): Item {
    Content(if member.name == "" then DefaultGzipName(cfg, parents) else member.name, member.content)
  }

  // ------------------------------------------------------------- merging outcomes

  function Failure(cause: Cause): Outcome {
    Outcome([], [], [cause], false)
  }

  /** `mergeScanOutcomes`: everything of the source after everything of the target; the
      capped flag stays the target's. */
  function Merge(target: Outcome, source: Outcome): Outcome {
    Outcome(target.certificates + source.certificates, target.findings + source.findings, target.causes + source.causes,
            target.capped)
  }

  /** `attachArchiveEntries`. */
  function Attach(o: Outcome, path: seq<string>): Outcome {
    o.(certificates :=
         seq(|o.certificates|, i requires 0 <= i < |o.certificates| => o.certificates[i].(entries := path)),
       findings :=
         seq(|o.findings|, i requires 0 <= i < |o.findings| => o.findings[i].(entries := path)))
  }

  // ------------------------------------------------------------ counters and events

  datatype Ledger = Ledger(bytesRead: nat, entries: nat)

  /** What a scan does besides returning: progress notices for a discovered and for a
      finished entry, a call of scanEntry, a call of the ZIP count check with the
      entry counter it sees, the bytes a reading handed on to detection and parsing,
      and a read refused for want of budget. */
  datatype Event =
    | Discovered | Finished(capped: bool)
    | Reached(path: seq<string>) | CountChecked(entries: nat) | HandedOn(size: nat) | BudgetHit

  // ----------------------------------------------------------------------- reading

  datatype ReadRun = ReadRun(data: Bytes, cause: Option<Cause>, taken: nat, ledger: Ledger, events: seq<Event>)

  /** The bytes the budget still allows. */
  function Room(cfg: Config, led: Ledger): nat
    requires cfg.budget.Some?
  {
    if led.bytesRead <= cfg.budget.value then cfg.budget.value - led.bytesRead else 0
  }

  /** How many bytes a reader would like: all that is left, or up to the limit. */
  function Wanted(s: Stream, from: nat, limit: Option<nat>): nat
    requires from <= |s.data|
  {
    var rest := |s.data| - from;
    if limit.Some? && limit.value < rest then limit.value else rest
  }

  /** Whether the reader sees how the stream ends. */
  predicate SeesEnd(s: Stream, from: nat, limit: Option<nat>)
    requires from <= |s.data|
  {
    var rest := |s.data| - from;
    limit.None? || rest < limit.value || (rest == limit.value && s.eager)
  }

  /** Reading a stream from a position through the budget reader until its end, an
      error, or the limit. A refused read has taken one byte more, which is lost. */
  function ReadUpTo(cfg: Config, s: Stream, from: nat, limit: Option<nat>, led: Ledger): (r: ReadRun)
    requires from <= |s.data|
    ensures r.taken <= |s.data| && r.ledger.entries == led.entries
    ensures r.events == [HandedOn(|r.data|)] + if r.cause == Some(ByteLimit) then [BudgetHit] else []
  {
    var wanted := Wanted(s, from, limit);
    if cfg.budget.Some? && Room(cfg, led) < wanted then
      var n := Room(cfg, led);
      ReadRun(s.data[from..from + n], Some(ByteLimit), from + n + 1, led.(bytesRead := led.bytesRead + n),
              [HandedOn(n), BudgetHit])
    else
      ReadRun(s.data[from..from + wanted],
              if SeesEnd(s, from, limit) && s.end.Fails? then Some(Library(s.end.code)) else None,
              from + wanted, led.(bytesRead := led.bytesRead + wanted), [HandedOn(wanted)])
  }

  /** One byte more than the sniff limit, unless that would overflow. */
  function PrefixLimit(maxBytes: nat): Option<nat> {
    if maxBytes == 0 then None else if maxBytes < MAX_INT64 then Some(maxBytes + 1) else Some(maxBytes)
  }

  datatype PrefixRun = PrefixRun(prefix: Bytes, overflow: Bytes, complete: bool, cause: Option<Cause>, taken: nat,
                                 ledger: Ledger, events: seq<Event>)

  /** `readPrefix`. */
  function ReadPrefix(cfg: Config, s: Stream, led: Ledger): (r: PrefixRun)
    ensures r.taken <= |s.data| && r.ledger.entries == led.entries
    ensures r.complete ==> r.cause.None?
  {
    var run := ReadUpTo(cfg, s, 0, PrefixLimit(cfg.maxBytes), led);
    if cfg.maxBytes == 0 then PrefixRun(run.data, [], run.cause.None?, run.cause, run.taken, run.ledger, run.events)
    else if run.cause.Some? then PrefixRun(run.data, [], false, run.cause, run.taken, run.ledger, run.events)
    else if |run.data| <= cfg.maxBytes then PrefixRun(run.data, [], true, None, run.taken, run.ledger, run.events)
    else PrefixRun(run.data[..cfg.maxBytes], run.data[cfg.maxBytes..], false, None, run.taken, run.ledger, run.events)
  }

  /** `readFullEntry`. */
  function ReadFull(cfg: Config, s: Stream, p: PrefixRun): (r: ReadRun)
    requires p.taken <= |s.data|
    ensures r.taken <= |s.data| && r.ledger.entries == p.ledger.entries
  {
    var rest := ReadUpTo(cfg, s, p.taken, None, p.ledger);
    rest.(data := p.prefix + p.overflow + rest.data)
  }

  // ------------------------------------------------------------------ the ZIP footer

  const END_RECORD_SIZE: nat := 22
  const MAXIMUM_COMMENT: nat := 0xFFFF

  /** An end-of-central-directory record whose comment reaches exactly to the end. */
  predicate IsEndRecord(data: Bytes, at: nat) {
    at + END_RECORD_SIZE <= |data| && Little32(data, at) == 0x06054B50
    && at + END_RECORD_SIZE + Little16(data, at + 20) == |data|
  }

  /** The last such record from `at` down, no lower than `lowest`. */
  function FindEndRecord(data: Bytes, at: int, lowest: nat): (r: Option<nat>)
    ensures r.Some? ==> lowest <= r.value <= at && IsEndRecord(data, r.value)
    ensures forall k: nat :: lowest <= k <= at && (r.Some? ==> r.value < k) ==> !IsEndRecord(data, k)
    decreases at - lowest
  {
    if at < lowest then None
    else if IsEndRecord(data, at) then Some(at)
    else FindEndRecord(data, at - 1, lowest)
  }

  /** `readZIP64EntryCount`. */
  function Zip64Count(data: Bytes, end: nat): Option<nat>
    requires end <= |data|
  {
    if end < 20 || Little32(data, end - 20) != 0x07064B50 then None
    else
      var at := Little64(data, end - 12);
      if at > MAX_INT64 || at + 56 > |data| || Little32(data, at) != 0x06064B50 then None
      else Some(Little64(data, at + 32))
  }

  /** The entry count a ZIP declares in its footer. */
  function DeclaredCount(data: Bytes): Option<nat> {
    if |data| < END_RECORD_SIZE then None
    else
      var lowest: nat := if |data| <= END_RECORD_SIZE + MAXIMUM_COMMENT then 0
                         else |data| - (END_RECORD_SIZE + MAXIMUM_COMMENT);
      match FindEndRecord(data, |data| - END_RECORD_SIZE, lowest)
      case None => None
      case Some(end) =>
        var count := Little16(data, end + 10);
        if count != 0xFFFF then Some(count)
        else match Zip64Count(data, end) case Some(large) => Some(large) case None => Some(count)
  }

  /** A signed remainder converted to 64 unsigned bits. */
  function AsUint64(n: int): nat {
    n % 0x1_0000_0000_0000_0000
  }

  /** `checkZIPEntryCount`. */
  function CountProblem(cfg: Config, data: Bytes, led: Ledger): Option<Cause> {
    match DeclaredCount(data)
    case None => Some(MissingFooter)
    case Some(count) => if count > AsUint64(cfg.maxEntries - led.entries) then Some(CountLimit) else None
  }

  // ---------------------------------------------------------------------- the scan

  /** The result of scanning one entry; `taken` is how far its stream was read. */
  datatype EntryRun = EntryRun(outcome: Outcome, capped: bool, taken: nat, ledger: Ledger, events: seq<Event>)

  /** The result of one loop step, and whether the loop ends with it. */
  datatype Step = Step(outcome: Outcome, stop: bool, ledger: Ledger, events: seq<Event>)

  datatype ScanRun = ScanRun(outcome: Outcome, ledger: Ledger, events: seq<Event>)

  /** An entry whose prefix is not that of an archive. */
  function Leaf(cfg: Config, s: Stream, path: seq<string>, p: PrefixRun): (r: EntryRun)
    requires p.taken <= |s.data|
    ensures r.ledger.entries == p.ledger.entries
  {
    if p.cause.Some? then
      var partial := ScanContentData(cfg.codecs, cfg.outerPath, p.prefix, false).0;
      EntryRun(Merge(Attach(partial, path), Failure(p.cause.value)), false, p.taken, p.ledger, p.events)
    else
      var (result, needsFullRead) := ScanContentData(cfg.codecs, cfg.outerPath, p.prefix, p.complete);
      if !needsFullRead then EntryRun(Attach(result, path), !p.complete, p.taken, p.ledger, p.events)
      else
        var full := ReadFull(cfg, s, p);
        if full.cause.Some? then
          EntryRun(Merge(Attach(result, path), Failure(full.cause.value)), false, full.taken, full.ledger,
                   p.events + full.events)
        else
          var whole := ScanContentData(cfg.codecs, cfg.outerPath, full.data, true).0;
          EntryRun(Attach(whole, path), false, full.taken, full.ledger, p.events + full.events)
  }

  /** `scanEntry`. */
  function ScanEntry(cfg: Config, s: Stream, path: seq<string>, depth: nat, led: Ledger): EntryRun
    requires 1 <= depth <= cfg.maxDepth
    decreases cfg.maxDepth - depth, 0, 0
  {
    var p := ReadPrefix(cfg, s, led);
    var format := DetectFormat(p.prefix);
    if p.cause.Some? || format.None? then Preceded([Reached(path)], Leaf(cfg, s, path, p))
    else if depth >= cfg.maxDepth then
      EntryRun(Failure(DepthLimit), false, p.taken, p.ledger, [Reached(path)] + p.events)
    else if p.complete then
      var inner := ScanArchive(cfg, p.prefix, format.value, path, depth + 1, p.ledger);
      EntryRun(inner.outcome, false, p.taken, inner.ledger, [Reached(path)] + p.events + inner.events)
    else
      var full := ReadFull(cfg, s, p);
      var before := [Reached(path)] + p.events + full.events;
      if full.cause.Some? then EntryRun(Failure(full.cause.value), false, full.taken, full.ledger, before)
      else
        var inner := ScanArchive(cfg, full.data, format.value, path, depth + 1, full.ledger);
        EntryRun(inner.outcome, false, full.taken, inner.ledger, before + inner.events)
  }

  function Preceded(events: seq<Event>, run: EntryRun): EntryRun {
    run.(events := events + run.events)
  }

  /** One step of an archive loop: beginEntry, the entry, its closing, finishEntry. */
  function ScanItem(cfg: Config, item: Item, parents: seq<string>, depth: nat, led: Ledger): Step
    requires 1 <= depth <= cfg.maxDepth
    decreases cfg.maxDepth - depth, 1, 0
  {
    if item.Unreadable? then Step(Failure(item.cause), true, led, [])
    else
      var begun := led.(entries := led.entries + 1);
      if begun.entries > cfg.maxEntries then Step(Failure(EntryLimit), true, begun, [Discovered])
      else
        match item
        case Skipped(_) => Step(NOTHING, false, begun, [Discovered])
        case Refused(_, cause) => Step(Failure(cause), false, begun, [Discovered, Finished(false)])
        case Content(name, s) =>
          var run := ScanEntry(cfg, s, Append(cfg, parents, name), depth, begun);
          Close(s, run)
  }

  /** The end of a step: the error of closing the entry, and finishEntry. */
  function Close(s: Stream, run: EntryRun): Step {
    var closeError := s.close(run.taken);
    var outcome := if closeError.Some? then Merge(run.outcome, Failure(Library(closeError.value))) else run.outcome;
    Step(outcome, ByteLimit in outcome.causes, run.ledger, [Discovered] + run.events + [Finished(run.capped)])
  }

  /** The loops of `scanZIP` and `scanTAR`. */
  function ScanItems(cfg: Config, items: seq<Item>, parents: seq<string>, depth: nat, led: Ledger): ScanRun
    requires 1 <= depth <= cfg.maxDepth
    decreases cfg.maxDepth - depth, 2, |items|
  {
    if items == [] then ScanRun(NOTHING, led, [])
    else
      var step := ScanItem(cfg, items[0], parents, depth, led);
      if step.stop then ScanRun(Merge(NOTHING, step.outcome), step.ledger, step.events)
      else Followed(step, ScanItems(cfg, items[1..], parents, depth, step.ledger))
  }

  function Followed(step: Step, rest: ScanRun): ScanRun {
    ScanRun(Merge(Merge(NOTHING, step.outcome), rest.outcome), rest.ledger, step.events + rest.events)
  }

  /** `scanArchiveBytes`, with `scanGZIP` in it. */
  function ScanArchive(cfg: Config, data: Bytes, format: Format, parents: seq<string>, depth: nat, led: Ledger): ScanRun
    requires 1 <= depth <= cfg.maxDepth
    decreases cfg.maxDepth - depth, 3, 0
  {
    match format
    case ZIP =>
      (match CountProblem(cfg, data, led)
       case Some(cause) => ScanRun(Failure(cause), led, [CountChecked(led.entries)])
       case None =>
         match cfg.libraries.unzip(data)
         case None => ScanRun(Failure(BadArchive), led, [CountChecked(led.entries)])
         case Some(entries) =>
           var run := ScanItems(cfg, ZipItems(entries), parents, depth, led);
           run.(events := [CountChecked(led.entries)] + run.events))
    case TAR => ScanItems(cfg, TarItems(cfg.libraries.untar(data)), parents, depth, led)
    case GZIP =>
      match cfg.libraries.gunzip(data)
      case None => ScanRun(Failure(BadArchive), led, [])
      case Some(member) =>
        var step := ScanItem(cfg, GzipItem(cfg, parents, member), parents, depth, led);
        ScanRun(step.outcome, step.ledger, step.events)
  }

  /** `scanArchiveFile` on a readable file: the outer archive is at depth one. */
  function ScanOuter(cfg: Config, data: Bytes, format: Format): ScanRun
    requires cfg.maxDepth >= 1
  {
    ScanArchive(cfg, data, format, [], 1, Ledger(0, 0))
  }
}
