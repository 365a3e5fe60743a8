/** The scanner object of `internal/scanner/archive.go`: its budget reader, its two
    shared counters and its mutually recursive methods, tied to module Archive. */
module ArchiveScanning {
  import opened Common
  import opened Content
  import opened Archive

  /** What a read call reports besides its bytes. */
  datatype Status = More | Ended | Failed(cause: Cause)

  function EndStatus(end: End): Status {
    match end
    case Eof => Ended
    case Fails(code) => Failed(Library(code))
  }

  /** A reader over an entry: how many bytes a call returns, of those it may, is up to
      the decompressor. */
  class EntryReader {
    const stream: Stream
    const chunk: (nat, nat) -> nat
    var pos: nat

    constructor (stream: Stream, chunk: (nat, nat) -> nat)
      ensures this.stream == stream && this.chunk == chunk && pos == 0
    {
      this.stream, this.chunk, this.pos := stream, chunk, 0;
    }

    method Read(cap: nat) returns (data: Bytes, status: Status)
      requires pos <= |stream.data| && cap >= 1
      modifies this
      ensures old(pos) <= pos <= |stream.data| && pos <= old(pos) + cap
      ensures data == stream.data[old(pos)..pos]
      ensures data == [] <==> old(pos) == |stream.data|
      ensures status == if pos == |stream.data| && (data == [] || stream.eager) then EndStatus(stream.end) else More
    {
      var rest := |stream.data| - pos;
      if rest == 0 {
        return [], EndStatus(stream.end);
      }
      var most := if cap < rest then cap else rest;
      var wish := chunk(pos, cap);
      var count := if wish < 1 then 1 else if wish > most then most else wish;
      data := stream.data[pos..pos + count];
      pos := pos + count;
      status := if pos == |stream.data| && stream.eager then EndStatus(stream.end) else More;
    }
  }

  /** What a loop of budgeted reads has achieved: `data` from position `from` on, the
      reader now at `pos`, `used` bytes counted, and `cause` why it stopped. */
  ghost predicate SoFar(
    cfg: Config, s: Stream, from: nat, limit: Option<nat>, led: Ledger,
    data: Bytes, cause: Option<Cause>, pos: nat, used: nat, done: bool)
    requires cfg.budget.Some?
  {
    && from + |data| <= |s.data| && data == s.data[from..from + |data|]
    && used == led.bytesRead + |data| && (data != [] ==> used <= cfg.budget.value)
    && (limit.Some? ==> |data| <= limit.value)
    && match cause
       case None =>
         && pos == from + |data|
         && (!done && data != [] && pos == |s.data| ==> !s.eager)
         && (done ==> s.end.Eof? && pos == |s.data| && SeesEnd(s, from, limit))
       case Some(ByteLimit) =>
         |data| == Room(cfg, led) && |data| < Wanted(s, from, limit) && pos == from + |data| + 1
       case Some(why) =>
         s.end.Fails? && why == Library(s.end.code) && pos == from + |data| == |s.data| && SeesEnd(s, from, limit)
  }

  lemma NothingYet(cfg: Config, s: Stream, from: nat, limit: Option<nat>, led: Ledger)
    requires cfg.budget.Some? && from <= |s.data|
    ensures SoFar(cfg, s, from, limit, led, [], None, from, led.bytesRead, false)
  {
  }

  /** What one budgeted read may do (as ReadBudgeted promises) keeps the loop's account. */
  lemma OneMoreRead(
    cfg: Config, s: Stream, from: nat, limit: Option<nat>, led: Ledger, before: Bytes, at: nat, used: nat,
    data: Bytes, cause: Option<Cause>, pos: nat, nowUsed: nat, done: bool, cap: nat)
    requires cfg.budget.Some? && cap >= 1 && (limit.Some? ==> |before| + cap <= limit.value)
    requires SoFar(cfg, s, from, limit, led, before, None, at, used, false)
    requires
      if used >= cfg.budget.value && at < |s.data| then
        data == before && cause == Some(ByteLimit) && done && pos == at + 1 && nowUsed == used
      else
        && at <= pos <= |s.data| && pos <= at + cap && data == before + s.data[at..pos]
        && (at == pos <==> at == |s.data|)
        && nowUsed == used + (pos - at) && (at < pos ==> nowUsed <= cfg.budget.value)
        && var ended := pos == |s.data| && (at == pos || s.eager);
           && done == ended
           && cause == if ended && s.end.Fails? then Some(Library(s.end.code)) else None
    ensures SoFar(cfg, s, from, limit, led, data, cause, pos, nowUsed, done)
  {
  }

  lemma ReadingDone(
    cfg: Config, s: Stream, from: nat, limit: Option<nat>, led: Ledger,
    data: Bytes, cause: Option<Cause>, pos: nat, used: nat, done: bool)
    requires cfg.budget.Some? && SoFar(cfg, s, from, limit, led, data, cause, pos, used, done)
    requires (limit.Some? ==> limit.value >= 1) && (cause.Some? ==> done)
    requires done || (limit.Some? && |data| >= limit.value)
    ensures ReadUpTo(cfg, s, from, limit, led) ==
            ReadRun(data, cause, pos, Ledger(used, led.entries),
                    [HandedOn(|data|)] + if cause == Some(ByteLimit) then [BudgetHit] else [])
  {
  }

  class ArchiveScanner {
    const cfg: Config
    const budget: nat
    const chunk: (nat, nat) -> nat
    const bufferSize: nat -> nat
    var bytesRead: nat
    var entries: nat
    ghost var trace: seq<Event>

    constructor (cfg: Config, budget: nat, chunk: (nat, nat) -> nat, bufferSize: nat -> nat)
      ensures this.cfg == cfg && this.budget == budget && this.chunk == chunk && this.bufferSize == bufferSize
      ensures bytesRead == 0 && entries == 0 && trace == []
    {
      this.cfg, this.budget, this.chunk, this.bufferSize := cfg, budget, chunk, bufferSize;
      bytesRead, entries, trace := 0, 0, [];
    }

    ghost function Led(): Ledger
      reads this
    {
      Ledger(bytesRead, entries)
    }

    /** `archiveBudgetReader.Read`: at most what the budget leaves; with nothing left, one
        byte is probed and its presence is the byte-limit error. */
    method ReadBudgeted(reader: EntryReader, cap: nat) returns (data: Bytes, status: Status)
      requires reader.pos <= |reader.stream.data| && cap >= 1
      modifies this`bytesRead, reader
      ensures old(reader.pos) <= reader.pos <= |reader.stream.data|
      ensures
        if old(bytesRead) >= budget && old(reader.pos) < |reader.stream.data| then
          data == [] && status == Failed(ByteLimit) && reader.pos == old(reader.pos) + 1 && bytesRead == old(bytesRead)
        else
          && reader.pos <= old(reader.pos) + cap && data == reader.stream.data[old(reader.pos)..reader.pos]
          && (data == [] <==> old(reader.pos) == |reader.stream.data|)
          && bytesRead == old(bytesRead) + |data| && (data != [] ==> bytesRead <= budget)
          && status == if reader.pos == |reader.stream.data| && (data == [] || reader.stream.eager)
                       then EndStatus(reader.stream.end) else More
    {
      if bytesRead >= budget {
        var probe, probed := reader.Read(1);
        if probe != [] {
          return [], Failed(ByteLimit);
        }
        return [], probed;
      }
      var remaining := budget - bytesRead;
      data, status := reader.Read(if cap > remaining then remaining else cap);
      bytesRead := bytesRead + |data|;
    }

    /** `io.ReadAll` through the budget reader and, where there is a limit, through
        `io.LimitReader`. However the reader and the buffer divide the work, the result is
        ReadUpTo. */
    method ReadAll(reader: EntryReader, limit: Option<nat>) returns (data: Bytes, cause: Option<Cause>)
      requires cfg.budget == Some(budget)
      requires reader.pos <= |reader.stream.data| && (limit.Some? ==> limit.value >= 1)
      modifies this`bytesRead, this`trace, reader
      ensures
        var r := ReadUpTo(cfg, reader.stream, old(reader.pos), limit, old(Led()));
        && data == r.data && cause == r.cause && reader.pos == r.taken
        && Led() == r.ledger && trace == old(trace) + r.events
    {
      hide SoFar, ReadUpTo;
      ghost var from, led := reader.pos, Led();
      data, cause := [], None;
      var done := false;
      NothingYet(cfg, reader.stream, from, limit, led);
      while !done && (limit.Some? ==> |data| < limit.value)
        invariant from <= reader.pos <= |reader.stream.data|
        invariant SoFar(cfg, reader.stream, from, limit, led, data, cause, reader.pos, bytesRead, done)
        invariant done || cause.None?
        invariant trace == old(trace)
        decreases |reader.stream.data| - reader.pos, !done
      {
        var size := bufferSize(|data|);
        var cap := if size < 1 then 1 else size;
        if limit.Some? && cap > limit.value - |data| {
          cap := limit.value - |data|;
        }
        ghost var before, at, used := data, reader.pos, bytesRead;
        var chunkRead, status := ReadBudgeted(reader, cap);
        data := data + chunkRead;
        if status.Ended? {
          done := true;
        } else if status.Failed? {
          done, cause := true, Some(status.cause);
        }
        OneMoreRead(cfg, reader.stream, from, limit, led, before, at, used, data, cause, reader.pos, bytesRead, done,
                    cap);
      }
      ReadingDone(cfg, reader.stream, from, limit, led, data, cause, reader.pos, bytesRead, done);
      trace := trace + ([HandedOn(|data|)] + if cause == Some(ByteLimit) then [BudgetHit] else []);
    }

    /** `readPrefix`. */
    method Prefix(reader: EntryReader) returns (prefix: Bytes, overflow: Bytes, complete: bool, cause: Option<Cause>)
      requires cfg.budget == Some(budget) && reader.pos == 0
      modifies this`bytesRead, this`trace, reader
      ensures
        var r := ReadPrefix(cfg, reader.stream, old(Led()));
        && prefix == r.prefix && overflow == r.overflow && complete == r.complete && cause == r.cause
        && reader.pos == r.taken && Led() == r.ledger && trace == old(trace) + r.events
    {
      var data;
      if cfg.maxBytes == 0 {
        data, cause := ReadAll(reader, None);
        return data, [], cause.None?, cause;
      }
      var prefixLimit := cfg.maxBytes;
      if prefixLimit < MAX_INT64 {
        prefixLimit := prefixLimit + 1;
      }
      data, cause := ReadAll(reader, Some(prefixLimit));
      if cause.Some? {
        return data, [], false, cause;
      }
      if |data| <= cfg.maxBytes {
        return data, [], true, None;
      }
      return data[..cfg.maxBytes], data[cfg.maxBytes..], false, None;
    }

    /** `readFullEntry`. */
    method Full(reader: EntryReader, prefix: Bytes, overflow: Bytes, ghost p: PrefixRun)
      returns (data: Bytes, cause: Option<Cause>)
      requires cfg.budget == Some(budget) && reader.pos == p.taken <= |reader.stream.data|
      requires p.ledger == Led() && p.prefix == prefix && p.overflow == overflow
      modifies this`bytesRead, this`trace, reader
      ensures
        var r := ReadFull(cfg, reader.stream, p);
        && data == r.data && cause == r.cause && reader.pos == r.taken
        && Led() == r.ledger && trace == old(trace) + r.events
    {
      var remainder, failure := ReadAll(reader, None);
      return prefix + overflow + remainder, failure;
    }

    /** `checkZIPEntryCount`, searching the footer from the end. */
    method CheckZipEntryCount(data: Bytes) returns (problem: Option<Cause>)
      modifies this`trace
      ensures problem == CountProblem(cfg, data, Led()) && trace == old(trace) + [CountChecked(entries)]
    {
      trace := trace + [CountChecked(entries)];
      var tailSize := if |data| < END_RECORD_SIZE + MAXIMUM_COMMENT then |data| else END_RECORD_SIZE + MAXIMUM_COMMENT;
      if tailSize < END_RECORD_SIZE {
        return Some(MissingFooter);
      }
      var lowest := |data| - tailSize;
      var offset := |data| - END_RECORD_SIZE;
      while offset >= lowest
        invariant lowest - 1 <= offset <= |data| - END_RECORD_SIZE
        invariant FindEndRecord(data, |data| - END_RECORD_SIZE, lowest) == FindEndRecord(data, offset, lowest)
        decreases offset
      {
        if IsEndRecord(data, offset) {
          var count := Little16(data, offset + 10);
          if count == 0xFFFF {
            var zip64 := Zip64Count(data, offset);
            if zip64.Some? {
              count := zip64.value;
            }
          }
          return if count > AsUint64(cfg.maxEntries - entries) then Some(CountLimit) else None;
        }
        offset := offset - 1;
      }
      return Some(MissingFooter);
    }

    /** `beginEntry`. */
    method BeginEntry() returns (cause: Option<Cause>)
      modifies this`entries, this`trace
      ensures entries == old(entries) + 1 && trace == old(trace) + [Discovered]
      ensures cause == if entries > cfg.maxEntries then Some(EntryLimit) else None
    {
      entries := entries + 1;
      trace := trace + [Discovered];
      return if entries > cfg.maxEntries then Some(EntryLimit) else None;
    }

    /** `finishEntry`. */
    method FinishEntry(capped: bool)
      modifies this`trace
      ensures trace == old(trace) + [Finished(capped)]
    {
      trace := trace + [Finished(capped)];
    }

    /** The scanner shows what a run says was read, begun and noticed. */
    ghost predicate Shows(ledger: Ledger, before: seq<Event>, events: seq<Event>)
      reads this
    {
      Led() == ledger && trace == before + events
    }

    /** The part of `scanEntry` for content that is no archive. */
    method ScanPlain(reader: EntryReader, path: seq<string>, prefix: Bytes, overflow: Bytes, complete: bool,
                     cause: Option<Cause>, ghost p: PrefixRun)
      returns (outcome: Outcome, capped: bool, ghost more: seq<Event>)
      requires cfg.budget == Some(budget)
      requires p == PrefixRun(prefix, overflow, complete, cause, reader.pos, Led(), p.events)
      requires reader.pos <= |reader.stream.data|
      modifies this`bytesRead, this`trace, reader
      ensures
        var r := Leaf(cfg, reader.stream, path, p);
        && outcome == r.outcome && capped == r.capped && reader.pos == r.taken
        && r.events == p.events + more && Shows(r.ledger, old(trace), more)
    {
      hide ScanContentData, ReadUpTo;
      more := [];
      if cause.Some? {
        var partial := ScanContentData(cfg.codecs, cfg.outerPath, prefix, false).0;
        return Merge(Attach(partial, path), Failure(cause.value)), false, [];
      }
      var (result, needsFullRead) := ScanContentData(cfg.codecs, cfg.outerPath, prefix, complete);
      if needsFullRead {
        var data, failure := Full(reader, prefix, overflow, p);
        more := ReadFull(cfg, reader.stream, p).events;
        if failure.Some? {
          return Merge(Attach(result, path), Failure(failure.value)), false, more;
        }
        result := ScanContentData(cfg.codecs, cfg.outerPath, data, true).0;
      }
      return Attach(result, path), !complete && !needsFullRead, more;
    }

    /** `scanEntry`. */
    method ScanEntry(stream: Stream, path: seq<string>, depth: nat) returns (outcome: Outcome, capped: bool, taken: nat)
      requires cfg.budget == Some(budget) && 1 <= depth <= cfg.maxDepth
      modifies this`bytesRead, this`entries, this`trace
      ensures
        var r := Archive.ScanEntry(cfg, stream, path, depth, old(Led()));
        && outcome == r.outcome && capped == r.capped && taken == r.taken && Shows(r.ledger, old(trace), r.events)
      decreases cfg.maxDepth - depth, 0
    {
      hide Leaf, ReadPrefix, ReadFull, DetectFormat, ScanArchive;
      trace := trace + [Reached(path)];
      var reader := new EntryReader(stream, chunk);
      ghost var p := ReadPrefix(cfg, stream, Led());
      var prefix, overflow, complete, cause := Prefix(reader);
      var format := DetectFormat(prefix);
      if cause.Some? || format.None? {
        ghost var more;
        outcome, capped, more := ScanPlain(reader, path, prefix, overflow, complete, cause, p);
        return outcome, capped, reader.pos;
      }
      if depth >= cfg.maxDepth {
        return Failure(DepthLimit), false, reader.pos;
      }
      var data := prefix;
      if !complete {
        var failure;
        data, failure := Full(reader, prefix, overflow, p);
        if failure.Some? {
          return Failure(failure.value), false, reader.pos;
        }
      }
      outcome := ScanArchiveBytes(data, format.value, path, depth + 1);
      return outcome, false, reader.pos;
    }

    /** One entry of the `scanZIP` loop. */
    method ScanZipEntry(entry: ZipEntry, parents: seq<string>, depth: nat) returns (outcome: Outcome, stop: bool)
      requires cfg.budget == Some(budget) && 1 <= depth <= cfg.maxDepth
      modifies this`bytesRead, this`entries, this`trace
      ensures
        var r := ScanItem(cfg, ZipItem(entry), parents, depth, old(Led()));
        outcome == r.outcome && stop == r.stop && Shows(r.ledger, old(trace), r.events)
      decreases cfg.maxDepth - depth, 2
    {
      hide Archive.ScanEntry, Append;
      var cause := BeginEntry();
      if cause.Some? {
        return Failure(cause.value), true;
      }
      if !entry.regular {
        return NOTHING, false;
      }
      if entry.encrypted {
        FinishEntry(false);
        return Failure(EncryptedEntry), false;
      }
      if entry.content.None? {
        FinishEntry(false);
        return Failure(Library(0)), false;
      }
      outcome, stop := ScanStream(entry.content.value, Append(cfg, parents, entry.name), depth);
    }

    /** An entry that has been begun: scan it, close it, finish it. */
    method ScanStream(stream: Stream, path: seq<string>, depth: nat) returns (outcome: Outcome, stop: bool)
      requires cfg.budget == Some(budget) && 1 <= depth <= cfg.maxDepth
      modifies this`bytesRead, this`entries, this`trace
      ensures
        var r := Close(stream, Archive.ScanEntry(cfg, stream, path, depth, old(Led())));
        && outcome == r.outcome && stop == r.stop && Led() == r.ledger && r.events[0] == Discovered
        && trace == old(trace) + r.events[1..]
      decreases cfg.maxDepth - depth, 1
    {
      hide Archive.ScanEntry;
      ghost var r := Archive.ScanEntry(cfg, stream, path, depth, Led());
      var capped, taken;
      outcome, capped, taken := ScanEntry(stream, path, depth);
      var closeError := stream.close(taken);
      if closeError.Some? {
        outcome := Merge(outcome, Failure(Library(closeError.value)));
      }
      FinishEntry(capped);
      stop := ByteLimit in outcome.causes;
      assert ([Discovered] + r.events + [Finished(capped)])[1..] == r.events + [Finished(capped)];
    }

    /** `scanZIP`. */
    method ScanZip(entryList: seq<ZipEntry>, parents: seq<string>, depth: nat) returns (result: Outcome)
      requires cfg.budget == Some(budget) && 1 <= depth <= cfg.maxDepth
      modifies this`bytesRead, this`entries, this`trace
      ensures
        var r := ScanItems(cfg, ZipItems(entryList), parents, depth, old(Led()));
        result == r.outcome && Shows(r.ledger, old(trace), r.events)
      decreases cfg.maxDepth - depth, 3
    {
      hide ScanItem, ZipItem, After;
      var items := ZipItems(entryList);
      result := NOTHING;
      ghost var all := ScanItems(cfg, items, parents, depth, Led());
      ghost var events: seq<Event> := [];
      AfterNothing(all);
      var index := 0;
      assert items[0..] == items;
      while index < |entryList|
        invariant index <= |entryList| && trace == old(trace) + events && !result.capped
        invariant all == After(result, events, ScanItems(cfg, items[index..], parents, depth, Led()))
      {
        ghost var led := Led();
        ghost var step := ScanItem(cfg, items[index], parents, depth, led);
        ItemsStep(cfg, items, index, parents, depth, led);
        var entryResult, stop := ScanZipEntry(entryList[index], parents, depth);
        AfterStep(result, events, step, ScanItems(cfg, items[index + 1..], parents, depth, Led()));
        result, events := Merge(result, entryResult), events + step.events;
        if stop {
          return;
        }
        index := index + 1;
      }
      AfterEverything(result, events, Led());
    }

    /** `scanTAR`. */
    method ScanTar(archive: TarArchive, parents: seq<string>, depth: nat) returns (result: Outcome)
      requires cfg.budget == Some(budget) && 1 <= depth <= cfg.maxDepth
      modifies this`bytesRead, this`entries, this`trace
      ensures
        var r := ScanItems(cfg, TarItems(archive), parents, depth, old(Led()));
        result == r.outcome && Shows(r.ledger, old(trace), r.events)
      decreases cfg.maxDepth - depth, 3
    {
      hide ScanItem, TarItem, After;
      ghost var items := TarItems(archive);
      result := NOTHING;
      ghost var all := ScanItems(cfg, items, parents, depth, Led());
      ghost var events: seq<Event> := [];
      AfterNothing(all);
      var index := 0;
      assert items[0..] == items;
      while index < |archive.headers|
        invariant index <= |archive.headers| && trace == old(trace) + events && !result.capped
        invariant all == After(result, events, ScanItems(cfg, items[index..], parents, depth, Led()))
      {
        ghost var led := Led();
        ghost var step := ScanItem(cfg, items[index], parents, depth, led);
        ItemsStep(cfg, items, index, parents, depth, led);
        var entryResult, stop := ScanTarEntry(archive.headers[index], parents, depth);
        AfterStep(result, events, step, ScanItems(cfg, items[index + 1..], parents, depth, Led()));
        result, events := Merge(result, entryResult), events + step.events;
        if stop {
          return;
        }
        index := index + 1;
      }
      if archive.fault.Some? {
        ItemsStep(cfg, items, index, parents, depth, Led());
        UnreadableStops(cfg, items[index], parents, depth, Led());
        AfterStep(result, events, ScanItem(cfg, items[index], parents, depth, Led()),
                  ScanItems(cfg, items[index + 1..], parents, depth, Led()));
        result := Merge(result, Failure(Library(archive.fault.value)));
        assert events + [] == events;
        return;
      }
      AfterEverything(result, events, Led());
    }

    method ScanTarEntry(header: TarHeader, parents: seq<string>, depth: nat) returns (outcome: Outcome, stop: bool)
      requires cfg.budget == Some(budget) && 1 <= depth <= cfg.maxDepth
      modifies this`bytesRead, this`entries, this`trace
      ensures
        var r := ScanItem(cfg, TarItem(header), parents, depth, old(Led()));
        outcome == r.outcome && stop == r.stop && Shows(r.ledger, old(trace), r.events)
      decreases cfg.maxDepth - depth, 2
    {
      hide Archive.ScanEntry, Append;
      var cause := BeginEntry();
      if cause.Some? {
        return Failure(cause.value), true;
      }
      if !header.regular {
        return NOTHING, false;
      }
      var item := TarItem(header);
      outcome, stop := ScanStream(item.content, Append(cfg, parents, header.name), depth);
    }

    /** `scanGZIP`. */
    method ScanGzip(data: Bytes, parents: seq<string>, depth: nat) returns (outcome: Outcome)
      requires cfg.budget == Some(budget) && 1 <= depth <= cfg.maxDepth
      modifies this`bytesRead, this`entries, this`trace
      ensures
        var r := ScanArchive(cfg, data, GZIP, parents, depth, old(Led()));
        outcome == r.outcome && Shows(r.ledger, old(trace), r.events)
      decreases cfg.maxDepth - depth, 3
    {
      hide Archive.ScanEntry, Append, DefaultGzipName;
      var member := cfg.libraries.gunzip(data);
      if member.None? {
        return Failure(BadArchive);
      }
      var item := GzipItem(cfg, parents, member.value);
      var cause := BeginEntry();
      if cause.Some? {
        return Failure(cause.value);
      }
      var stop;
      outcome, stop := ScanStream(item.content, Append(cfg, parents, item.name), depth);
    }

    /** `scanArchiveBytes`, and the switch of `scanArchiveFile`. */
    method ScanArchiveBytes(data: Bytes, format: Format, parents: seq<string>, depth: nat) returns (outcome: Outcome)
      requires cfg.budget == Some(budget) && 1 <= depth <= cfg.maxDepth
      modifies this`bytesRead, this`entries, this`trace
      ensures
        var r := ScanArchive(cfg, data, format, parents, depth, old(Led()));
        outcome == r.outcome && Shows(r.ledger, old(trace), r.events)
      decreases cfg.maxDepth - depth, 4
    {
      hide CountProblem, ScanItems, ScanItem;
      match format
      case ZIP =>
        var problem := CheckZipEntryCount(data);
        if problem.Some? {
          return Failure(problem.value);
        }
        var list := cfg.libraries.unzip(data);
        if list.None? {
          return Failure(BadArchive);
        }
        outcome := ScanZip(list.value, parents, depth);
      case TAR =>
        outcome := ScanTar(cfg.libraries.untar(data), parents, depth);
      case GZIP =>
        outcome := ScanGzip(data, parents, depth);
    }
  }

  // ----------------------------------------------- accumulating a loop from the left

  /** A finished part of a loop in front of the rest of it. */
  ghost function After(result: Outcome, events: seq<Event>, rest: ScanRun): ScanRun {
    ScanRun(Merge(result, rest.outcome), rest.ledger, events + rest.events)
  }

  lemma AfterNothing(rest: ScanRun)
    requires !rest.outcome.capped
    ensures After(NOTHING, [], rest) == rest
  {
  }

  lemma AfterEverything(result: Outcome, events: seq<Event>, led: Ledger)
    ensures After(result, events, ScanRun(NOTHING, led, [])) == ScanRun(result, led, events)
  {
  }

  lemma AfterStep(result: Outcome, events: seq<Event>, step: Step, rest: ScanRun)
    ensures After(result, events, Followed(step, rest)) ==
            After(Merge(result, step.outcome), events + step.events, rest)
    ensures After(result, events, ScanRun(Merge(NOTHING, step.outcome), step.ledger, step.events))
         == ScanRun(Merge(result, step.outcome), step.ledger, events + step.events)
  {
  }

  lemma ItemsStep(cfg: Config, items: seq<Item>, index: nat, parents: seq<string>, depth: nat, led: Ledger)
    requires 1 <= depth <= cfg.maxDepth && index < |items|
    ensures
      var step := ScanItem(cfg, items[index], parents, depth, led);
      ScanItems(cfg, items[index..], parents, depth, led) ==
        if step.stop then ScanRun(Merge(NOTHING, step.outcome), step.ledger, step.events)
        else Followed(step, ScanItems(cfg, items[index + 1..], parents, depth, step.ledger))
  {
  }

  lemma UnreadableStops(cfg: Config, item: Item, parents: seq<string>, depth: nat, led: Ledger)
    requires 1 <= depth <= cfg.maxDepth && item.Unreadable?
    ensures ScanItem(cfg, item, parents, depth, led) == Step(Failure(item.cause), true, led, [])
  {
  }
}
