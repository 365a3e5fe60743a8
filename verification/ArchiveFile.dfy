/** `scanFileContentsWithOptions` of `internal/scanner/scanner.go` with archive
    scanning, and what the capped flag of a file means then. */
module ArchiveFile {
  import opened Common
  import opened Content
  import opened Archive
  import opened ArchiveBudget
  import opened ArchiveFlatten

  /** The scan of a readable file. The archive is recognised on what the sniff limit
      lets through, but scanned from the file itself. */
  function ScanFile(cfg: Config, file: Bytes, scanArchives: bool): Outcome
    requires cfg.maxDepth >= 1
  {
    var format := DetectFormat(Prefix(file, cfg.maxBytes));
    if scanArchives && format.Some? then ScanOuter(cfg, file, format.value).outcome
    else ScanPlainFile(cfg.codecs, cfg.outerPath, file, cfg.maxBytes)
  }

  /** The signatures of a ZIP archive's first record: of a file, of the end of an empty
      archive, of a spanned one. */
  predicate ZipMagic(data: Bytes) {
    [0x50, 0x4B, 3, 4] <= data || [0x50, 0x4B, 5, 6] <= data || [0x50, 0x4B, 7, 8] <= data
  }

  predicate GzipMagic(data: Bytes) {
    [0x1F, 0x8B] <= data
  }

  /** "ustar" at offset 257, followed by a zero byte or a space. */
  predicate TarMagic(data: Bytes) {
    At(data, 257, [0x75, 0x73, 0x74, 0x61, 0x72, 0]) || At(data, 257, [0x75, 0x73, 0x74, 0x61, 0x72, 0x20])
  }

  /** The magic bytes tell the formats apart; those at the start come first. */
  lemma FormatsByMagic(data: Bytes)
    ensures DetectFormat(data) == Some(ZIP) <==> ZipMagic(data)
    ensures DetectFormat(data) == Some(GZIP) <==> GzipMagic(data)
    ensures DetectFormat(data) == Some(TAR) <==> TarMagic(data) && !ZipMagic(data) && !GzipMagic(data)
    ensures DetectFormat(data).None? <==> !TarMagic(data) && !ZipMagic(data) && !GzipMagic(data)
  {
    assert |data| >= 4 ==> forall magic: Bytes :: |magic| == 4 ==> (magic <= data <==> data[..4] == magic);
    assert |data| >= 2 ==> data[..2] == [data[0], data[1]];
  }

  /** A file is unpacked only with archives on, and only if the part of it that the sniff
      limit lets through starts like an archive. */
  lemma OthersAreNotUnpacked(cfg: Config, file: Bytes, scanArchives: bool)
    requires cfg.maxDepth >= 1
    requires
      var prefix := Prefix(file, cfg.maxBytes);
      !scanArchives || !(ZipMagic(prefix) || GzipMagic(prefix) || TarMagic(prefix))
    ensures ScanFile(cfg, file, scanArchives) == ScanPlainFile(cfg.codecs, cfg.outerPath, file, cfg.maxBytes)
  {
    hide DetectFormat, ScanOuter, ScanPlainFile, Prefix, ZipMagic, GzipMagic, TarMagic;
    if scanArchives {
      FormatsByMagic(Prefix(file, cfg.maxBytes));
    }
  }

  /** What a prefix shows to be an archive stays the same archive whatever follows, and
      263 bytes show all there is to see. */
  lemma FormatSettledBy263(prefix: Bytes, file: Bytes)
    requires prefix <= file
    ensures DetectFormat(prefix).Some? ==> DetectFormat(file) == DetectFormat(prefix)
    ensures |prefix| >= 263 ==> DetectFormat(file) == DetectFormat(prefix)
  {
  }

  /** A capped outcome has neither certificates nor findings. */
  predicate CappedIsEmpty(o: Outcome) {
    o.capped ==> o.certificates == [] && o.findings == []
  }

  lemma LeafCapped(cfg: Config, s: Stream, path: seq<string>, p: PrefixRun)
    requires p.taken <= |s.data|
    ensures CappedIsEmpty(Leaf(cfg, s, path, p).outcome)
  {
  }

  lemma {:induction false} EntryCapped(cfg: Config, s: Stream, path: seq<string>, depth: nat, led: Ledger)
    requires 1 <= depth <= cfg.maxDepth
    ensures CappedIsEmpty(ScanEntry(cfg, s, path, depth, led).outcome)
    decreases cfg.maxDepth - depth, 0
  {
    hide Leaf, ReadPrefix, ReadFull, ScanArchive, DetectFormat;
    var p := ReadPrefix(cfg, s, led);
    LeafCapped(cfg, s, path, p);
    var format := DetectFormat(p.prefix);
    if p.cause.None? && format.Some? && depth < cfg.maxDepth {
      if p.complete {
        ArchiveCapped(cfg, p.prefix, format.value, path, depth + 1, p.ledger);
      } else {
        var full := ReadFull(cfg, s, p);
        ArchiveCapped(cfg, full.data, format.value, path, depth + 1, full.ledger);
      }
    }
  }

  lemma ItemsNeverCapped(cfg: Config, items: seq<Item>, parents: seq<string>, depth: nat, led: Ledger)
    requires 1 <= depth <= cfg.maxDepth
    ensures !ScanItems(cfg, items, parents, depth, led).outcome.capped
  {
  }

  /** Only a gzip layer hands the flag of its content on. */
  lemma {:induction false} ArchiveCapped(
    cfg: Config, data: Bytes, format: Format, parents: seq<string>, depth: nat, led: Ledger)
    requires 1 <= depth <= cfg.maxDepth
    ensures
      var o := ScanArchive(cfg, data, format, parents, depth, led).outcome;
      CappedIsEmpty(o) && (o.capped ==> format.GZIP?)
    decreases cfg.maxDepth - depth, 1
  {
    hide ScanEntry, ScanItems, CountProblem, Append, DefaultGzipName;
    match format
    case ZIP =>
      var entries := cfg.libraries.unzip(data);
      if entries.Some? {
        ItemsNeverCapped(cfg, ZipItems(entries.value), parents, depth, led);
      }
    case TAR => ItemsNeverCapped(cfg, TarItems(cfg.libraries.untar(data)), parents, depth, led);
    case GZIP =>
      var member := cfg.libraries.gunzip(data);
      if member.Some? {
        var item := GzipItem(cfg, parents, member.value);
        EntryCapped(cfg, item.content, Append(cfg, parents, item.name), depth, led.(entries := led.entries + 1));
      }
  }

  /** A file counted as capped gives no certificate and no finding, archives on or off;
      and if it was scanned as an archive, it was a gzip file. ZIP and TAR files are
      never counted as capped, however many of their entries were. */
  lemma CappedFilesGiveNothing(cfg: Config, file: Bytes, scanArchives: bool)
    requires cfg.maxDepth >= 1
    ensures
      var o := ScanFile(cfg, file, scanArchives);
      && CappedIsEmpty(o)
      && (o.capped && scanArchives && DetectFormat(Prefix(file, cfg.maxBytes)).Some? ==>
            DetectFormat(file) == Some(GZIP))
  {
    hide ScanArchive, DetectFormat, JavaOutcome, PfxOutcome;
    var prefix := Prefix(file, cfg.maxBytes);
    FormatSettledBy263(prefix, file);
    var format := DetectFormat(prefix);
    if scanArchives && format.Some? {
      ArchiveCapped(cfg, file, format.value, [], 1, Ledger(0, 0));
    }
  }

  /** A gzip file around sound content that is no archive gives what the content would
      give as a file of its own, under the entry's path, and is counted as capped exactly
      when that file would be; with every budget that covers the stated cost. */
  lemma GzipScannedLikeItsContent(cfg: Config, file: Bytes, member: GzipMember)
    requires cfg.maxDepth >= 1 && cfg.maxEntries >= 1 && cfg.libraries.gunzip(file) == Some(member)
    requires DetectFormat(Prefix(file, cfg.maxBytes)) == Some(GZIP)
    requires DetectFormat(Prefix(member.content.data, cfg.maxBytes)).None?
    requires Sound(member.content) && cfg.budget.Some? && cfg.budget.value >= Cost(cfg, member.content.data)
    ensures
      var path := Append(cfg, [], GzipItem(cfg, [], member).name);
      ScanFile(cfg, file, true) ==
        Attach(ScanPlainFile(cfg.codecs, cfg.outerPath, member.content.data, cfg.maxBytes), path)
  {
    hide ScanContentData, Leaf, ReadPrefix, ReadUpTo, Cost, DefaultGzipName, ScanPlainFile, Attach, DetectFormat;
    var s := member.content;
    var path := Append(cfg, [], GzipItem(cfg, [], member).name);
    GzipNameIsFree(cfg, [], member);
    EntryScannedLikeAFile(cfg, s.data, s.eager, s.close, path);
    SoundPrefix(cfg, s);
    PrefixShifts(cfg, s, Ledger(0, 1));
    LeafFollows(cfg, s, path, Ledger(0, 1));
    FreeGzip(cfg, file, member);
    ByteThreshold(cfg, file, GZIP);
    FormatSettledBy263(Prefix(file, cfg.maxBytes), file);
  }

  /** An unlimited scan of a gzip file is the scan of its entry. */
  lemma FreeGzip(cfg: Config, file: Bytes, member: GzipMember)
    requires cfg.maxDepth >= 1 && cfg.maxEntries >= 1 && cfg.libraries.gunzip(file) == Some(member)
    requires Sound(member.content)
    ensures
      var path := Append(cfg, [], GzipItem(cfg, [], member).name);
      var run := ScanEntry(Free(cfg), member.content, path, 1, Ledger(0, 1));
      var free := ScanOuter(Free(cfg), file, GZIP);
      free.outcome == run.outcome && free.ledger == run.ledger
  {
    hide ScanEntry, DefaultGzipName;
    GzipNameIsFree(cfg, [], member);
    var path := Append(cfg, [], GzipItem(cfg, [], member).name);
    assert Append(Free(cfg), [], GzipItem(cfg, [], member).name) == path;
    var step := ScanItem(Free(cfg), GzipItem(cfg, [], member), [], 1, Ledger(0, 0));
    assert step == Archive.Close(member.content, ScanEntry(Free(cfg), member.content, path, 1, Ledger(0, 1)));
  }

  /** A stream that ends and closes without an error. */
  ghost predicate Sound(s: Stream) {
    s.end.Eof? && |s.data| < MAX_INT64 && forall n :: s.close(n).None?
  }

  lemma SoundPrefix(cfg: Config, s: Stream)
    requires Sound(s)
    ensures FreePrefix(cfg, s).cause.None? && FreePrefix(cfg, s).prefix == Prefix(s.data, cfg.maxBytes)
  {
  }
}
