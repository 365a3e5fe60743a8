/** The entry count a ZIP file declares, by the layout of its closing records in the ZIP
    format specification (sections 4.3.14 to 4.3.16 of PKWARE's APPNOTE.TXT), as a
    reference for the footer search of `internal/scanner/archive.go`. */
module ArchiveFooter {
  import opened Common
  import opened Content
  import opened Archive

  /** A number as little-endian bytes of a fixed width. */
  function LittleEndian(n: nat, width: nat): (b: Bytes)
    ensures |b| == width
  {
    if width == 0 then [] else [n % 0x100] + LittleEndian(n / 0x100, width - 1)
  }

  /** An end-of-central-directory record for `total` entries at `at`, whose comment
      reaches exactly to the end of the file. */
  predicate ClosingRecord(data: Bytes, at: nat, total: nat) {
    at + 22 <= |data| <= at + 22 + 0xFFFF && total <= 0xFFFF
    && At(data, at, [0x50, 0x4B, 5, 6])
    && At(data, at + 10, LittleEndian(total, 2))
    && At(data, at + 20, LittleEndian(|data| - at - 22, 2))
  }

  /** The locator in front of a closing record, and the ZIP64 record for `total` entries
      at the offset it names. */
  predicate Located(data: Bytes, at: nat, offset: nat, total: nat) {
    20 <= at && offset <= MAX_INT64 && offset + 56 <= |data| && total < 0x1_0000_0000_0000_0000
    && At(data, at - 20, [0x50, 0x4B, 6, 7])
    && At(data, at - 12, LittleEndian(offset, 8))
    && At(data, offset, [0x50, 0x4B, 6, 6])
    && At(data, offset + 32, LittleEndian(total, 8))
  }

  ghost predicate IsLocated(data: Bytes, at: nat, total: nat) {
    exists offset: nat :: Located(data, at, offset, total)
  }

  /** The last closing record is at `at` and holds `held`. */
  ghost predicate LastRecord(data: Bytes, at: nat, held: nat) {
    ClosingRecord(data, at, held) && forall later: nat, other: nat :: at < later ==> !ClosingRecord(data, later, other)
  }

  /** The file declares `total` entries: its last closing record holds them, or holds the
      mark 0xFFFF and a ZIP64 record holds them, or holds the mark without one. */
  ghost predicate Declares(data: Bytes, total: nat) {
    exists at: nat, held: nat ::
      && LastRecord(data, at, held)
      && (if held == 0xFFFF && (exists large: nat :: IsLocated(data, at, large)) then IsLocated(data, at, total)
          else total == held)
  }

  // --------------------------------------------------------- the readers of the model

  lemma {:induction false} SameDigits(n: nat, m: nat, width: nat, bound: nat)
    requires LittleEndian(n, width) == LittleEndian(m, width)
    requires n < bound && m < bound && bound == Power(width)
    ensures n == m
    decreases width
  {
    if width > 0 {
      assert LittleEndian(n, width)[0] == n % 0x100 && LittleEndian(m, width)[0] == m % 0x100;
      assert LittleEndian(n, width)[1..] == LittleEndian(n / 0x100, width - 1);
      assert LittleEndian(m, width)[1..] == LittleEndian(m / 0x100, width - 1);
      SameDigits(n / 0x100, m / 0x100, width - 1, Power(width - 1));
    }
  }

  function Power(width: nat): nat {
    if width == 0 then 1 else 0x100 * Power(width - 1)
  }

  lemma Reads16(data: Bytes, at: nat)
    requires at + 2 <= |data|
    ensures At(data, at, LittleEndian(Little16(data, at), 2))
  {
    var n := Little16(data, at);
    assert n % 0x100 == data[at] && n / 0x100 == data[at + 1];
    assert LittleEndian(n / 0x100, 1) == [n / 0x100] + LittleEndian(0, 0);
    assert data[at..at + 2] == [data[at], data[at + 1]];
  }

  lemma {:induction false} Joined(low: nat, high: nat, width: nat, more: nat)
    requires low < Power(width)
    ensures LittleEndian(low + Power(width) * high, width + more) == LittleEndian(low, width) + LittleEndian(high, more)
    decreases width
  {
    if width > 0 {
      var n := low + Power(width) * high;
      var rest := Power(width - 1) * high;
      assert n == low + 0x100 * rest;
      assert n % 0x100 == low % 0x100 && n / 0x100 == low / 0x100 + rest;
      Joined(low / 0x100, high, width - 1, more);
    }
  }

  lemma Reads32(data: Bytes, at: nat)
    requires at + 4 <= |data|
    ensures At(data, at, LittleEndian(Little32(data, at), 4))
  {
    var low, high := Little16(data, at), Little16(data, at + 2);
    Reads16(data, at);
    Reads16(data, at + 2);
    assert Power(2) == 0x1_0000;
    Joined(low, high, 2, 2);
    assert data[at..at + 4] == data[at..at + 2] + data[at + 2..at + 4];
  }

  lemma Reads64(data: Bytes, at: nat)
    requires at + 8 <= |data|
    ensures Little64(data, at) < 0x1_0000_0000_0000_0000
    ensures At(data, at, LittleEndian(Little64(data, at), 8))
  {
    var low, high := Little32(data, at), Little32(data, at + 4);
    Reads32(data, at);
    Reads32(data, at + 4);
    assert Power(4) == 0x1_0000_0000;
    Joined(low, high, 4, 4);
    assert data[at..at + 8] == data[at..at + 4] + data[at + 4..at + 8];
  }

  /** A reader returns a number exactly where its bytes stand. */
  lemma Numbers(data: Bytes, at: nat)
    ensures at + 2 <= |data| ==>
              forall n: nat :: n < 0x1_0000 ==> (At(data, at, LittleEndian(n, 2)) <==> Little16(data, at) == n)
    ensures at + 4 <= |data| ==>
              forall n: nat :: n < 0x1_0000_0000 ==> (At(data, at, LittleEndian(n, 4)) <==> Little32(data, at) == n)
    ensures at + 8 <= |data| ==>
              && Little64(data, at) < 0x1_0000_0000_0000_0000
              && forall n: nat :: n < 0x1_0000_0000_0000_0000 ==>
                   (At(data, at, LittleEndian(n, 8)) <==> Little64(data, at) == n)
  {
    assert Power(2) == 0x1_0000 && Power(4) == 0x1_0000_0000 && Power(8) == 0x1_0000_0000_0000_0000;
    if at + 2 <= |data| {
      Reads16(data, at);
      forall n: nat | n < 0x1_0000 && At(data, at, LittleEndian(n, 2)) ensures Little16(data, at) == n {
        SameDigits(n, Little16(data, at), 2, Power(2));
      }
    }
    if at + 4 <= |data| {
      Reads32(data, at);
      forall n: nat | n < 0x1_0000_0000 && At(data, at, LittleEndian(n, 4)) ensures Little32(data, at) == n {
        SameDigits(n, Little32(data, at), 4, Power(4));
      }
    }
    if at + 8 <= |data| {
      Reads64(data, at);
      forall n: nat | n < 0x1_0000_0000_0000_0000 && At(data, at, LittleEndian(n, 8)) ensures Little64(data, at) == n {
        SameDigits(n, Little64(data, at), 8, Power(8));
      }
    }
  }

  lemma Signatures()
    ensures LittleEndian(0x06054B50, 4) == [0x50, 0x4B, 5, 6]
    ensures LittleEndian(0x07064B50, 4) == [0x50, 0x4B, 6, 7]
    ensures LittleEndian(0x06064B50, 4) == [0x50, 0x4B, 6, 6]
  {
    Signature(0x06054B50, 5, 6);
    Signature(0x07064B50, 6, 7);
    Signature(0x06064B50, 6, 6);
  }

  lemma Signature(n: nat, a: byte, b: byte)
    requires n == 0x50 + 0x100 * 0x4B + 0x1_0000 * a as int + 0x100_0000 * b as int
    ensures LittleEndian(n, 4) == [0x50, 0x4B, a, b]
  {
    hide LittleEndian;
    var data: Bytes := [0x50, 0x4B, a, b];
    Reads32(data, 0);
    assert data[0..4] == data;
  }

  /** The record test of the search is the layout's. */
  lemma RecordIs(data: Bytes, at: nat)
    ensures IsEndRecord(data, at) <==> exists total: nat :: ClosingRecord(data, at, total)
    ensures forall total: nat :: ClosingRecord(data, at, total) ==>
                                   at + 12 <= |data| && Little16(data, at + 10) == total
    ensures IsEndRecord(data, at) ==> ClosingRecord(data, at, Little16(data, at + 10))
    ensures IsEndRecord(data, at) ==> at + 22 <= |data| <= at + 22 + 0xFFFF
  {
    hide LittleEndian, Little16, Little32;
    Signatures();
    if at + 22 <= |data| {
      Numbers(data, at);
      Numbers(data, at + 10);
      Numbers(data, at + 20);
      if IsEndRecord(data, at) {
        assert ClosingRecord(data, at, Little16(data, at + 10));
      }
    }
  }

  /** What stands in front of it is read as the layout says. */
  lemma LocatedIs(data: Bytes, at: nat, total: nat)
    requires at <= |data|
    ensures IsLocated(data, at, total) <==> Zip64Count(data, at) == Some(total)
  {
    hide LittleEndian, Little16, Little32, Little64;
    Signatures();
    if 20 <= at {
      Numbers(data, at - 20);
      Numbers(data, at - 12);
      if IsLocated(data, at, total) {
        var offset: nat :| Located(data, at, offset, total);
        Numbers(data, offset);
        Numbers(data, offset + 32);
      }
      if Zip64Count(data, at) == Some(total) {
        var offset := Little64(data, at - 12);
        Numbers(data, offset);
        Numbers(data, offset + 32);
        assert Located(data, at, offset, total);
      }
    }
  }

  /** The search finds the last closing record of the file, if there is one. */
  lemma SearchIs(data: Bytes)
    requires |data| >= END_RECORD_SIZE
    ensures
      var lowest: nat := if |data| <= END_RECORD_SIZE + MAXIMUM_COMMENT then 0
                         else |data| - (END_RECORD_SIZE + MAXIMUM_COMMENT);
      match FindEndRecord(data, |data| - END_RECORD_SIZE, lowest)
      case None => forall at: nat, held: nat :: !ClosingRecord(data, at, held)
      case Some(end) =>
        && end + END_RECORD_SIZE <= |data|
        && forall at: nat, held: nat :: LastRecord(data, at, held) <==> at == end && held == Little16(data, end + 10)
  {
    hide IsEndRecord, Little16, ClosingRecord;
    forall at: nat
      ensures IsEndRecord(data, at) <==> exists total: nat :: ClosingRecord(data, at, total)
      ensures forall total: nat :: ClosingRecord(data, at, total) ==>
                                     at + 12 <= |data| && Little16(data, at + 10) == total
      ensures IsEndRecord(data, at) ==> ClosingRecord(data, at, Little16(data, at + 10))
      ensures IsEndRecord(data, at) ==> at + 22 <= |data| <= at + 22 + 0xFFFF
    {
      RecordIs(data, at);
    }
    forall at: nat, held: nat | ClosingRecord(data, at, held) ensures IsEndRecord(data, at) && at + 22 <= |data| {
      assert exists total: nat :: ClosingRecord(data, at, total);
    }
  }

  /** The footer search finds the number a file declares, and finds none exactly when no
      closing record reaches to the end of the file. */
  lemma DeclaredCountIs(data: Bytes)
    ensures DeclaredCount(data).None? <==> forall at: nat, held: nat :: !ClosingRecord(data, at, held)
    ensures forall total: nat :: Declares(data, total) <==> DeclaredCount(data) == Some(total)
  {
    if |data| >= END_RECORD_SIZE {
      CountOfRecord(data);
    }
  }

  lemma CountOfRecord(data: Bytes)
    requires |data| >= END_RECORD_SIZE
    ensures DeclaredCount(data).None? <==> forall at: nat, held: nat :: !ClosingRecord(data, at, held)
    ensures forall total: nat :: Declares(data, total) <==> DeclaredCount(data) == Some(total)
  {
    hide IsEndRecord, IsLocated, Zip64Count, Little16, ClosingRecord, FindEndRecord;
    SearchIs(data);
    var lowest: nat := if |data| <= END_RECORD_SIZE + MAXIMUM_COMMENT then 0
                       else |data| - (END_RECORD_SIZE + MAXIMUM_COMMENT);
    var found := FindEndRecord(data, |data| - END_RECORD_SIZE, lowest);
    if found.Some? {
      var end, held := found.value, Little16(data, found.value + 10);
      assert LastRecord(data, end, held);
      forall total: nat ensures IsLocated(data, end, total) <==> Zip64Count(data, end) == Some(total) {
        LocatedIs(data, end, total);
      }
    }
  }

  /** The count check lets an archive pass exactly when its footer declares no more
      entries than the limit still allows, and misses the footer exactly when no closing
      record reaches to the end of the file. */
  lemma CountCheckIsExact(cfg: Config, data: Bytes, led: Ledger)
    requires led.entries <= cfg.maxEntries <= MAX_INT64
    ensures CountProblem(cfg, data, led) == Some(MissingFooter) <==>
            forall at: nat, held: nat :: !ClosingRecord(data, at, held)
    ensures forall total: nat :: Declares(data, total) ==>
              CountProblem(cfg, data, led) ==
              if led.entries + total <= cfg.maxEntries then None else Some(CountLimit)
    ensures CountProblem(cfg, data, led) in {None, Some(CountLimit)} ==> exists total: nat :: Declares(data, total)
  {
    hide DeclaredCount, Declares, ClosingRecord;
    DeclaredCountIs(data);
    assert AsUint64(cfg.maxEntries - led.entries) == cfg.maxEntries - led.entries;
    if DeclaredCount(data).Some? {
      assert Declares(data, DeclaredCount(data).value);
    }
  }

  /** A ZIP archive that declares more entries than are left, or none at all, gives
      nothing but its error, and none of its entries is begun. */
  lemma ArchiveIsRefused(cfg: Config, data: Bytes, parents: seq<string>, depth: nat, led: Ledger, total: nat)
    requires 1 <= depth <= cfg.maxDepth && led.entries <= cfg.maxEntries <= MAX_INT64
    ensures
      var r := ScanArchive(cfg, data, ZIP, parents, depth, led);
      && (Declares(data, total) && led.entries + total > cfg.maxEntries ==>
            r.outcome == Failure(CountLimit) && r.ledger == led && Discovered !in r.events)
      && ((forall at: nat, held: nat :: !ClosingRecord(data, at, held)) ==>
            r.outcome == Failure(MissingFooter) && r.ledger == led && Discovered !in r.events)
  {
    hide CountProblem, Declares, ClosingRecord, ScanItems;
    CountCheckIsExact(cfg, data, led);
  }
}
