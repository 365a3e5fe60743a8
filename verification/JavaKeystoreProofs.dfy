/** What the JKS/JCEKS parser guarantees: it inverts the store writer whatever the
    X.509 oracle says of single certificates, it reads no private-key byte and no
    MAC byte, and cutting a store short only removes certificates from the end. */
module JavaKeystoreProofs {
  import opened Common
  import opened TextCodec
  import opened JavaKeystore

  // ------------------------------------------------------------ the store writer

  /** A certificate and the name of its type, which version 1 does not write. */
  datatype Record = Record(kind: Text, der: Bytes)

  /** An entry; its alias is any bytes, the encoding of a text or not. */
  datatype StoreEntry =
    | PrivateKey(alias: Bytes, date: Bytes, key: Bytes, chain: seq<Record>)
    | Trusted(alias: Bytes, date: Bytes, record: Record)

  predicate Fits32(b: Bytes) {
    |b| < 0x1_0000_0000
  }

  predicate RecordFits(record: Record) {
    Fits32(record.der) && |EncodeModifiedUtf8(record.kind)| < 0x1_0000
  }

  predicate AllFit(chain: seq<Record>) {
    forall i :: 0 <= i < |chain| ==> RecordFits(chain[i])
  }

  predicate AllWellFramed(entries: seq<StoreEntry>) {
    forall i :: 0 <= i < |entries| ==> WellFramed(entries[i])
  }

  predicate WellFramed(e: StoreEntry) {
    && |e.alias| < 0x1_0000 && |e.date| == 8
    && match e
       case PrivateKey(_, _, key, chain) =>
         Fits32(key) && |chain| < 0x1_0000_0000 && AllFit(chain)
       case Trusted(_, _, record) => RecordFits(record)
  }

  function WriteShort(b: Bytes): Bytes
    requires |b| < 0x1_0000
  {
    Put16(|b|) + b
  }

  function WriteCertificate(version: u32, record: Record): Bytes
    requires RecordFits(record)
  {
    (if version == 2 then WriteShort(EncodeModifiedUtf8(record.kind)) else []) + (Put32(|record.der|) + record.der)
  }

  function WriteChain(version: u32, chain: seq<Record>): Bytes
    requires AllFit(chain)
  {
    if chain == [] then [] else WriteCertificate(version, chain[0]) + WriteChain(version, chain[1..])
  }

  function EntryTag(e: StoreEntry): u32 {
    if e.PrivateKey? then 1 else 2
  }

  function WriteContent(version: u32, e: StoreEntry): Bytes
    requires WellFramed(e)
  {
    match e
    case PrivateKey(_, _, key, chain) => Put32(|key|) + (key + (Put32(|chain|) + WriteChain(version, chain)))
    case Trusted(_, _, record) => WriteCertificate(version, record)
  }

  function WriteEntry(version: u32, e: StoreEntry): Bytes
    requires WellFramed(e)
  {
    Put32(EntryTag(e)) + (WriteShort(e.alias) + (e.date + WriteContent(version, e)))
  }

  function WriteEntries(version: u32, entries: seq<StoreEntry>): Bytes
    requires AllWellFramed(entries)
  {
    if entries == [] then [] else WriteEntry(version, entries[0]) + WriteEntries(version, entries[1..])
  }

  predicate ValidStore(version: u32, entries: seq<StoreEntry>, mac: Bytes) {
    && (version == 1 || version == 2)
    && 0 < |entries| < 0x1_0000_0000
    && AllWellFramed(entries)
    && |mac| == MAC_SIZE
  }

  function WriteStore(format: Format, version: u32, entries: seq<StoreEntry>, mac: Bytes): Bytes
    requires ValidStore(version, entries, mac)
  {
    Put32(if format.JKS? then JKS_MAGIC else JCEKS_MAGIC) + (Put32(version) + (Put32(|entries|)
    + WriteEntries(version, entries))) + mac
  }

  // --------------------------------------------------------- what should be found

  /** "X.509", its letter in either case. */
  predicate NamesX509(kind: Text) {
    |kind| == 5 && (kind[0] == 'X' as int || kind[0] == 'x' as int)
    && kind[1..] == ['.' as int, '5' as int, '0' as int, '9' as int]
  }

  /** Why a record gives no certificate, if it does not. */
  function Fault(codec: Codec, version: u32, record: Record): Option<CertificateProblem> {
    if version == 2 && !NamesX509(record.kind) then Some(UnsupportedType)
    else if !codec.accepts(record.der) then Some(NotX509)
    else None
  }

  ghost predicate IsText(alias: Bytes) {
    exists text: Text :: EncodeModifiedUtf8(text) == alias
  }

  /** The alias reported: the text it encodes, or its repair. */
  ghost function AliasOf(codec: Codec, alias: Bytes): Text {
    if IsText(alias) then var text: Text :| EncodeModifiedUtf8(text) == alias; text else codec.repair(alias)
  }

  /** The certificates of a chain that are accepted, each with its place in the whole
      chain. */
  function AcceptedChain(
    codec: Codec, format: Format, version: u32, alias: Text, chain: seq<Record>, index: nat): seq<KeystoreCertificate>
  {
    if chain == [] then []
    else
      (if Fault(codec, version, chain[0]).None?
       then [KeystoreCertificate(chain[0].der, format, alias, PrivateKeyEntry, index, false)]
       else [])
      + AcceptedChain(codec, format, version, alias, chain[1..], index + 1)
  }

  function RejectedChain(codec: Codec, version: u32, entry: nat, chain: seq<Record>, index: nat): seq<Problem> {
    if chain == [] then []
    else
      var fault := Fault(codec, version, chain[0]);
      (if fault.None? then [] else [InEntry(entry, ChainCertificate(index, fault.value))])
      + RejectedChain(codec, version, entry, chain[1..], index + 1)
  }

  ghost function AcceptedEntry(codec: Codec, format: Format, version: u32, e: StoreEntry): seq<KeystoreCertificate> {
    match e
    case PrivateKey(alias, _, _, chain) => AcceptedChain(codec, format, version, AliasOf(codec, alias), chain, 0)
    case Trusted(alias, _, record) =>
      if Fault(codec, version, record).None?
      then [KeystoreCertificate(record.der, format, AliasOf(codec, alias), TrustedCertEntry, 0, false)]
      else []
  }

  ghost function Accepted(codec: Codec, format: Format, version: u32, entries: seq<StoreEntry>)
    : seq<KeystoreCertificate>
  {
    if entries == [] then []
    else AcceptedEntry(codec, format, version, entries[0]) + Accepted(codec, format, version, entries[1..])
  }

  function RejectedContent(codec: Codec, version: u32, e: StoreEntry, entry: nat): seq<Problem> {
    match e
    case PrivateKey(_, _, _, chain) => RejectedChain(codec, version, entry, chain, 0)
    case Trusted(_, _, record) =>
      var fault := Fault(codec, version, record);
      if fault.None? then [] else [InEntry(entry, TrustedCertificate(fault.value))]
  }

  ghost function RejectedEntry(codec: Codec, version: u32, e: StoreEntry, entry: nat): seq<Problem> {
    (if IsText(e.alias) then [] else [InEntry(entry, AliasText)]) + RejectedContent(codec, version, e, entry)
  }

  ghost function Rejected(codec: Codec, version: u32, entries: seq<StoreEntry>, entry: nat): seq<Problem> {
    if entries == [] then []
    else RejectedEntry(codec, version, entries[0], entry) + Rejected(codec, version, entries[1..], entry + 1)
  }

  ghost predicate EntryAccepted(codec: Codec, version: u32, e: StoreEntry) {
    IsText(e.alias)
    && match e
       case PrivateKey(_, _, _, chain) => forall i :: 0 <= i < |chain| ==> Fault(codec, version, chain[i]).None?
       case Trusted(_, _, record) => Fault(codec, version, record).None?
  }

  ghost predicate AllAccepted(codec: Codec, version: u32, entries: seq<StoreEntry>) {
    forall i :: 0 <= i < |entries| ==> EntryAccepted(codec, version, entries[i])
  }

  predicate IsTruststore(entries: seq<StoreEntry>) {
    entries != [] && forall i :: 0 <= i < |entries| ==> entries[i].Trusted?
  }

  // --------------------------------------------------------------- round trip

  lemma ReadBackShort(data: Bytes, at: nat, b: Bytes)
    requires |b| < 0x1_0000 && At(data, at, WriteShort(b))
    ensures at + 2 + |b| <= |data| && Get16(data[at..at + 2]) == |b| && data[at + 2..at + 2 + |b|] == b
  {
    AtSplit(data, at, Put16(|b|), b);
    GetPut16(|b|);
  }

  lemma ReadBackDer(codec: Codec, data: Bytes, at: nat, der: Bytes, typed: bool)
    requires Fits32(der) && At(data, at, Put32(|der|) + der)
    ensures ReadDer(codec, data, at, typed) ==
            var next := at + 4 + |der|;
            if !typed then Skipped(next, UnsupportedType)
            else if codec.accepts(der) then Found(next, der)
            else Skipped(next, NotX509)
  {
    AtSplit(data, at, Put32(|der|), der);
    GetPut32(|der|);
  }

  lemma TypeNames(kind: Text)
    ensures IsX509Type(kind) <==> NamesX509(kind)
  {
    assert kind != [] ==> kind == [kind[0]] + kind[1..];
    assert X509_TYPE[1..] == X509_TYPE_LOWER[1..] == ['.' as int, '5' as int, '0' as int, '9' as int];
  }

  lemma ReadBackTypedDer(codec: Codec, data: Bytes, at: nat, record: Record)
    requires RecordFits(record) && At(data, at, WriteCertificate(2, record))
    ensures ReadCertificate(codec, data, at, 2) ==
            ReadDer(codec, data, at + 2 + |EncodeModifiedUtf8(record.kind)|, NamesX509(record.kind))
    ensures At(data, at + 2 + |EncodeModifiedUtf8(record.kind)|, Put32(|record.der|) + record.der)
  {
    hide IsX509Type, NamesX509, EncodeModifiedUtf8, DecodeModifiedUtf8, Get16, Put16, Get32, Put32, ReadDer;
    var kind, der := EncodeModifiedUtf8(record.kind), record.der;
    AtSplit(data, at, WriteShort(kind), Put32(|der|) + der);
    ReadBackShort(data, at, kind);
    ModifiedUtf8Bijective(kind, record.kind);
    TypeNames(record.kind);
  }

  lemma ReadBackCertificate(codec: Codec, data: Bytes, at: nat, version: u32, record: Record)
    requires RecordFits(record) && At(data, at, WriteCertificate(version, record))
    ensures ReadCertificate(codec, data, at, version) ==
            var next, fault := at + |WriteCertificate(version, record)|, Fault(codec, version, record);
            if fault.None? then Found(next, record.der) else Skipped(next, fault.value)
  {
    hide EncodeModifiedUtf8, NamesX509, ReadDer;
    var der := record.der;
    if version == 2 {
      ReadBackTypedDer(codec, data, at, record);
      ReadBackDer(codec, data, at + 2 + |EncodeModifiedUtf8(record.kind)|, der, NamesX509(record.kind));
    } else {
      assert [] + (Put32(|der|) + der) == Put32(|der|) + der;
      ReadBackDer(codec, data, at, der, true);
    }
  }

  lemma {:induction false} ReadBackChain(
    codec: Codec, data: Bytes, at: nat, owner: Label, index: nat, chain: seq<Record>, count: nat, next: nat)
    requires AllFit(chain) && At(data, at, WriteChain(owner.version, chain))
    requires count == index + |chain| && next == at + |WriteChain(owner.version, chain)|
    ensures ChainFrom(codec, data, at, owner, index, count) ==
            Stretch(AcceptedChain(codec, owner.format, owner.version, owner.alias, chain, index),
                    RejectedChain(codec, owner.version, owner.entry, chain, index), next, true, |chain|)
    decreases |chain|
  {
    hide WriteCertificate, ReadCertificate, Fault, RecordFits;
    if chain != [] {
      var first := WriteCertificate(owner.version, chain[0]);
      AtSplit(data, at, first, WriteChain(owner.version, chain[1..]));
      ReadBackCertificate(codec, data, at, owner.version, chain[0]);
      ReadBackChain(codec, data, at + |first|, owner, index + 1, chain[1..], count, next);
    }
  }

  lemma ReadBackKey(data: Bytes, at: nat, key: Bytes, rest: Bytes)
    requires Fits32(key) && At(data, at, Put32(|key|) + (key + rest))
    ensures at + 4 + |key| <= |data| && Get32(data[at..at + 4]) == |key| && At(data, at + 4 + |key|, rest)
  {
    AtSplit(data, at, Put32(|key|), key + rest);
    AtSplit(data, at + 4, key, rest);
    GetPut32(|key|);
  }

  lemma ReadBackCountedChain(
    codec: Codec, data: Bytes, at: nat, owner: Label, start: nat, chain: seq<Record>, written: Bytes)
    requires start <= at && |chain| < 0x1_0000_0000 && AllFit(chain) && written == WriteChain(owner.version, chain)
    requires At(data, at, Put32(|chain|) + written)
    ensures CountedChainBody(codec, data, at, owner, start) ==
            Stretch(AcceptedChain(codec, owner.format, owner.version, owner.alias, chain, 0),
                    RejectedChain(codec, owner.version, owner.entry, chain, 0), at + 4 + |written|, true, |chain|)
  {
    AtSplit(data, at, Put32(|chain|), written);
    GetPut32(|chain|);
    ReadBackChain(codec, data, at + 4, owner, 0, chain, |chain|, at + 4 + |written|);
  }

  lemma ReadBackContent(codec: Codec, data: Bytes, at: nat, owner: Label, e: StoreEntry)
    requires WellFramed(e) && owner.alias == AliasOf(codec, e.alias)
    requires At(data, at, WriteContent(owner.version, e))
    ensures EntryBody(codec, data, at, owner, EntryTag(e)) ==
            Stretch(AcceptedEntry(codec, owner.format, owner.version, e),
                    RejectedContent(codec, owner.version, e, owner.entry), at + |WriteContent(owner.version, e)|, true,
                    if e.PrivateKey? then |e.chain| else 1)
  {
    hide AliasOf, Fault, RecordFits, CountedChainBody, ReadCertificate, WriteChain, WriteCertificate, Get32, Put32;
    match e
    case PrivateKey(_, _, key, chain) =>
      var written := WriteChain(owner.version, chain);
      ReadBackKey(data, at, key, Put32(|chain|) + written);
      ReadBackCountedChain(codec, data, at + 4 + |key|, owner, at, chain, written);
    case Trusted(_, _, record) =>
      ReadBackCertificate(codec, data, at, owner.version, record);
  }

  lemma ReadBackOpening(data: Bytes, at: nat, tag: u32, alias: Bytes, date: Bytes, rest: Bytes)
    requires |alias| < 0x1_0000 && |date| == 8
    requires At(data, at, Put32(tag) + (WriteShort(alias) + (date + rest)))
    ensures
      var next := at + 14 + |alias|;
      ReadOpening(data, at) == Opening(tag, alias, next) && At(data, next, rest)
  {
    AtSplit(data, at, Put32(tag), WriteShort(alias) + (date + rest));
    AtSplit(data, at + 4, WriteShort(alias), date + rest);
    AtSplit(data, at + 6 + |alias|, date, rest);
    GetPut32(tag);
    ReadBackShort(data, at + 4, alias);
  }

  lemma AliasReads(codec: Codec, alias: Bytes)
    ensures Alias(codec, alias) == AliasOf(codec, alias)
    ensures DecodeModifiedUtf8(alias).Some? <==> IsText(alias)
  {
    hide DecodeModifiedUtf8, EncodeModifiedUtf8;
    forall text: Text ensures DecodeModifiedUtf8(alias) == Some(text) <==> alias == EncodeModifiedUtf8(text) {
      ModifiedUtf8Bijective(alias, text);
    }
    if DecodeModifiedUtf8(alias).Some? {
      assert EncodeModifiedUtf8(DecodeModifiedUtf8(alias).value) == alias;
    }
  }

  lemma ReadBackEntry(codec: Codec, data: Bytes, at: nat, format: Format, version: u32, entry: nat, e: StoreEntry)
    requires WellFramed(e) && At(data, at, WriteEntry(version, e))
    ensures TagAt(data, at) == Some(EntryTag(e))
    ensures
      var r := ReadEntry(codec, data, at, format, version, entry);
      && r.certificates == AcceptedEntry(codec, format, version, e)
      && r.problems == RejectedEntry(codec, version, e, entry)
      && r.next == at + |WriteEntry(version, e)| && r.whole
  {
    hide AliasOf, IsText, Fault, DecodeModifiedUtf8, EntryBody, WriteContent, AcceptedEntry, ReadOpening;
    ReadBackOpening(data, at, EntryTag(e), e.alias, e.date, WriteContent(version, e));
    AliasReads(codec, e.alias);
    ReadBackContent(codec, data, at + 14 + |e.alias|, Label(format, version, entry, AliasOf(codec, e.alias)), e);
  }

  function Keys(entries: seq<StoreEntry>): nat {
    if entries == [] then 0 else (if entries[0].PrivateKey? then 1 else 0) + Keys(entries[1..])
  }

  ghost predicate ReadsBackAs(
    r: Entries, codec: Codec, format: Format, version: u32, entry: nat, entries: seq<StoreEntry>, next: nat)
  {
    && r.certificates == Accepted(codec, format, version, entries)
    && r.problems == Rejected(codec, version, entries, entry)
    && r.next == next
    && r.whole && r.keys == Keys(entries) && r.trusted == |entries| - Keys(entries)
  }

  lemma ReadsBackMore(
    one: Entries, rest: Entries, codec: Codec, format: Format, version: u32, entry: nat, entries: seq<StoreEntry>,
    next: nat)
    requires entries != []
    requires one.certificates == AcceptedEntry(codec, format, version, entries[0])
    requires one.problems == RejectedEntry(codec, version, entries[0], entry)
    requires if entries[0].PrivateKey? then one.keys == 1 && one.trusted == 0 else one.keys == 0 && one.trusted == 1
    requires ReadsBackAs(rest, codec, format, version, entry + 1, entries[1..], next)
    ensures ReadsBackAs(Continue(one, rest), codec, format, version, entry, entries, next)
  {
  }

  lemma NothingReadsBack(codec: Codec, format: Format, version: u32, entry: nat, at: nat)
    ensures ReadsBackAs(NoEntries(at), codec, format, version, entry, [], at)
  {
  }

  lemma {:induction false} ReadBackEntries(
    codec: Codec, data: Bytes, at: nat, format: Format, version: u32, entry: nat, entries: seq<StoreEntry>, count: nat,
    next: nat)
    requires AllWellFramed(entries) && At(data, at, WriteEntries(version, entries))
    requires count == entry + |entries| && next == at + |WriteEntries(version, entries)|
    ensures ReadsBackAs(EntriesFrom(codec, data, at, format, version, entry, count), codec, format, version, entry,
                        entries, next)
    decreases |entries|
  {
    hide WriteEntry, ReadEntry, TagAt, WellFramed, AcceptedEntry, RejectedEntry, Continue, ReadsBackAs;
    if entries == [] {
      NothingReadsBack(codec, format, version, entry, at);
    } else {
      var first := WriteEntry(version, entries[0]);
      AtSplit(data, at, first, WriteEntries(version, entries[1..]));
      ReadBackEntry(codec, data, at, format, version, entry, entries[0]);
      ReadBackEntries(codec, data, at + |first|, format, version, entry + 1, entries[1..], count, next);
      ReadsBackMore(OneEntry(ReadEntry(codec, data, at, format, version, entry), TagAt(data, at)),
                    EntriesFrom(codec, data, at + |first|, format, version, entry + 1, count),
                    codec, format, version, entry, entries, next);
    }
  }

  lemma {:induction false} KeysCount(entries: seq<StoreEntry>)
    ensures Keys(entries) <= |entries|
    ensures Keys(entries) == 0 <==> forall i :: 0 <= i < |entries| ==> entries[i].Trusted?
  {
    if entries != [] {
      KeysCount(entries[1..]);
      assert forall i :: 1 <= i < |entries| ==> entries[i] == entries[1..][i - 1];
    }
  }

  lemma {:induction false} NoRejectedChain(codec: Codec, version: u32, entry: nat, chain: seq<Record>, index: nat)
    ensures RejectedChain(codec, version, entry, chain, index) == [] <==>
            forall i :: 0 <= i < |chain| ==> Fault(codec, version, chain[i]).None?
    decreases |chain|
  {
    hide Fault;
    if chain != [] {
      NoRejectedChain(codec, version, entry, chain[1..], index + 1);
      assert forall i :: 1 <= i < |chain| ==> chain[i] == chain[1..][i - 1];
    }
  }

  lemma {:induction false} NoRejected(codec: Codec, version: u32, entries: seq<StoreEntry>, entry: nat)
    ensures Rejected(codec, version, entries, entry) == [] <==> AllAccepted(codec, version, entries)
    decreases |entries|
  {
    hide Fault, IsText, AliasOf;
    if entries != [] {
      if entries[0].PrivateKey? {
        NoRejectedChain(codec, version, entry, entries[0].chain, 0);
      }
      NoRejected(codec, version, entries[1..], entry + 1);
      assert forall i :: 1 <= i < |entries| ==> entries[i] == entries[1..][i - 1];
    }
  }

  /** Round trip with fault isolation: of every well-framed store, under every MAC,
      exactly the certificates of the type X.509 that the oracle accepts come back, in
      order, with alias, entry type and place in the chain; a rejected one costs only
      itself, and an alias that is no text is repaired and costs no certificate. The
      error is nil exactly when all are accepted, every alias is a text, and there is at
      least one certificate. */
  lemma RoundTrip(codec: Codec, format: Format, version: u32, entries: seq<StoreEntry>, mac: Bytes)
    requires ValidStore(version, entries, mac)
    ensures
      var parsed := Parse(codec, WriteStore(format, version, entries, mac));
      var found := Accepted(codec, format, version, entries);
      && parsed.certificates == Mark(found, IsTruststore(entries))
      && parsed.problems == Rejected(codec, version, entries, 0) + (if found == [] then [NoCertificates] else [])
      && (parsed.problems == [] <==> AllAccepted(codec, version, entries) && found != [])
  {
    var data := WriteStore(format, version, entries, mac);
    var body := data[..|data| - MAC_SIZE];
    var magic := if format.JKS? then JKS_MAGIC else JCEKS_MAGIC;
    assert body == Put32(magic) + (Put32(version) + (Put32(|entries|) + WriteEntries(version, entries)));
    ReadBackHeader(body, magic, version, |entries|, WriteEntries(version, entries));
    assert data[..4] == body[0..4];
    ReadBackBody(codec, body, format, version, entries);
  }

  lemma ReadBackHeader(body: Bytes, magic: u32, version: u32, count: u32, written: Bytes)
    requires body == Put32(magic) + (Put32(version) + (Put32(count) + written))
    ensures Get32(body[0..4]) == magic && Get32(body[4..8]) == version && Get32(body[8..12]) == count
    ensures At(body, 12, written) && |body| == 12 + |written|
  {
    assert At(body, 0, body);
    AtSplit(body, 0, Put32(magic), Put32(version) + (Put32(count) + written));
    AtSplit(body, 4, Put32(version), Put32(count) + written);
    AtSplit(body, 8, Put32(count), written);
    GetPut32(magic);
    GetPut32(version);
    GetPut32(count);
  }

  lemma ReadBackBody(codec: Codec, body: Bytes, format: Format, version: u32, entries: seq<StoreEntry>)
    requires (version == 1 || version == 2) && 0 < |entries| < 0x1_0000_0000 && AllWellFramed(entries)
    requires At(body, 12, WriteEntries(version, entries)) && |body| == 12 + |WriteEntries(version, entries)|
    requires Get32(body[4..8]) == version && Get32(body[8..12]) == |entries|
    ensures
      var parsed, found := ParseBody(codec, body, format), Accepted(codec, format, version, entries);
      && parsed.certificates == Mark(found, IsTruststore(entries))
      && parsed.problems == Rejected(codec, version, entries, 0) + (if found == [] then [NoCertificates] else [])
      && (parsed.problems == [] <==> AllAccepted(codec, version, entries) && found != [])
  {
    ReadBackEntries(codec, body, 12, format, version, 0, entries, |entries|, |body|);
    KeysCount(entries);
    NoRejected(codec, version, entries, 0);
  }

  // ------------------------------------------------ faults cost nothing before them

  /** A store that announces `count` entries and holds some, and then anything. */
  function WriteFaulty(
    format: Format, version: u32, count: u32, entries: seq<StoreEntry>, rest: Bytes, mac: Bytes): Bytes
    requires AllWellFramed(entries)
  {
    Put32(if format.JKS? then JKS_MAGIC else JCEKS_MAGIC) + (Put32(version) + (Put32(count)
    + (WriteEntries(version, entries) + rest))) + mac
  }

  /** No entry can be read at the head of these bytes: they are too few for its opening
      fields, or its tag is neither that of a private key nor that of a trusted
      certificate. */
  predicate NoEntry(rest: Bytes) {
    |rest| < 14 || (Get32(rest[..4]) != 1 && Get32(rest[..4]) != 2)
  }

  /** A run that begins with what was found and rejected, and goes on with a tail. */
  predicate ComesFirst(r: Entries, found: seq<KeystoreCertificate>, rejected: seq<Problem>, tail: Entries) {
    && r.certificates == found + tail.certificates && r.problems == rejected + tail.problems
    && r.next == tail.next && r.whole == tail.whole
  }

  lemma {:induction false} WrittenComeFirst(
    codec: Codec, data: Bytes, at: nat, format: Format, version: u32, entry: nat, entries: seq<StoreEntry>, count: nat,
    end: nat)
    requires AllWellFramed(entries) && At(data, at, WriteEntries(version, entries))
    requires end == at + |WriteEntries(version, entries)| && count >= entry + |entries|
    ensures ComesFirst(EntriesFrom(codec, data, at, format, version, entry, count),
                       Accepted(codec, format, version, entries), Rejected(codec, version, entries, entry),
                       EntriesFrom(codec, data, end, format, version, entry + |entries|, count))
    decreases |entries|
  {
    hide WriteEntry, ReadEntry, TagAt, WellFramed, AcceptedEntry, RejectedEntry, ComesFirst, Continue;
    if entries == [] {
      NothingComesFirst(EntriesFrom(codec, data, at, format, version, entry, count));
    } else {
      var first := WriteEntry(version, entries[0]);
      AtSplit(data, at, first, WriteEntries(version, entries[1..]));
      ReadBackEntry(codec, data, at, format, version, entry, entries[0]);
      WrittenComeFirst(codec, data, at + |first|, format, version, entry + 1, entries[1..], count, end);
      OneMoreComesFirst(OneEntry(ReadEntry(codec, data, at, format, version, entry), TagAt(data, at)),
                        EntriesFrom(codec, data, at + |first|, format, version, entry + 1, count),
                        Accepted(codec, format, version, entries[1..]),
                        Rejected(codec, version, entries[1..], entry + 1),
                        EntriesFrom(codec, data, end, format, version, entry + |entries|, count));
    }
  }

  lemma NothingComesFirst(r: Entries)
    ensures ComesFirst(r, [], [], r)
  {
  }

  lemma OneMoreComesFirst(
    one: Entries, r: Entries, found: seq<KeystoreCertificate>, rejected: seq<Problem>, tail: Entries)
    requires ComesFirst(r, found, rejected, tail)
    ensures ComesFirst(Continue(one, r), one.certificates + found, one.problems + rejected, tail)
  {
  }

  lemma NoEntryStops(
    codec: Codec, data: Bytes, at: nat, format: Format, version: u32, entry: nat, count: nat, rest: Bytes)
    requires at <= |data| && rest == data[at..] && entry < count && NoEntry(rest)
    ensures
      var r := EntriesFrom(codec, data, at, format, version, entry, count);
      r.certificates == [] && r.problems != [] && !r.whole
  {
    if |rest| >= 14 {
      assert data[at..at + 4] == rest[..4];
    }
  }

  /** The parse of such a store. */
  lemma FaultyReads(
    codec: Codec, format: Format, version: u32, count: u32, entries: seq<StoreEntry>, rest: Bytes, mac: Bytes)
    returns (body: Bytes, end: nat, run: Entries)
    requires (version == 1 || version == 2) && 0 < count && |entries| <= count && |mac| == MAC_SIZE
    requires AllWellFramed(entries)
    ensures end + |rest| == |body| && body[end..] == rest && run.next <= |body|
    ensures Parse(codec, WriteFaulty(format, version, count, entries, rest, mac)) == Conclude(run, |body|)
    ensures ComesFirst(run, Accepted(codec, format, version, entries), Rejected(codec, version, entries, 0),
                       EntriesFrom(codec, body, end, format, version, |entries|, count))
  {
    hide EntriesFrom, WriteEntries, Accepted, Rejected, Conclude, ComesFirst;
    var data := WriteFaulty(format, version, count, entries, rest, mac);
    body := data[..|data| - MAC_SIZE];
    var magic := if format.JKS? then JKS_MAGIC else JCEKS_MAGIC;
    var written := WriteEntries(version, entries);
    end := 12 + |written|;
    assert body == Put32(magic) + (Put32(version) + (Put32(count) + (written + rest)));
    ReadBackHeader(body, magic, version, count, written + rest);
    assert data[..4] == body[0..4];
    AtSplit(body, 12, written, rest);
    run := EntriesFrom(codec, body, 12, format, version, 0, count);
    WrittenComeFirst(codec, body, 12, format, version, 0, entries, count, end);
  }

  /** Whatever follows some well-framed entries, their certificates and problems come
      first. Nothing else comes when no entry can be read there; and when no more entries
      were announced, the bytes left over are an error, and no certificate is marked as a
      truststore's. */
  lemma FaultsKeepWhatCameBefore(
    codec: Codec, format: Format, version: u32, count: u32, entries: seq<StoreEntry>, rest: Bytes, mac: Bytes)
    requires (version == 1 || version == 2) && 0 < count && |entries| <= count && |mac| == MAC_SIZE
    requires AllWellFramed(entries)
    ensures
      var parsed := Parse(codec, WriteFaulty(format, version, count, entries, rest, mac));
      var found, rejected := Accepted(codec, format, version, entries), Rejected(codec, version, entries, 0);
      && Unmarked(found) <= Unmarked(parsed.certificates) && rejected <= parsed.problems
      && (NoEntry(rest) && |entries| < count ==> parsed.certificates == found && rejected < parsed.problems)
      && (rest != [] && |entries| == count ==>
            parsed.certificates == found && parsed.problems == rejected + [UnexpectedBytes(|rest|)])
  {
    hide WriteFaulty, Accepted, Rejected, NoEntry, ReadEntry;
    var body, end, run := FaultyReads(codec, format, version, count, entries, rest, mac);
    ConclusionKeepsCertificates(run, |body|);
    if NoEntry(rest) && |entries| < count {
      NoEntryStops(codec, body, end, format, version, |entries|, count, rest);
    }
  }

  // ------------------------------------------------------- and nothing within a chain

  /** A private-key entry that announces `length` certificates, with some of them. */
  function WriteBegun(
    version: u32, alias: Bytes, date: Bytes, key: Bytes, length: u32, chain: seq<Record>): Bytes
    requires |alias| < 0x1_0000 && |date| == 8 && Fits32(key) && AllFit(chain)
  {
    Put32(1)
    + (WriteShort(alias) + (date + (Put32(|key|) + (key + (Put32(length) + WriteChain(version, chain))))))
  }

  lemma {:induction false} RecordsComeFirst(
    codec: Codec, data: Bytes, at: nat, owner: Label, index: nat, chain: seq<Record>, count: nat)
    requires AllFit(chain) && At(data, at, WriteChain(owner.version, chain)) && count >= index + |chain|
    ensures AcceptedChain(codec, owner.format, owner.version, owner.alias, chain, index)
         <= ChainFrom(codec, data, at, owner, index, count).certificates
    decreases |chain|
  {
    hide WriteCertificate, ReadCertificate, Fault, RecordFits;
    if chain != [] {
      var first := WriteCertificate(owner.version, chain[0]);
      AtSplit(data, at, first, WriteChain(owner.version, chain[1..]));
      ReadBackCertificate(codec, data, at, owner.version, chain[0]);
      RecordsComeFirst(codec, data, at + |first|, owner, index + 1, chain[1..], count);
      PrefixBehind(ChainRecord(ReadCertificate(codec, data, at, owner.version), at, owner, index).certificates,
                   AcceptedChain(codec, owner.format, owner.version, owner.alias, chain[1..], index + 1),
                   ChainFrom(codec, data, at + |first|, owner, index + 1, count).certificates);
    }
  }

  lemma PrefixBehind<T>(a: seq<T>, b: seq<T>, c: seq<T>)
    requires b <= c
    ensures a + b <= a + c
  {
  }

  lemma CountedRecordsComeFirst(
    codec: Codec, data: Bytes, at: nat, owner: Label, start: nat, length: u32, chain: seq<Record>, written: Bytes)
    requires start <= at && AllFit(chain) && |chain| <= length && written == WriteChain(owner.version, chain)
    requires At(data, at, Put32(length) + written)
    ensures AcceptedChain(codec, owner.format, owner.version, owner.alias, chain, 0)
         <= CountedChainBody(codec, data, at, owner, start).certificates
  {
    hide AcceptedChain, WriteChain, ChainFrom;
    AtSplit(data, at, Put32(length), written);
    GetPut32(length);
    RecordsComeFirst(codec, data, at + 4, owner, 0, chain, length);
  }

  lemma KeyRecordsComeFirst(
    codec: Codec, data: Bytes, at: nat, owner: Label, key: Bytes, length: u32, chain: seq<Record>)
    requires Fits32(key) && AllFit(chain) && |chain| <= length
    requires At(data, at, Put32(|key|) + (key + (Put32(length) + WriteChain(owner.version, chain))))
    ensures AcceptedChain(codec, owner.format, owner.version, owner.alias, chain, 0)
         <= PrivateKeyBody(codec, data, at, owner).certificates
  {
    hide AcceptedChain, WriteChain, CountedChainBody, Put32, Get32, RecordFits, At;
    var written := WriteChain(owner.version, chain);
    ReadBackKey(data, at, key, Put32(length) + written);
    CountedRecordsComeFirst(codec, data, at + 4 + |key|, owner, at, length, chain, written);
  }

  lemma BegunEntry(
    codec: Codec, data: Bytes, at: nat, format: Format, version: u32, entry: nat, alias: Bytes, date: Bytes, key: Bytes,
    length: u32, chain: seq<Record>)
    requires |alias| < 0x1_0000 && |date| == 8 && Fits32(key) && AllFit(chain) && |chain| <= length
    requires At(data, at, WriteBegun(version, alias, date, key, length, chain))
    ensures AcceptedChain(codec, format, version, AliasOf(codec, alias), chain, 0)
         <= ReadEntry(codec, data, at, format, version, entry).certificates
  {
    hide AliasOf, IsText, DecodeModifiedUtf8, WriteChain, AcceptedChain, ReadOpening, Alias, PrivateKeyBody, Put32,
         WriteShort, RecordFits, TrustedBody, At;
    var rest := Put32(|key|) + (key + (Put32(length) + WriteChain(version, chain)));
    ReadBackOpening(data, at, 1, alias, date, rest);
    AliasReads(codec, alias);
    KeyRecordsComeFirst(codec, data, at + 14 + |alias|, Label(format, version, entry, AliasOf(codec, alias)), key,
                        length, chain);
  }

  /** Whatever follows some records of a chain, their certificates are kept, after those
      of the entries before. */
  lemma ChainFaultsKeepWhatCameBefore(
    codec: Codec, format: Format, version: u32, count: u32, entries: seq<StoreEntry>, alias: Bytes, date: Bytes,
    key: Bytes, length: u32, chain: seq<Record>, rest: Bytes, mac: Bytes)
    requires (version == 1 || version == 2) && |entries| < count && |mac| == MAC_SIZE && AllWellFramed(entries)
    requires |alias| < 0x1_0000 && |date| == 8 && Fits32(key) && AllFit(chain) && |chain| <= length
    ensures
      var begun := WriteBegun(version, alias, date, key, length, chain);
      var parsed := Parse(codec, WriteFaulty(format, version, count, entries, begun + rest, mac));
      var found := Accepted(codec, format, version, entries)
                   + AcceptedChain(codec, format, version, AliasOf(codec, alias), chain, 0);
      Unmarked(found) <= Unmarked(parsed.certificates)
  {
    hide WriteFaulty, Accepted, AcceptedChain, Rejected, ReadEntry, WriteBegun, AliasOf;
    var begun := WriteBegun(version, alias, date, key, length, chain);
    var body, end, run := FaultyReads(codec, format, version, count, entries, begun + rest, mac);
    ConclusionKeepsCertificates(run, |body|);
    assert body[end..end + |begun|] == (begun + rest)[..|begun|] == begun;
    BegunEntry(codec, body, end, format, version, |entries|, alias, date, key, length, chain);
    assert Accepted(codec, format, version, entries)
           + AcceptedChain(codec, format, version, AliasOf(codec, alias), chain, 0) <= run.certificates;
  }

  // ----------------------------------------------------- a nil error means written

  lemma AtJoin(whole: Bytes, at: nat, left: Bytes, right: Bytes)
    requires At(whole, at, left) && At(whole, at + |left|, right)
    ensures At(whole, at, left + right)
  {
    assert whole[at..at + |left + right|] == whole[at..at + |left|] + whole[at + |left|..at + |left| + |right|];
  }

  lemma AtSlice(whole: Bytes, at: nat, to: nat)
    requires at <= to <= |whole|
    ensures At(whole, at, whole[at..to])
  {
  }

  lemma Number32WasWritten(data: Bytes, at: nat)
    requires at + 4 <= |data|
    ensures At(data, at, Put32(Get32(data[at..at + 4])))
  {
    PutGet32(data[at..at + 4]);
    AtSlice(data, at, at + 4);
  }

  lemma ShortWasWritten(data: Bytes, at: nat)
    requires at + 2 <= |data| && at + 2 + Get16(data[at..at + 2]) <= |data|
    ensures At(data, at, WriteShort(data[at + 2..at + 2 + Get16(data[at..at + 2])]))
  {
    hide Get16, Put16;
    var n := Get16(data[at..at + 2]);
    PutGet16(data[at..at + 2]);
    AtSlice(data, at, at + 2);
    AtSlice(data, at + 2, at + 2 + n);
    AtJoin(data, at, data[at..at + 2], data[at + 2..at + 2 + n]);
  }

  lemma DerWasWritten(codec: Codec, data: Bytes, at: nat, typed: bool)
    requires at <= |data| && ReadDer(codec, data, at, typed).Found?
    ensures
      var r := ReadDer(codec, data, at, typed);
      && typed && codec.accepts(r.der) && Fits32(r.der) && r.next == at + 4 + |r.der|
      && At(data, at, Put32(|r.der|) + r.der)
  {
    hide Get32, Put32;
    var der := ReadDer(codec, data, at, typed).der;
    Number32WasWritten(data, at);
    AtSlice(data, at + 4, at + 4 + |der|);
    AtJoin(data, at, Put32(|der|), der);
  }

  lemma {:induction false} EncodingIsBounded(text: Text)
    ensures |TextUnits(text)| <= 2 * |text|
    ensures |EncodeModifiedUtf8(text)| <= 6 * |text|
  {
    EncodedUnitsAreBounded(TextUnits(text));
    if text != [] {
      EncodingIsBounded(text[1..]);
    }
  }

  lemma {:induction false} EncodedUnitsAreBounded(units: seq<u16>)
    ensures |EncodeUnits(units)| <= 3 * |units|
  {
    if units != [] {
      EncodedUnitsAreBounded(units[1..]);
    }
  }

  lemma TypeFits()
    ensures |EncodeModifiedUtf8(X509_TYPE)| < 0x1_0000
  {
    EncodingIsBounded(X509_TYPE);
  }

  lemma CertificateWasWritten(codec: Codec, data: Bytes, at: nat, version: u32) returns (record: Record)
    requires at <= |data| && ReadCertificate(codec, data, at, version).Found?
    ensures
      var r := ReadCertificate(codec, data, at, version);
      && RecordFits(record) && record.der == r.der && Fault(codec, version, record).None?
      && r.next == at + |WriteCertificate(version, record)| && At(data, at, WriteCertificate(version, record))
  {
    hide EncodeModifiedUtf8, DecodeModifiedUtf8, Get16, Put16, ReadDer, IsX509Type, NamesX509;
    var der := ReadCertificate(codec, data, at, version).der;
    if version != 2 {
      DerWasWritten(codec, data, at, true);
      TypeFits();
      record := Record(X509_TYPE, der);
      assert [] + (Put32(|der|) + der) == Put32(|der|) + der;
    } else {
      var n: int := Get16(data[at..at + 2]);
      var kind := data[at + 2..at + 2 + n];
      var name := DecodeModifiedUtf8(kind).value;
      ModifiedUtf8Bijective(kind, name);
      ShortWasWritten(data, at);
      DerWasWritten(codec, data, at + 2 + n, IsX509Type(name));
      TypeNames(name);
      record := Record(name, der);
      AtJoin(data, at, WriteShort(kind), Put32(|der|) + der);
    }
  }

  lemma {:induction false} ChainWasWritten(codec: Codec, data: Bytes, at: nat, owner: Label, index: nat, count: nat)
    returns (chain: seq<Record>)
    requires at <= |data| && index <= count && ChainFrom(codec, data, at, owner, index, count).problems == []
    ensures
      var r := ChainFrom(codec, data, at, owner, index, count);
      && r.whole && |chain| == count - index && AllFit(chain)
      && (forall i :: 0 <= i < |chain| ==> Fault(codec, owner.version, chain[i]).None?)
      && r.next == at + |WriteChain(owner.version, chain)| && At(data, at, WriteChain(owner.version, chain))
    decreases count - index
  {
    hide ReadCertificate, WriteCertificate, Fault, RecordFits;
    if index == count {
      chain := [];
    } else {
      var record := CertificateWasWritten(codec, data, at, owner.version);
      var next := ReadCertificate(codec, data, at, owner.version).next;
      var rest := ChainWasWritten(codec, data, next, owner, index + 1, count);
      chain := [record] + rest;
      assert chain[1..] == rest;
      AtJoin(data, at, WriteCertificate(owner.version, record), WriteChain(owner.version, rest));
    }
  }

  /** The body of an entry that gives no problem, with the alias and date found before it. */
  lemma BodyWasWritten(
    codec: Codec, data: Bytes, at: nat, owner: Label, tag: u32, alias: Bytes, date: Bytes) returns (e: StoreEntry)
    requires at <= |data| && EntryBody(codec, data, at, owner, tag).problems == [] && |date| == 8
    requires |alias| < 0x1_0000 && IsText(alias)
    ensures
      var r := EntryBody(codec, data, at, owner, tag);
      && e.alias == alias && e.date == date && WellFramed(e) && EntryTag(e) == tag && r.whole
      && EntryAccepted(codec, owner.version, e) && r.next == at + |WriteContent(owner.version, e)|
      && At(data, at, WriteContent(owner.version, e))
  {
    hide ReadCertificate, WriteCertificate, WriteChain, ChainFrom, Get32, Put32, Fault, RecordFits, IsText;
    if tag == 1 {
      var n := Get32(data[at..at + 4]);
      var key, after := data[at + 4..at + 4 + n], at + 4 + n;
      var count := Get32(data[after..after + 4]);
      var chain := ChainWasWritten(codec, data, after + 4, owner, 0, count);
      e := PrivateKey(alias, date, key, chain);
      var written := WriteChain(owner.version, chain);
      Number32WasWritten(data, at);
      Number32WasWritten(data, after);
      AtSlice(data, at + 4, after);
      AtJoin(data, after, Put32(count), written);
      AtJoin(data, at + 4, key, Put32(count) + written);
      AtJoin(data, at, Put32(n), key + (Put32(count) + written));
    } else {
      var record := CertificateWasWritten(codec, data, at, owner.version);
      e := Trusted(alias, date, record);
    }
  }

  lemma EntryWasWritten(codec: Codec, data: Bytes, at: nat, format: Format, version: u32, entry: nat)
    returns (e: StoreEntry)
    requires at <= |data| && ReadEntry(codec, data, at, format, version, entry).problems == []
    ensures
      var r := ReadEntry(codec, data, at, format, version, entry);
      && WellFramed(e) && EntryAccepted(codec, version, e) && r.whole
      && r.next == at + |WriteEntry(version, e)| && At(data, at, WriteEntry(version, e))
  {
    hide EntryBody, WriteContent, Get16, Get32, Put32, DecodeModifiedUtf8, IsText, Alias;
    var n := Get16(data[at + 4..at + 6]);
    var alias := data[at + 6..at + 6 + n];
    var body := at + 6 + n + 8;
    var date, tag := data[at + 6 + n..body], Get32(data[at..at + 4]);
    AliasReads(codec, alias);
    Number32WasWritten(data, at);
    ShortWasWritten(data, at + 4);
    AtSlice(data, at + 6 + n, body);
    e := BodyWasWritten(codec, data, body, Label(format, version, entry, Alias(codec, alias)), tag, alias, date);
    var content := WriteContent(version, e);
    AtJoin(data, at + 6 + n, date, content);
    AtJoin(data, at + 4, WriteShort(alias), date + content);
    AtJoin(data, at, Put32(tag), WriteShort(alias) + (date + content));
  }

  lemma {:induction false} EntriesWereWritten(
    codec: Codec, data: Bytes, at: nat, format: Format, version: u32, entry: nat, count: nat)
    returns (entries: seq<StoreEntry>)
    requires at <= |data| && entry <= count
    requires EntriesFrom(codec, data, at, format, version, entry, count).problems == []
    ensures
      var r := EntriesFrom(codec, data, at, format, version, entry, count);
      && r.whole && |entries| == count - entry && AllWellFramed(entries) && AllAccepted(codec, version, entries)
      && r.next == at + |WriteEntries(version, entries)| && At(data, at, WriteEntries(version, entries))
    decreases count - entry
  {
    hide ReadEntry, WriteEntry, WellFramed, EntryAccepted, TagAt;
    if entry == count {
      entries := [];
    } else {
      var e := EntryWasWritten(codec, data, at, format, version, entry);
      var next := ReadEntry(codec, data, at, format, version, entry).next;
      var rest := EntriesWereWritten(codec, data, next, format, version, entry + 1, count);
      entries := [e] + rest;
      assert entries[1..] == rest;
      AtJoin(data, at, WriteEntry(version, e), WriteEntries(version, rest));
    }
  }

  /** A store of some entries, all of whose certificates are accepted, and at least one. */
  ghost predicate WellWritten(
    codec: Codec, data: Bytes, format: Format, version: u32, entries: seq<StoreEntry>, mac: Bytes)
  {
    && ValidStore(version, entries, mac) && data == WriteStore(format, version, entries, mac)
    && AllAccepted(codec, version, entries) && Accepted(codec, format, version, entries) != []
  }

  /** The store up to its MAC. */
  function WriteBody(format: Format, version: u32, entries: seq<StoreEntry>): Bytes
    requires |entries| < 0x1_0000_0000 && AllWellFramed(entries)
  {
    Put32(if format.JKS? then JKS_MAGIC else JCEKS_MAGIC)
    + (Put32(version) + (Put32(|entries|) + WriteEntries(version, entries)))
  }

  lemma HeaderWasWritten(body: Bytes, format: Format, version: u32, entries: seq<StoreEntry>)
    requires |body| >= 12 && |entries| < 0x1_0000_0000 && AllWellFramed(entries)
    requires Get32(body[..4]) == (if format.JKS? then JKS_MAGIC else JCEKS_MAGIC)
    requires Get32(body[4..8]) == version && Get32(body[8..12]) == |entries|
    requires At(body, 12, WriteEntries(version, entries)) && |body| == 12 + |WriteEntries(version, entries)|
    ensures body == WriteBody(format, version, entries)
  {
    hide WriteEntries, Get32, Put32, AllWellFramed;
    var written := WriteEntries(version, entries);
    Number32WasWritten(body, 0);
    Number32WasWritten(body, 4);
    Number32WasWritten(body, 8);
    AtJoin(body, 8, Put32(|entries|), written);
    AtJoin(body, 4, Put32(version), Put32(|entries|) + written);
    AtJoin(body, 0, Put32(if format.JKS? then JKS_MAGIC else JCEKS_MAGIC),
           Put32(version) + (Put32(|entries|) + written));
    assert body == body[0..|body|];
  }

  lemma StoreWasWritten(codec: Codec, data: Bytes)
    returns (format: Format, version: u32, entries: seq<StoreEntry>, mac: Bytes)
    requires Parse(codec, data).problems == []
    ensures WellWritten(codec, data, format, version, entries, mac)
  {
    hide EntriesFrom, WriteEntries, Get32, Put32, AllWellFramed, AllAccepted, Accepted, WriteBody;
    format := DetectJavaKeystore(data).value;
    var body := data[..|data| - MAC_SIZE];
    mac := data[|data| - MAC_SIZE..];
    version := Get32(body[4..8]);
    entries := EntriesWereWritten(codec, body, 12, format, version, 0, Get32(body[8..12]));
    assert data[..4] == body[..4];
    HeaderWasWritten(body, format, version, entries);
    assert data == WriteStore(format, version, entries, mac) by {
      StoreIsBodyAndMac(format, version, entries, mac);
    }
    RoundTrip(codec, format, version, entries, mac);
  }

  lemma StoreIsBodyAndMac(format: Format, version: u32, entries: seq<StoreEntry>, mac: Bytes)
    requires ValidStore(version, entries, mac)
    ensures WriteStore(format, version, entries, mac) == WriteBody(format, version, entries) + mac
  {
  }

  /** The error is nil exactly for the stores a writer produces from entries whose aliases
      are texts and whose certificates are all accepted, at least one: whatever else stands in a store, where
      reading it stops, or what follows it, is an error. */
  lemma NilErrorMeansWritten(codec: Codec, data: Bytes)
    ensures Parse(codec, data).problems == [] <==>
            exists format: Format, version: u32, entries: seq<StoreEntry>, mac: Bytes ::
              WellWritten(codec, data, format, version, entries, mac)
  {
    hide Parse, WriteStore, ValidStore, AllAccepted, Accepted;
    if Parse(codec, data).problems == [] {
      var format, version, entries, mac := StoreWasWritten(codec, data);
    }
    if format: Format, version: u32, entries: seq<StoreEntry>, mac: Bytes :|
      WellWritten(codec, data, format, version, entries, mac)
    {
      RoundTrip(codec, format, version, entries, mac);
    }
  }

  // ---------------------------------------------------- key bytes are never read

  /** `b` agrees with `a` from an offset up to `to`; where the reader had to look at
      the end of `a`, the two also end together. */
  predicate Agree(a: Bytes, b: Bytes, from: nat, to: nat, toTheEnd: bool) {
    && to <= |a| && to <= |b|
    && (toTheEnd ==> |a| == |b| == to)
    && forall k :: from <= k < to ==> a[k] == b[k]
  }

  lemma AgreeSlice(a: Bytes, b: Bytes, from: nat, to: nat)
    requires from <= to <= |a| && to <= |b|
    requires forall k :: from <= k < to ==> a[k] == b[k]
    ensures a[from..to] == b[from..to]
  {
  }

  predicate AgreeOnCertificate(r: CertificateRead, a: Bytes, b: Bytes, at: nat) {
    if r.Fatal? then Agree(a, b, at, |a|, true) else Agree(a, b, at, r.next, false)
  }

  predicate AgreeOnStretch(r: Stretch, a: Bytes, b: Bytes, at: nat) {
    if r.whole then Agree(a, b, at, r.next, false) else Agree(a, b, at, |a|, true)
  }

  lemma DerLocal(codec: Codec, a: Bytes, b: Bytes, at: nat, typed: bool)
    requires at <= |a| && at <= |b|
    requires AgreeOnCertificate(ReadDer(codec, a, at, typed), a, b, at)
    ensures ReadDer(codec, a, at, typed) == ReadDer(codec, b, at, typed)
  {
    if at + 4 <= |a| {
      AgreeSlice(a, b, at, at + 4);
      var length := Get32(a[at..at + 4]);
      if length <= |a| - (at + 4) {
        AgreeSlice(a, b, at + 4, at + 4 + length);
      }
    }
  }

  lemma CertificateLocal(codec: Codec, a: Bytes, b: Bytes, at: nat, version: u32)
    requires at <= |a| && at <= |b|
    requires AgreeOnCertificate(ReadCertificate(codec, a, at, version), a, b, at)
    ensures ReadCertificate(codec, a, at, version) == ReadCertificate(codec, b, at, version)
  {
    hide ReadDer, Get16, DecodeModifiedUtf8;
    if version != 2 {
      DerLocal(codec, a, b, at, true);
    } else if at + 2 <= |a| {
      AgreeSlice(a, b, at, at + 2);
      var length := Get16(a[at..at + 2]);
      if length <= |a| - (at + 2) {
        AgreeSlice(a, b, at + 2, at + 2 + length);
        var name := DecodeModifiedUtf8(a[at + 2..at + 2 + length]);
        if name.Some? {
          DerLocal(codec, a, b, at + 2 + length, IsX509Type(name.value));
        }
      }
    }
  }

  lemma {:induction false} ChainLocal(codec: Codec, a: Bytes, b: Bytes, at: nat, owner: Label, index: nat, count: nat)
    requires at <= |a| && at <= |b| && index <= count
    requires AgreeOnStretch(ChainFrom(codec, a, at, owner, index, count), a, b, at)
    ensures ChainFrom(codec, a, at, owner, index, count) == ChainFrom(codec, b, at, owner, index, count)
    decreases count - index
  {
    if index < count {
      CertificateLocal(codec, a, b, at, owner.version);
      var read := ReadCertificate(codec, a, at, owner.version);
      if !read.Fatal? {
        ChainLocal(codec, a, b, read.next, owner, index + 1, count);
      }
    }
  }

  /** The position lies in the key blob of the private-key entry at `at`. */
  predicate InKeyBlob(data: Bytes, at: nat, position: nat)
    requires at <= |data|
  {
    match ReadOpening(data, at)
    case Unopened(_) => false
    case Opening(tag, _, start) =>
      && tag == 1
      && InBlob(data, start, position)
  }

  /** The position lies in the length-prefixed blob at `at`. */
  predicate InBlob(data: Bytes, at: nat, position: nat)
    requires at <= |data|
  {
    at + 4 <= position && at + 4 <= |data| && position < at + 4 + Get32(data[at..at + 4]) <= |data|
  }

  /** The position lies in the key blob of some entry the parser reaches. */
  predicate InSomeKeyBlob(
    codec: Codec, data: Bytes, at: nat, format: Format, version: u32, entry: nat, count: nat, position: nat)
    requires at <= |data| && entry <= count
    decreases count - entry
  {
    entry < count
    && (InKeyBlob(data, at, position)
        || var here := ReadEntry(codec, data, at, format, version, entry);
           here.whole && InSomeKeyBlob(codec, data, here.next, format, version, entry + 1, count, position))
  }

  lemma {:induction false} KeyBlobsLieAhead(
    codec: Codec, data: Bytes, at: nat, format: Format, version: u32, entry: nat, count: nat, position: nat)
    requires at <= |data| && entry <= count
    requires InSomeKeyBlob(codec, data, at, format, version, entry, count, position)
    ensures at + 18 <= position
    decreases count - entry
  {
    if !InKeyBlob(data, at, position) {
      var here := ReadEntry(codec, data, at, format, version, entry);
      KeyBlobsLieAhead(codec, data, here.next, format, version, entry + 1, count, position);
    }
  }

  predicate AgreeOutsideBlob(a: Bytes, b: Bytes, at: nat, to: nat)
    requires at <= |a|
  {
    to <= |a| == |b| && forall k :: at <= k < to && !InKeyBlob(a, at, k) ==> a[k] == b[k]
  }

  lemma OpeningLocal(a: Bytes, b: Bytes, at: nat, to: nat)
    requires at <= |a| && AgreeOutsideBlob(a, b, at, to)
    requires if ReadOpening(a, at).Opening? then ReadOpening(a, at).next <= to else to == |a|
    ensures ReadOpening(a, at) == ReadOpening(b, at)
    ensures forall entry, why :: ReadOpening(a, at) == Unopened(why) ==>
              OpeningProblems(a, at, entry, why) == OpeningProblems(b, at, entry, why)
  {
    if at + 6 <= |a| {
      AgreeSlice(a, b, at, at + 4);
      AgreeSlice(a, b, at + 4, at + 6);
      var length := Get16(a[at + 4..at + 6]);
      if length <= |a| - (at + 6) {
        AgreeSlice(a, b, at + 6, at + 6 + length);
      }
    }
  }

  lemma CountedChainLocal(codec: Codec, a: Bytes, b: Bytes, at: nat, owner: Label, start: nat)
    requires start <= at <= |a| && at <= |b|
    requires AgreeOnStretch(CountedChainBody(codec, a, at, owner, start), a, b, at)
    ensures CountedChainBody(codec, a, at, owner, start) == CountedChainBody(codec, b, at, owner, start)
  {
    if at + 4 <= |a| {
      AgreeSlice(a, b, at, at + 4);
      ChainLocal(codec, a, b, at + 4, owner, 0, Get32(a[at..at + 4]));
    }
  }

  /** A private-key body reads alike in two stores that agree on its two length
      fields and on its chain. */
  lemma KeyBodyLocal(codec: Codec, a: Bytes, b: Bytes, at: nat, owner: Label)
    requires at <= |a| == |b|
    requires
      var r := PrivateKeyBody(codec, a, at, owner);
      forall k :: at <= k < (if r.whole then r.next else |a|) && !InBlob(a, at, k) ==> a[k] == b[k]
    ensures PrivateKeyBody(codec, a, at, owner) == PrivateKeyBody(codec, b, at, owner)
  {
    hide CountedChainBody, Get32;
    if at + 4 <= |a| {
      AgreeSlice(a, b, at, at + 4);
      var chain := at + 4 + Get32(a[at..at + 4]);
      if chain <= |a| {
        CountedChainLocal(codec, a, b, chain, owner, at);
      }
    }
  }

  lemma BodyLocal(codec: Codec, a: Bytes, b: Bytes, at: nat, start: nat, aliasBytes: Bytes, owner: Label, tag: u32)
    requires at <= |a| && ReadOpening(a, at) == Opening(tag, aliasBytes, start)
    requires
      var r := EntryBody(codec, a, start, owner, tag);
      AgreeOutsideBlob(a, b, at, if r.whole then r.next else |a|)
    ensures EntryBody(codec, a, start, owner, tag) == EntryBody(codec, b, start, owner, tag)
  {
    if tag == 1 {
      assert forall k: nat :: InKeyBlob(a, at, k) <==> InBlob(a, start, k);
      KeyBodyLocal(codec, a, b, start, owner);
    } else if tag == 2 {
      CertificateLocal(codec, a, b, start, owner.version);
    }
  }

  /** One entry reads alike in two stores that agree on it outside its key blob. */
  lemma EntryLocal(codec: Codec, a: Bytes, b: Bytes, at: nat, format: Format, version: u32, entry: nat)
    requires at <= |a|
    requires
      var r := ReadEntry(codec, a, at, format, version, entry);
      AgreeOutsideBlob(a, b, at, if r.whole then r.next else |a|)
    ensures ReadEntry(codec, a, at, format, version, entry) == ReadEntry(codec, b, at, format, version, entry)
    ensures TagAt(a, at) == TagAt(b, at)
  {
    var r := ReadEntry(codec, a, at, format, version, entry);
    OpeningLocal(a, b, at, if r.whole then r.next else |a|);
    if ReadOpening(a, at).Opening? {
      var Opening(tag, aliasBytes, start) := ReadOpening(a, at);
      BodyLocal(codec, a, b, at, start, aliasBytes, Label(format, version, entry, Alias(codec, aliasBytes)), tag);
    }
  }

  predicate AgreeOutsideKeys(
    codec: Codec, a: Bytes, b: Bytes, at: nat, format: Format, version: u32, entry: nat, count: nat)
    requires at <= |a| && entry <= count
  {
    |a| == |b|
    && forall k :: at <= k < |a| && !InSomeKeyBlob(codec, a, at, format, version, entry, count, k) ==> a[k] == b[k]
  }

  lemma AgreeOnFirst(codec: Codec, a: Bytes, b: Bytes, at: nat, format: Format, version: u32, entry: nat, count: nat)
    requires at <= |a| && entry < count && AgreeOutsideKeys(codec, a, b, at, format, version, entry, count)
    ensures
      var r := ReadEntry(codec, a, at, format, version, entry);
      AgreeOutsideBlob(a, b, at, if r.whole then r.next else |a|)
  {
    var r := ReadEntry(codec, a, at, format, version, entry);
    forall k | at <= k < (if r.whole then r.next else |a|) && !InKeyBlob(a, at, k) ensures a[k] == b[k] {
      if InSomeKeyBlob(codec, a, at, format, version, entry, count, k) {
        KeyBlobsLieAhead(codec, a, r.next, format, version, entry + 1, count, k);
      }
    }
  }

  lemma AgreeOnRest(codec: Codec, a: Bytes, b: Bytes, at: nat, format: Format, version: u32, entry: nat, count: nat)
    requires at <= |a| && entry < count && AgreeOutsideKeys(codec, a, b, at, format, version, entry, count)
    requires ReadEntry(codec, a, at, format, version, entry).whole
    ensures AgreeOutsideKeys(codec, a, b, ReadEntry(codec, a, at, format, version, entry).next, format, version,
                             entry + 1, count)
  {
  }

  lemma {:induction false} EntriesIgnoreKeys(
    codec: Codec, a: Bytes, b: Bytes, at: nat, format: Format, version: u32, entry: nat, count: nat)
    requires at <= |a| && entry <= count && AgreeOutsideKeys(codec, a, b, at, format, version, entry, count)
    ensures EntriesFrom(codec, a, at, format, version, entry, count) ==
            EntriesFrom(codec, b, at, format, version, entry, count)
    decreases count - entry
  {
    if entry < count {
      AgreeOnFirst(codec, a, b, at, format, version, entry, count);
      EntryLocal(codec, a, b, at, format, version, entry);
      var here := ReadEntry(codec, a, at, format, version, entry);
      if here.whole {
        AgreeOnRest(codec, a, b, at, format, version, entry, count);
        EntriesIgnoreKeys(codec, a, b, here.next, format, version, entry + 1, count);
      }
    }
  }

  /** The bytes of a store that may differ: its private-key blobs, as the parser
      finds them, and its MAC. */
  predicate Unread(codec: Codec, data: Bytes, position: nat)
    requires |data| >= MINIMUM_FILE_BYTES
  {
    var body := data[..|data| - MAC_SIZE];
    |body| <= position < |data|
    || (12 <= position < |body| &&
        InSomeKeyBlob(codec, body, 12, JKS, Get32(body[4..8]), 0, Get32(body[8..12]), position))
  }

  /** Which bytes are key bytes does not depend on the magic number. */
  lemma {:induction false} KeyBlobsOfAnyFormat(
    codec: Codec, data: Bytes, at: nat, f: Format, g: Format, version: u32, entry: nat, count: nat, position: nat)
    requires at <= |data| && entry <= count
    ensures InSomeKeyBlob(codec, data, at, f, version, entry, count, position)
        <==> InSomeKeyBlob(codec, data, at, g, version, entry, count, position)
    decreases count - entry
  {
    if entry < count {
      EntryOfAnyFormat(codec, data, at, f, g, version, entry);
      var here := ReadEntry(codec, data, at, f, version, entry);
      if here.whole {
        KeyBlobsOfAnyFormat(codec, data, here.next, f, g, version, entry + 1, count, position);
      }
    }
  }

  lemma EntryOfAnyFormat(codec: Codec, data: Bytes, at: nat, f: Format, g: Format, version: u32, entry: nat)
    requires at <= |data|
    ensures
      var rf, rg := ReadEntry(codec, data, at, f, version, entry), ReadEntry(codec, data, at, g, version, entry);
      rf.whole == rg.whole && rf.next == rg.next
  {
    if ReadOpening(data, at).Opening? {
      var Opening(tag, aliasBytes, start) := ReadOpening(data, at);
      if tag == 1 {
        var alias := Alias(codec, aliasBytes);
        KeyBodyOfAnyFormat(codec, data, start, Label(f, version, entry, alias), Label(g, version, entry, alias));
      }
    }
  }

  lemma KeyBodyOfAnyFormat(codec: Codec, data: Bytes, at: nat, f: Label, g: Label)
    requires at <= |data| && f.version == g.version
    ensures
      var rf, rg := PrivateKeyBody(codec, data, at, f), PrivateKeyBody(codec, data, at, g);
      rf.whole == rg.whole && rf.next == rg.next
  {
    hide CountedChainBody, Get32;
    if at + 4 <= |data| {
      var chain := at + 4 + Get32(data[at..at + 4]);
      if chain <= |data| {
        CountedChainOfAnyFormat(codec, data, chain, f, g, at);
      }
    }
  }

  lemma CountedChainOfAnyFormat(codec: Codec, data: Bytes, at: nat, f: Label, g: Label, start: nat)
    requires start <= at <= |data| && f.version == g.version
    ensures
      var rf, rg := CountedChainBody(codec, data, at, f, start), CountedChainBody(codec, data, at, g, start);
      rf.whole == rg.whole && rf.next == rg.next
  {
    hide ChainFrom, Get32;
    if at + 4 <= |data| {
      ChainOfAnyFormat(codec, data, at + 4, f, g, 0, Get32(data[at..at + 4]));
    }
  }

  lemma {:induction false} ChainOfAnyFormat(
    codec: Codec, data: Bytes, at: nat, f: Label, g: Label, index: nat, count: nat)
    requires at <= |data| && index <= count && f.version == g.version
    ensures
      var rf, rg := ChainFrom(codec, data, at, f, index, count), ChainFrom(codec, data, at, g, index, count);
      rf.whole == rg.whole && rf.next == rg.next
    decreases count - index
  {
    if index < count {
      var read := ReadCertificate(codec, data, at, f.version);
      if !read.Fatal? {
        ChainOfAnyFormat(codec, data, read.next, f, g, index + 1, count);
      }
    }
  }

  lemma BodiesIgnoreKeys(codec: Codec, a: Bytes, b: Bytes, format: Format)
    requires |a| == |b| >= 12 && a[..12] == b[..12]
    requires AgreeOutsideKeys(codec, a, b, 12, format, Get32(a[4..8]), 0, Get32(a[8..12]))
    ensures ParseBody(codec, a, format) == ParseBody(codec, b, format)
  {
    assert a[4..8] == a[..12][4..8] == b[4..8];
    assert a[8..12] == a[..12][8..12] == b[8..12];
    EntriesIgnoreKeys(codec, a, b, 12, format, Get32(a[4..8]), 0, Get32(a[8..12]));
  }

  lemma UnreadInBody(codec: Codec, a: Bytes, b: Bytes, format: Format)
    requires |a| == |b| >= MINIMUM_FILE_BYTES
    requires forall k :: 0 <= k < |a| && !Unread(codec, a, k) ==> a[k] == b[k]
    ensures
      var body := a[..|a| - MAC_SIZE];
      AgreeOutsideKeys(codec, body, b[..|b| - MAC_SIZE], 12, format, Get32(body[4..8]), 0, Get32(body[8..12]))
  {
    var body := a[..|a| - MAC_SIZE];
    var version, count := Get32(body[4..8]), Get32(body[8..12]);
    forall k | 12 <= k < |body| && !InSomeKeyBlob(codec, body, 12, format, version, 0, count, k) ensures a[k] == b[k] {
      KeyBlobsOfAnyFormat(codec, body, 12, format, JKS, version, 0, count, k);
      assert !Unread(codec, a, k);
    }
  }

  /** Two stores of the same length that differ only inside private-key blobs and
      in the MAC give the same certificates and the same errors. */
  lemma KeysAndMacAreNotRead(codec: Codec, a: Bytes, b: Bytes)
    requires |a| == |b| >= MINIMUM_FILE_BYTES
    requires forall k :: 0 <= k < |a| && !Unread(codec, a, k) ==> a[k] == b[k]
    ensures Parse(codec, a) == Parse(codec, b)
  {
    forall k | 0 <= k < 12 ensures a[k] == b[k] {
      assert !Unread(codec, a, k);
    }
    assert a[..4] == b[..4];
    var format := DetectJavaKeystore(a);
    if format.Some? {
      UnreadInBody(codec, a, b, format.value);
      var bodyA, bodyB := a[..|a| - MAC_SIZE], b[..|b| - MAC_SIZE];
      assert bodyA[..12] == bodyB[..12];
      BodiesIgnoreKeys(codec, bodyA, bodyB, format.value);
    }
  }

  // ------------------------------------------------------------------ truncation

  /** What comes out of a stretch of a store cut short: the same, if the stretch was
      still complete, and otherwise some of its certificates. */
  predicate CutOf(short: Stretch, full: Stretch) {
    if short.whole then short == full else short.certificates <= full.certificates
  }

  lemma CertificateOfPrefix(codec: Codec, cut: Bytes, data: Bytes, at: nat, version: u32)
    requires cut <= data && at <= |cut|
    ensures
      var r := ReadCertificate(codec, cut, at, version);
      r.Fatal? || r == ReadCertificate(codec, data, at, version)
  {
    if !ReadCertificate(codec, cut, at, version).Fatal? {
      CertificateLocal(codec, cut, data, at, version);
    }
  }

  lemma {:induction false} ChainOfPrefix(
    codec: Codec, cut: Bytes, data: Bytes, at: nat, owner: Label, index: nat, count: nat)
    requires cut <= data && at <= |cut| && index <= count
    ensures CutOf(ChainFrom(codec, cut, at, owner, index, count), ChainFrom(codec, data, at, owner, index, count))
    decreases count - index
  {
    if index < count {
      CertificateOfPrefix(codec, cut, data, at, owner.version);
      var read := ReadCertificate(codec, cut, at, owner.version);
      if !read.Fatal? {
        ChainOfPrefix(codec, cut, data, read.next, owner, index + 1, count);
      }
    }
  }

  lemma OpeningOfPrefix(cut: Bytes, data: Bytes, at: nat)
    requires cut <= data && at <= |cut|
    ensures var r := ReadOpening(cut, at); r.Unopened? || r == ReadOpening(data, at)
  {
  }

  lemma CountedChainOfPrefix(codec: Codec, cut: Bytes, data: Bytes, at: nat, owner: Label, start: nat)
    requires cut <= data && start <= at <= |cut|
    ensures CutOf(CountedChainBody(codec, cut, at, owner, start), CountedChainBody(codec, data, at, owner, start))
  {
    if at + 4 <= |cut| {
      AgreeSlice(cut, data, at, at + 4);
      ChainOfPrefix(codec, cut, data, at + 4, owner, 0, Get32(cut[at..at + 4]));
    }
  }

  lemma KeyBodyOfPrefix(codec: Codec, cut: Bytes, data: Bytes, at: nat, owner: Label)
    requires cut <= data && at <= |cut|
    ensures CutOf(PrivateKeyBody(codec, cut, at, owner), PrivateKeyBody(codec, data, at, owner))
  {
    hide CountedChainBody, Get32;
    if at + 4 <= |cut| {
      AgreeSlice(cut, data, at, at + 4);
      var chain := at + 4 + Get32(cut[at..at + 4]);
      if chain <= |cut| {
        CountedChainOfPrefix(codec, cut, data, chain, owner, at);
      }
    }
  }

  lemma EntryOfPrefix(codec: Codec, cut: Bytes, data: Bytes, at: nat, format: Format, version: u32, entry: nat)
    requires cut <= data && at <= |cut|
    ensures CutOf(ReadEntry(codec, cut, at, format, version, entry), ReadEntry(codec, data, at, format, version, entry))
    ensures ReadEntry(codec, cut, at, format, version, entry).whole ==> TagAt(cut, at) == TagAt(data, at)
  {
    OpeningOfPrefix(cut, data, at);
    if ReadOpening(cut, at).Opening? {
      var Opening(tag, aliasBytes, start) := ReadOpening(cut, at);
      var owner := Label(format, version, entry, Alias(codec, aliasBytes));
      if tag == 1 {
        KeyBodyOfPrefix(codec, cut, data, start, owner);
      } else if tag == 2 {
        CertificateOfPrefix(codec, cut, data, start, version);
      }
    }
  }

  lemma {:induction false} EntriesOfPrefix(
    codec: Codec, cut: Bytes, data: Bytes, at: nat, format: Format, version: u32, entry: nat, count: nat)
    requires cut <= data && at <= |cut| && entry <= count
    ensures EntriesFrom(codec, cut, at, format, version, entry, count).certificates
         <= EntriesFrom(codec, data, at, format, version, entry, count).certificates
    decreases count - entry
  {
    if entry < count {
      EntryOfPrefix(codec, cut, data, at, format, version, entry);
      var here := ReadEntry(codec, cut, at, format, version, entry);
      if here.whole {
        EntriesOfPrefix(codec, cut, data, here.next, format, version, entry + 1, count);
      }
    }
  }

  /** The certificates with the truststore flag, which only a complete parse can
      set, taken out of consideration. */
  function Unmarked(certificates: seq<KeystoreCertificate>): seq<KeystoreCertificate> {
    Mark(certificates, false)
  }

  lemma ConclusionKeepsCertificates(run: Entries, size: nat)
    requires run.next <= size
    ensures Unmarked(Conclude(run, size).certificates) == Unmarked(run.certificates)
  {
  }

  lemma BodyOfPrefix(codec: Codec, cut: Bytes, body: Bytes, format: Format)
    requires cut <= body && |cut| >= 12
    ensures Unmarked(ParseBody(codec, cut, format).certificates)
         <= Unmarked(ParseBody(codec, body, format).certificates)
  {
    AgreeSlice(cut, body, 4, 8);
    AgreeSlice(cut, body, 8, 12);
    var version, count := Get32(cut[4..8]), Get32(cut[8..12]);
    if (version == 1 || version == 2) && count != 0 {
      EntriesOfPrefix(codec, cut, body, 12, format, version, 0, count);
      ConclusionKeepsCertificates(EntriesFrom(codec, cut, 12, format, version, 0, count), |cut|);
      ConclusionKeepsCertificates(EntriesFrom(codec, body, 12, format, version, 0, count), |body|);
    }
  }

  /** Cutting a store anywhere, and ending it with any MAC, keeps a prefix of its
      certificates. */
  lemma TruncationKeepsPrefix(codec: Codec, data: Bytes, cut: Bytes, mac: Bytes)
    requires |data| >= MAC_SIZE == |mac|
    requires cut <= data[..|data| - MAC_SIZE]
    ensures Unmarked(Parse(codec, cut + mac).certificates) <= Unmarked(Parse(codec, data).certificates)
  {
    var short := cut + mac;
    if |short| >= MINIMUM_FILE_BYTES {
      var body := data[..|data| - MAC_SIZE];
      assert short[..|short| - MAC_SIZE] == cut;
      assert short[..4] == cut[..4] && data[..4] == body[..4];
      AgreeSlice(cut, body, 0, 4);
      assert DetectJavaKeystore(short) == DetectJavaKeystore(data);
      if DetectJavaKeystore(data).Some? {
        BodyOfPrefix(codec, cut, body, DetectJavaKeystore(data).value);
      }
    }
  }
}
