/** The JKS/JCEKS reader of `internal/scanner/jks.go`: what it extracts from a
    file, stated on byte offsets, and the reader and parser themselves. */
module JavaKeystore {
  import opened Common
  import opened TextCodec

  const JKS_MAGIC: u32 := 0xFEEDFEED
  const JCEKS_MAGIC: u32 := 0xCECECECE
  const MAC_SIZE: nat := 20
  const MINIMUM_FILE_BYTES: nat := 12 + MAC_SIZE
  const X509_TYPE: Text := [0x58, 0x2E, 0x35, 0x30, 0x39]
  const X509_TYPE_LOWER: Text := [0x78, 0x2E, 0x35, 0x30, 0x39]

  datatype Format = JKS | JCEKS
  datatype EntryType = PrivateKeyEntry | TrustedCertEntry

  datatype KeystoreCertificate = KeystoreCertificate(
    der: Bytes, format: Format, alias: Text, entryType: EntryType, chainIndex: nat, truststore: bool)

  datatype CertificateProblem =
    TypeField | TypeText | DerLength | DerBytes | UnsupportedType | NotX509

  datatype EntryProblem =
    | Tag | AliasField | AliasText | CreationDate | KeyLength | KeyBlob | ChainLength
    | ChainCertificate(index: nat, why: CertificateProblem)
    | TrustedCertificate(why: CertificateProblem)
    | SecretKey
    | UnsupportedTag(tag: u32)

  datatype Problem =
    | BadMagic | TruncatedHeader | UnsupportedVersion(version: u32) | ZeroEntries
    | InEntry(entry: nat, what: EntryProblem)
    | UnexpectedBytes(count: nat)
    | NoCertificates

  /** What the parser takes from outside: whether `x509.ParseCertificate` accepts
      a DER value, and how `strings.ToValidUTF8` repairs an undecodable alias. */
  datatype Codec = Codec(accepts: Bytes -> bool, repair: Bytes -> Text)

  /** Certificates found, and the problems joined into the returned error, in
      order. The error is nil exactly when there is no problem. */
  datatype Parsed = Parsed(certificates: seq<KeystoreCertificate>, problems: seq<Problem>)

  // -------------------------------------------------------------- certificates

  datatype CertificateRead =
    | Fatal(why: CertificateProblem)
    | Skipped(next: nat, why: CertificateProblem)
    | Found(next: nat, der: Bytes)

  predicate IsX509Type(name: Text) {
    name == X509_TYPE || name == X509_TYPE_LOWER
  }

  /** The DER part of a certificate record, once its type is known. */
  function ReadDer(codec: Codec, data: Bytes, at: nat, typed: bool): (r: CertificateRead)
    requires at <= |data|
    ensures !r.Fatal? ==> at + 4 <= r.next <= |data|
  {
    if at + 4 > |data| then Fatal(DerLength)
    else
      var length := Get32(data[at..at + 4]);
      if length > |data| - (at + 4) then Fatal(DerBytes)
      else
        var der, next := data[at + 4..at + 4 + length], at + 4 + length;
        if !typed then Skipped(next, UnsupportedType)
        else if !codec.accepts(der) then Skipped(next, NotX509)
        else Found(next, der)
  }

  function ReadCertificate(codec: Codec, data: Bytes, at: nat, version: u32): (r: CertificateRead)
    requires at <= |data|
    ensures !r.Fatal? ==> at + 4 <= r.next <= |data|
  {
    if version != 2 then ReadDer(codec, data, at, true)
    else if at + 2 > |data| then Fatal(TypeField)
    else
      var length := Get16(data[at..at + 2]);
      if length > |data| - (at + 2) then Fatal(TypeField)
      else
        var name := DecodeModifiedUtf8(data[at + 2..at + 2 + length]);
        if name.None? then Fatal(TypeText)
        else ReadDer(codec, data, at + 2 + length, IsX509Type(name.value))
  }

  /** What is common to the certificates of one entry. */
  datatype Label = Label(format: Format, version: u32, entry: nat, alias: Text)

  /** A stretch of the store: what it contributed, where it ended, and whether the
      parser may go on from there. `records` counts certificate records read. */
  datatype Stretch = Stretch(
    certificates: seq<KeystoreCertificate>, problems: seq<Problem>, next: nat, whole: bool, records: nat)

  /** A stretch followed by another. */
  function Join(first: Stretch, rest: Stretch): Stretch {
    Stretch(first.certificates + rest.certificates, first.problems + rest.problems, rest.next, rest.whole,
            first.records + rest.records)
  }

  /** What one chain record contributes. */
  function ChainRecord(read: CertificateRead, at: nat, owner: Label, index: nat): Stretch {
    match read
    case Fatal(why) => Stretch([], [InEntry(owner.entry, ChainCertificate(index, why))], at, false, 0)
    case Skipped(next, why) => Stretch([], [InEntry(owner.entry, ChainCertificate(index, why))], next, true, 1)
    case Found(next, der) => Stretch([Extracted(owner, der, PrivateKeyEntry, index)], [], next, true, 1)
  }

  function ChainFrom(codec: Codec, data: Bytes, at: nat, owner: Label, index: nat, count: nat): (r: Stretch)
    requires at <= |data| && index <= count
    ensures at + 4 * r.records <= r.next <= |data|
    ensures r.whole ==> r.records == count - index
    decreases count - index
  {
    if index == count then Stretch([], [], at, true, 0)
    else
      var one := ChainRecord(ReadCertificate(codec, data, at, owner.version), at, owner, index);
      if one.whole then Join(one, ChainFrom(codec, data, one.next, owner, index + 1, count)) else one
  }

  function Extracted(owner: Label, der: Bytes, entryType: EntryType, index: nat): KeystoreCertificate {
    KeystoreCertificate(der, owner.format, owner.alias, entryType, index, false)
  }

  // ------------------------------------------------------------------- entries

  /** The fields every entry starts with. */
  datatype Opening = Opening(tag: u32, aliasBytes: Bytes, next: nat) | Unopened(why: EntryProblem)

  function ReadOpening(data: Bytes, at: nat): (r: Opening)
    requires at <= |data|
    ensures r.Opening? ==> at + 14 <= r.next <= |data|
  {
    if at + 4 > |data| then Unopened(Tag)
    else if at + 6 > |data| then Unopened(AliasField)
    else
      var length := Get16(data[at + 4..at + 6]);
      if length > |data| - (at + 6) then Unopened(AliasField)
      else if at + 6 + length + 8 > |data| then Unopened(CreationDate)
      else Opening(Get32(data[at..at + 4]), data[at + 6..at + 6 + length], at + 6 + length + 8)
  }

  function Alias(codec: Codec, aliasBytes: Bytes): Text {
    var text := DecodeModifiedUtf8(aliasBytes);
    if text.Some? then text.value else codec.repair(aliasBytes)
  }

  function AliasProblems(entry: nat, aliasBytes: Bytes): seq<Problem> {
    if DecodeModifiedUtf8(aliasBytes).Some? then [] else [InEntry(entry, AliasText)]
  }

  /** Where an alias does not decode, its problem is reported only if the date
      after it is there or its absence is what stops the parser. */
  function OpeningProblems(data: Bytes, at: nat, entry: nat, why: EntryProblem): seq<Problem>
    requires at <= |data|
    requires ReadOpening(data, at) == Unopened(why)
  {
    if why == CreationDate
    then AliasProblems(entry, data[at + 6..at + 6 + Get16(data[at + 4..at + 6])]) + [InEntry(entry, why)]
    else [InEntry(entry, why)]
  }

  /** The key blob and chain of a private-key entry. */
  function PrivateKeyBody(codec: Codec, data: Bytes, at: nat, owner: Label): (r: Stretch)
    requires at <= |data|
    ensures at + 4 * r.records <= r.next <= |data|
  {
    if at + 4 > |data| then Stretch([], [InEntry(owner.entry, KeyLength)], at, false, 0)
    else
      var length := Get32(data[at..at + 4]);
      if length > |data| - (at + 4) then Stretch([], [InEntry(owner.entry, KeyBlob)], at, false, 0)
      else CountedChainBody(codec, data, at + 4 + length, owner, at)
  }

  function CountedChainBody(codec: Codec, data: Bytes, at: nat, owner: Label, start: nat): (r: Stretch)
    requires start <= at <= |data|
    ensures start + 4 * r.records <= r.next <= |data|
    ensures r.whole ==> at + 4 <= r.next
  {
    if at + 4 > |data| then Stretch([], [InEntry(owner.entry, ChainLength)], start, false, 0)
    else ChainFrom(codec, data, at + 4, owner, 0, Get32(data[at..at + 4]))
  }

  function TrustedBody(codec: Codec, data: Bytes, at: nat, owner: Label): (r: Stretch)
    requires at <= |data|
    ensures at + 4 * r.records <= r.next <= |data|
  {
    match ReadCertificate(codec, data, at, owner.version)
    case Fatal(why) => Stretch([], [InEntry(owner.entry, TrustedCertificate(why))], at, false, 0)
    case Skipped(next, why) => Stretch([], [InEntry(owner.entry, TrustedCertificate(why))], next, true, 1)
    case Found(next, der) => Stretch([Extracted(owner, der, TrustedCertEntry, 0)], [], next, true, 1)
  }

  function EntryBody(codec: Codec, data: Bytes, at: nat, owner: Label, tag: u32): (r: Stretch)
    requires at <= |data|
    ensures at + 4 * r.records <= r.next <= |data|
  {
    if tag == 1 then PrivateKeyBody(codec, data, at, owner)
    else if tag == 2 then TrustedBody(codec, data, at, owner)
    else Stretch([], [InEntry(owner.entry, if tag == 3 then SecretKey else UnsupportedTag(tag))], at, false, 0)
  }

  function ReadEntry(codec: Codec, data: Bytes, at: nat, format: Format, version: u32, entry: nat): (r: Stretch)
    requires at <= |data|
    ensures at + 4 * r.records <= r.next <= |data|
    ensures r.whole ==> at + 14 + 4 * r.records <= r.next
  {
    match ReadOpening(data, at)
    case Unopened(why) => Stretch([], OpeningProblems(data, at, entry, why), at, false, 0)
    case Opening(tag, aliasBytes, next) =>
      var body := EntryBody(codec, data, next, Label(format, version, entry, Alias(codec, aliasBytes)), tag);
      body.(problems := AliasProblems(entry, aliasBytes) + body.problems)
  }

  /** A run of entries, with the number completed and of each kind begun. */
  datatype Entries = Entries(
    certificates: seq<KeystoreCertificate>, problems: seq<Problem>, next: nat, whole: bool,
    completed: nat, records: nat, keys: nat, trusted: nat)

  function TagAt(data: Bytes, at: nat): Option<u32>
    requires at <= |data|
  {
    match ReadOpening(data, at)
    case Unopened(_) => None
    case Opening(tag, _, _) => Some(tag)
  }

  /** No entries, from an offset on. */
  function NoEntries(at: nat): Entries {
    Entries([], [], at, true, 0, 0, 0, 0)
  }

  /** One entry as a run. */
  function OneEntry(here: Stretch, tag: Option<u32>): Entries {
    Entries(here.certificates, here.problems, here.next, here.whole, if here.whole then 1 else 0, here.records,
            if tag == Some(1) then 1 else 0, if tag == Some(2) then 1 else 0)
  }

  /** Finished entries followed by the rest of them. */
  function Continue(done: Entries, rest: Entries): Entries {
    Entries(done.certificates + rest.certificates, done.problems + rest.problems, rest.next, rest.whole,
            done.completed + rest.completed, done.records + rest.records, done.keys + rest.keys,
            done.trusted + rest.trusted)
  }

  function EntriesFrom(
    codec: Codec, data: Bytes, at: nat, format: Format, version: u32, entry: nat, count: nat): (r: Entries)
    requires at <= |data| && entry <= count
    ensures at + 14 * r.completed + 4 * r.records <= r.next <= |data|
    ensures r.completed <= count - entry
    ensures r.whole <==> r.completed == count - entry
    decreases count - entry
  {
    if entry == count then NoEntries(at)
    else
      var one := OneEntry(ReadEntry(codec, data, at, format, version, entry), TagAt(data, at));
      if one.whole then Continue(one, EntriesFrom(codec, data, one.next, format, version, entry + 1, count))
      else one
  }

  // --------------------------------------------------------------- whole store

  function DetectJavaKeystore(data: Bytes): Option<Format> {
    if |data| < 4 then None
    else if Get32(data[..4]) == JKS_MAGIC then Some(JKS)
    else if Get32(data[..4]) == JCEKS_MAGIC then Some(JCEKS)
    else None
  }

  function Mark(certificates: seq<KeystoreCertificate>, truststore: bool): (r: seq<KeystoreCertificate>)
    ensures |r| == |certificates|
  {
    seq(|certificates|, i requires 0 <= i < |certificates| => certificates[i].(truststore := truststore))
  }

  /** The result once every entry has been visited or the parser has stopped. */
  function Conclude(run: Entries, size: nat): Parsed
    requires run.next <= size
  {
    if !run.whole then Parsed(run.certificates, run.problems)
    else if run.next != size then Parsed(run.certificates, run.problems + [UnexpectedBytes(size - run.next)])
    else
      Parsed(Mark(run.certificates, run.keys == 0 && run.trusted > 0),
             run.problems + if run.certificates == [] then [NoCertificates] else [])
  }

  function Parse(codec: Codec, data: Bytes): Parsed {
    var format := DetectJavaKeystore(data);
    if format.None? then Parsed([], [BadMagic])
    else if |data| < MINIMUM_FILE_BYTES then Parsed([], [TruncatedHeader])
    else ParseBody(codec, data[..|data| - MAC_SIZE], format.value)
  }

  /** The store without its MAC, which nothing looks at. */
  function ParseBody(codec: Codec, body: Bytes, format: Format): Parsed
    requires |body| >= 12
  {
    var version, count := Get32(body[4..8]), Get32(body[8..12]);
    if version != 1 && version != 2 then Parsed([], [UnsupportedVersion(version)])
    else if count == 0 then Parsed([], [ZeroEntries])
    else Conclude(EntriesFrom(codec, body, 12, format, version, 0, count), |body|)
  }

  // ---------------------------------------------------------------- the parser

  /** `javaKeystoreReader`: a cursor over the store without its MAC. */
  class JavaKeystoreReader {
    const data: Bytes
    var offset: nat

    constructor (data: Bytes)
      ensures this.data == data && offset == 0
    {
      this.data := data;
      this.offset := 0;
    }

    ghost predicate Valid()
      reads this
    {
      offset <= |data|
    }

    function Remaining(): nat
      requires Valid()
      reads this
    {
      |data| - offset
    }

    method Take(length: nat) returns (taken: Option<Bytes>)
      requires Valid()
      modifies this
      ensures Valid()
      ensures taken.Some? <==> old(offset) + length <= |data|
      ensures taken.Some? ==> offset == old(offset) + length && taken.value == data[old(offset)..offset]
      ensures taken.None? ==> offset == old(offset)
    {
      if length > Remaining() {
        return None;
      }
      var start := offset;
      offset := offset + length;
      return Some(data[start..offset]);
    }

    method TakeUint32() returns (value: Option<u32>)
      requires Valid()
      modifies this
      ensures Valid()
      ensures value.Some? <==> old(offset) + 4 <= |data|
      ensures value.Some? ==> value.value == Get32(data[old(offset)..old(offset) + 4]) && offset == old(offset) + 4
      ensures value.None? ==> offset == old(offset)
    {
      var taken := Take(4);
      if taken.None? {
        return None;
      }
      return Some(Get32(taken.value));
    }

    method TakePrefixed16() returns (value: Option<Bytes>)
      requires Valid()
      modifies this
      ensures Valid()
      ensures value.Some? <==>
        old(offset) + 2 <= |data| && Get16(data[old(offset)..old(offset) + 2]) <= |data| - (old(offset) + 2)
      ensures value.Some? ==>
        var length := Get16(data[old(offset)..old(offset) + 2]);
        && offset == old(offset) + 2 + length
        && value.value == data[old(offset) + 2..offset]
    {
      var length := Take(2);
      if length.None? {
        return None;
      }
      value := Take(Get16(length.value));
    }

    /** `certificate`: one certificate record at the cursor. */
    method Certificate(codec: Codec, version: u32) returns (r: CertificateRead)
      requires Valid()
      modifies this
      ensures Valid()
      ensures r == ReadCertificate(codec, data, old(offset), version)
      ensures !r.Fatal? ==> offset == r.next
    {
      if version != 2 {
        r := Der(codec, true);
        return;
      }
      var encoded := TakePrefixed16();
      if encoded.None? {
        return Fatal(TypeField);
      }
      var name := DecodeJavaModifiedUtf8(encoded.value);
      if name.None? {
        return Fatal(TypeText);
      }
      r := Der(codec, IsX509Type(name.value));
    }

    /** The length-prefixed DER value of a record. */
    method Der(codec: Codec, typed: bool) returns (r: CertificateRead)
      requires Valid()
      modifies this
      ensures Valid()
      ensures r == ReadDer(codec, data, old(offset), typed)
      ensures !r.Fatal? ==> offset == r.next
    {
      var length := TakeUint32();
      if length.None? {
        return Fatal(DerLength);
      }
      var der := Take(length.value);
      if der.None? {
        return Fatal(DerBytes);
      }
      if !typed {
        return Skipped(offset, UnsupportedType);
      }
      if !codec.accepts(der.value) {
        return Skipped(offset, NotX509);
      }
      return Found(offset, der.value);
    }

    /** The chain loop of a private-key entry. */
    method Chain(codec: Codec, owner: Label, count: nat) returns (r: Stretch)
      requires Valid()
      modifies this
      ensures Valid()
      ensures r == ChainFrom(codec, data, old(offset), owner, 0, count)
      ensures r.whole ==> offset == r.next
    {
      r := Stretch([], [], offset, true, 0);
      ghost var all := ChainFrom(codec, data, offset, owner, 0, count);
      JoinNothing(offset, all);
      var index := 0;
      while index < count
        invariant Valid() && index <= count && r.whole && r.next == offset
        invariant all == Join(r, ChainFrom(codec, data, offset, owner, index, count))
      {
        ghost var before := r;
        var at := offset;
        var read := Certificate(codec, owner.version);
        var one := ChainRecord(read, at, owner, index);
        r := Join(r, one);
        if read.Fatal? {
          return;
        }
        index := index + 1;
        JoinFurther(before, one, ChainFrom(codec, data, offset, owner, index, count));
      }
      assert r.certificates + [] == r.certificates && r.problems + [] == r.problems;
    }

    /** The body of the entry loop. */
    method Entry(codec: Codec, format: Format, version: u32, entry: nat) returns (r: Stretch, tag: Option<u32>)
      requires Valid()
      modifies this
      ensures Valid()
      ensures r == ReadEntry(codec, data, old(offset), format, version, entry)
      ensures tag == TagAt(data, old(offset))
      ensures r.whole ==> offset == r.next
    {
      hide EntryBody, DecodeModifiedUtf8, EncodeModifiedUtf8, Get16, Get32;
      var start := offset;
      var tagRead := TakeUint32();
      if tagRead.None? {
        return Stretch([], [InEntry(entry, Tag)], start, false, 0), None;
      }
      var aliasBytes := TakePrefixed16();
      if aliasBytes.None? {
        return Stretch([], [InEntry(entry, AliasField)], start, false, 0), None;
      }
      var problems: seq<Problem> := [];
      var decoded := DecodeJavaModifiedUtf8(aliasBytes.value);
      var alias;
      if decoded.None? {
        problems := [InEntry(entry, AliasText)];
        alias := codec.repair(aliasBytes.value);
      } else {
        alias := decoded.value;
      }
      var date := Take(8);
      if date.None? {
        return Stretch([], problems + [InEntry(entry, CreationDate)], start, false, 0), None;
      }
      var owner := Label(format, version, entry, alias);
      assert ReadOpening(data, start) == Opening(tagRead.value, aliasBytes.value, offset);
      tag := tagRead;
      r := Body(codec, owner, tagRead.value);
      r := r.(problems := problems + r.problems);
    }

    /** The switch on the tag. */
    method Body(codec: Codec, owner: Label, tag: u32) returns (r: Stretch)
      requires Valid()
      modifies this
      ensures Valid()
      ensures r == EntryBody(codec, data, old(offset), owner, tag)
      ensures r.whole ==> offset == r.next
    {
      hide ReadCertificate, PrivateKeyBody;
      if tag == 1 {
        r := PrivateKey(codec, owner);
      } else if tag == 2 {
        var at := offset;
        var read := Certificate(codec, owner.version);
        r := match read
          case Fatal(why) => Stretch([], [InEntry(owner.entry, TrustedCertificate(why))], at, false, 0)
          case Skipped(next, why) => Stretch([], [InEntry(owner.entry, TrustedCertificate(why))], next, true, 1)
          case Found(next, der) => Stretch([Extracted(owner, der, TrustedCertEntry, 0)], [], next, true, 1);
      } else if tag == 3 {
        r := Stretch([], [InEntry(owner.entry, SecretKey)], offset, false, 0);
      } else {
        r := Stretch([], [InEntry(owner.entry, UnsupportedTag(tag))], offset, false, 0);
      }
    }

    method PrivateKey(codec: Codec, owner: Label) returns (r: Stretch)
      requires Valid()
      modifies this
      ensures Valid()
      ensures r == PrivateKeyBody(codec, data, old(offset), owner)
      ensures r.whole ==> offset == r.next
    {
      var start := offset;
      var keyLength := TakeUint32();
      if keyLength.None? {
        return Stretch([], [InEntry(owner.entry, KeyLength)], start, false, 0);
      }
      var blob := Take(keyLength.value);
      if blob.None? {
        return Stretch([], [InEntry(owner.entry, KeyBlob)], start, false, 0);
      }
      r := CountedChain(codec, owner, start);
    }

    /** The declared chain length and the chain. */
    method CountedChain(codec: Codec, owner: Label, start: nat) returns (r: Stretch)
      requires Valid() && start <= offset
      modifies this
      ensures Valid()
      ensures r == CountedChainBody(codec, data, old(offset), owner, start)
      ensures r.whole ==> offset == r.next
    {
      var chainLength := TakeUint32();
      if chainLength.None? {
        return Stretch([], [InEntry(owner.entry, ChainLength)], start, false, 0);
      }
      r := Chain(codec, owner, chainLength.value);
    }

    /** The entry loop of `parseJavaKeystore`. */
    method AllEntries(codec: Codec, format: Format, version: u32, count: nat) returns (r: Entries)
      requires Valid()
      modifies this
      ensures Valid()
      ensures r == EntriesFrom(codec, data, old(offset), format, version, 0, count)
      ensures r.whole ==> offset == r.next
    {
      hide ReadEntry, TagAt;
      r := NoEntries(offset);
      ghost var all := EntriesFrom(codec, data, offset, format, version, 0, count);
      ContinueFromNothing(offset, all);
      var entry: nat := 0;
      while entry < count
        invariant Valid() && entry <= count
        invariant r.whole && r.next == offset
        invariant all == Continue(r, EntriesFrom(codec, data, offset, format, version, entry, count))
      {
        ghost var before := r;
        var here, tag := Entry(codec, format, version, entry);
        var one := OneEntry(here, tag);
        r := Continue(r, one);
        if !here.whole {
          return;
        }
        entry := entry + 1;
        ContinueFurther(before, one, EntriesFrom(codec, data, offset, format, version, entry, count));
      }
      ContinueNothing(r);
    }
  }

  lemma JoinNothing(at: nat, rest: Stretch)
    ensures Join(Stretch([], [], at, true, 0), rest) == rest
  {
  }

  lemma JoinFurther(a: Stretch, b: Stretch, c: Stretch)
    ensures Join(a, Join(b, c)) == Join(Join(a, b), c)
  {
  }

  lemma ContinueFurther(a: Entries, b: Entries, c: Entries)
    ensures Continue(a, Continue(b, c)) == Continue(Continue(a, b), c)
  {
  }

  lemma ContinueFromNothing(at: nat, rest: Entries)
    ensures Continue(NoEntries(at), rest) == rest
  {
  }

  lemma ContinueNothing(a: Entries)
    requires a.whole
    ensures Continue(a, NoEntries(a.next)) == a
  {
  }

  /** The final loop, which sets the truststore flag of every certificate. */
  method SetTruststore(
    unmarked: seq<KeystoreCertificate>, truststore: bool)
    returns (certificates: seq<KeystoreCertificate>)
    ensures certificates == Mark(unmarked, truststore)
  {
    certificates := unmarked;
    var index := 0;
    while index < |certificates|
      invariant index <= |certificates| == |unmarked|
      invariant forall i :: 0 <= i < index ==> certificates[i] == unmarked[i].(truststore := truststore)
      invariant forall i :: index <= i < |certificates| ==> certificates[i] == unmarked[i]
    {
      certificates := certificates[index := certificates[index].(truststore := truststore)];
      index := index + 1;
    }
  }

  /** `parseJavaKeystore`. */
  method ParseJavaKeystore(codec: Codec, data: Bytes) returns (parsed: Parsed)
    ensures parsed == Parse(codec, data)
  {
    var format := DetectJavaKeystore(data);
    if format.None? {
      return Parsed([], [BadMagic]);
    }
    if |data| < MINIMUM_FILE_BYTES {
      return Parsed([], [TruncatedHeader]);
    }
    parsed := ParseWithoutMac(codec, data[..|data| - MAC_SIZE], format.value);
  }

  method ParseWithoutMac(codec: Codec, body: Bytes, format: Format) returns (parsed: Parsed)
    requires |body| >= 12
    ensures parsed == ParseBody(codec, body, format)
  {
    hide EntriesFrom, Get32, Mark;
    var reader := new JavaKeystoreReader(body);
    var magic := reader.TakeUint32();
    var version := reader.TakeUint32();
    if version.value != 1 && version.value != 2 {
      return Parsed([], [UnsupportedVersion(version.value)]);
    }
    var count := reader.TakeUint32();
    if count.value == 0 {
      return Parsed([], [ZeroEntries]);
    }
    var run := reader.AllEntries(codec, format, version.value, count.value);
    if !run.whole {
      return Parsed(run.certificates, run.problems);
    }
    if reader.Remaining() != 0 {
      return Parsed(run.certificates, run.problems + [UnexpectedBytes(reader.Remaining())]);
    }
    var marked := SetTruststore(run.certificates, run.keys == 0 && run.trusted > 0);
    return Parsed(marked, run.problems + if run.certificates == [] then [NoCertificates] else []);
  }
}
