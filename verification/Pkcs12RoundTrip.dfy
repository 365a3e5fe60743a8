/** Reading back what a PKCS#12 writer produces (sections 4, 4.1 and 4.2 of RFC 7292;
    the writer is that of the parser's own tests): any tree of bags in any mix of
    plaintext and encrypted contents. */
module Pkcs12RoundTrip {
  import opened Common
  import opened TextCodec
  import opened Der
  import opened Pkcs12
  import opened Pkcs12Identifiers
  import opened Pkcs12Proofs

  // ---------------------------------------------------------------- what is written

  /** A bag; the empty name writes no attribute. The parser does not look into key
      material, nor into a bag of a type it does not know. */
  datatype Bag =
    | Cert(der: Bytes, name: Text)
    | Key(kind: KeyKind, value: Bytes, name: Text)
    | Unknown(id: Bytes, value: Bytes, name: Text)
    | Inner(bags: seq<Bag>)

  datatype Content = Plain(bags: seq<Bag>) | Encrypted(algorithm: Bytes, ciphertext: Bytes)

  /** An element with a one-octet identifier, of any length a length field can state. */
  function Element(identifier: byte, content: Bytes): (b: Bytes)
    ensures |b| > |content|
    ensures |content| < 0x8000_0000 ==> b == Wrap(identifier, content)
  {
    [identifier] + ((if |content| < 0x1_0000_0000_0000_0000 then LengthField(|content|) else []) + content)
  }

  function WriteNameSet(name: Text): Bytes {
    Element(0x31, Element(0x30, Element(6, OID_FRIENDLY_NAME) + Element(0x31, Element(0x1E, EncodeUtf16BE(name)))))
  }

  function WriteSafeBag(id: Bytes, value: Bytes, name: Text): (b: Bytes)
    ensures |b| > |value|
  {
    Element(0x30, Element(6, id) + (Element(0xA0, value) + if name == [] then [] else WriteNameSet(name)))
  }

  function WriteCertValue(der: Bytes): Bytes {
    Element(0x30, Element(6, OID_X509_CERTIFICATE) + Element(0xA0, Element(4, der)))
  }

  function WriteBag(bag: Bag): Bytes {
    match bag
    case Cert(der, name) => WriteSafeBag(BagIdentifier(3), WriteCertValue(der), name)
    case Key(kind, value, name) => WriteSafeBag(KeyIdentifier(kind), value, name)
    case Unknown(id, value, name) => WriteSafeBag(id, value, name)
    case Inner(bags) => WriteSafeBag(BagIdentifier(6), Element(0x30, WriteBags(bags)), [])
  }

  function WriteBags(bags: seq<Bag>): Bytes {
    if bags == [] then [] else WriteBag(bags[0]) + WriteBags(bags[1..])
  }

  function WriteContentInfo(kind: Bytes, content: Bytes): (b: Bytes)
    ensures |b| > |content|
  {
    Element(0x30, Element(6, kind) + Element(0xA0, content))
  }

  function WriteEncryptedInfo(algorithm: Bytes, ciphertext: Bytes): Bytes {
    Element(0x30,
            Element(6, OID_DATA) + (Element(0x30, Element(6, algorithm) + Element(5, [])) + Element(0x80, ciphertext)))
  }

  function WriteEncryptedData(algorithm: Bytes, ciphertext: Bytes): Bytes {
    Element(0x30, Element(2, [0]) + WriteEncryptedInfo(algorithm, ciphertext))
  }

  function WriteContent(content: Content): Bytes {
    match content
    case Plain(bags) => WriteContentInfo(OID_DATA, Element(4, Element(0x30, WriteBags(bags))))
    case Encrypted(algorithm, ciphertext) =>
      WriteContentInfo(OID_ENCRYPTED_DATA, WriteEncryptedData(algorithm, ciphertext))
  }

  function WriteContents(contents: seq<Content>): Bytes {
    if contents == [] then [] else WriteContent(contents[0]) + WriteContents(contents[1..])
  }

  function WriteAuthSafe(contents: seq<Content>): Bytes {
    WriteContentInfo(OID_DATA, Element(4, Element(0x30, WriteContents(contents))))
  }

  /** The file, with or without the MAC data nobody checks. */
  function WritePfx(contents: seq<Content>, mac: Option<Bytes>): Bytes {
    Element(0x30, Element(2, [3]) + (WriteAuthSafe(contents) + if mac.Some? then Element(0x30, mac.value) else []))
  }

  // ---------------------------------------------------------------- what is expected

  function BagFound(codec: Codec, bag: Bag): seq<Found> {
    match bag
    case Cert(der, name) =>
      [Found(if name == [] then Unnamed else Decoded(name), if codec.accepts(der) then Some(der) else None)]
    case Key(_, _, _) => []
    case Unknown(_, _, _) => []
    case Inner(bags) => BagsFound(codec, bags)
  }

  /** The certBags of a tree, depth first. */
  function BagsFound(codec: Codec, bags: seq<Bag>): seq<Found> {
    if bags == [] then [] else BagFound(codec, bags[0]) + BagsFound(codec, bags[1..])
  }

  function BagSize(bag: Bag): (n: nat)
    ensures n >= 1
  {
    match bag
    case Inner(bags) => 1 + BagsSize(bags)
    case _ => 1
  }

  function BagsSize(bags: seq<Bag>): (n: nat)
    ensures n >= |bags|
  {
    if bags == [] then 0 else BagSize(bags[0]) + BagsSize(bags[1..])
  }

  function BagKeys(bag: Bag): nat {
    match bag
    case Inner(bags) => BagsKeys(bags)
    case Key(_, _, _) => 1
    case Unknown(_, _, _) => 0
    case Cert(_, _) => 0
  }

  function BagsKeys(bags: seq<Bag>): nat {
    if bags == [] then 0 else BagKeys(bags[0]) + BagsKeys(bags[1..])
  }

  /** Well-formed bags nested no deeper than some levels. */
  predicate BagFits(bag: Bag, levels: int) {
    match bag
    case Cert(_, _) => true
    case Key(_, _, _) => true
    case Unknown(id, _, _) => id != [] && AllBase128(id) && IsUnknownIdentifier(id)
    case Inner(bags) => levels > 0 && BagsFit(bags, levels - 1)
  }

  predicate BagsFit(bags: seq<Bag>, levels: int) {
    bags == [] || (BagFits(bags[0], levels) && BagsFit(bags[1..], levels))
  }

  predicate AllAccepted(found: seq<Found>) {
    forall i :: 0 <= i < |found| ==> found[i].der.Some?
  }

  /** What reading some bags back must give. */
  predicate ReadsBack(r: Safe, found: seq<Found>, size: nat, keys: nat, chain: nat, bagCount: nat) {
    && r.certificates == Numbered(found, chain) && r.chain == chain + |found|
    && r.bagCount == bagCount + size && r.keyBags == keys && r.examined == size
    && (r.problems == [] <==> AllAccepted(found))
  }

  lemma ReadsBackThen(
    one: Safe, rest: Safe, f: seq<Found>, g: seq<Found>, m: nat, n: nat, k: nat, l: nat, chain: nat, bagCount: nat)
    requires ReadsBack(one, f, m, k, chain, bagCount) && ReadsBack(rest, g, n, l, one.chain, one.bagCount)
    ensures ReadsBack(Then(one, rest), f + g, m + n, k + l, chain, bagCount)
  {
    NumberedConcat(f, g, chain);
    assert AllAccepted(f + g) <==> AllAccepted(f) && AllAccepted(g) by {
      assert forall i :: 0 <= i < |f| ==> (f + g)[i] == f[i];
      assert forall i :: 0 <= i < |g| ==> (f + g)[|f| + i] == g[i];
    }
  }

  // ------------------------------------------------------------------ small elements

  /** A written element as the reader shows it. */
  function Item(identifier: byte, content: Bytes): (t: Tlv)
    ensures t.full == Element(identifier, content) && t.content == content
  {
    Tlv(identifier as int / 0x40, identifier % 0x20, identifier as int / 0x20 % 2 == 1, content,
        Element(identifier, content))
  }

  lemma ElementReads(identifier: byte, content: Bytes)
    requires |content| < 0x8000_0000 && identifier % 0x20 != 0x1F
    ensures ReadWhole(Element(identifier, content)) == Some(Item(identifier, content))
  {
    assert Wrap(identifier, content) + [] == Wrap(identifier, content);
    WrapReadsBack(identifier, content, []);
  }

  /** A SEQUENCE of two elements. */
  lemma TwoFields(a: byte, x: Bytes, b: byte, y: Bytes, maximum: nat)
    requires a % 0x20 != 0x1F && b % 0x20 != 0x1F && maximum >= 2
    requires |Element(a, x) + Element(b, y)| < 0x8000_0000
    ensures SequenceElements(Element(0x30, Element(a, x) + Element(b, y)), maximum) == Fields([Item(a, x), Item(b, y)])
  {
    hide Element, Item, SequenceElements, ReadWhole;
    ElementReads(a, x);
    ElementReads(b, y);
    var items := [Item(a, x), Item(b, y)];
    assert items[1..] == [Item(b, y)] && items[1..][1..] == [];
    assert Concat(items[1..]) == Element(b, y) + [] == Element(b, y);
    SequenceReadsBack(maximum, items);
  }

  lemma ThreeFields(a: byte, x: Bytes, b: byte, y: Bytes, c: byte, z: Bytes, maximum: nat)
    requires a % 0x20 != 0x1F && b % 0x20 != 0x1F && c % 0x20 != 0x1F && maximum >= 3
    requires |Element(a, x) + (Element(b, y) + Element(c, z))| < 0x8000_0000
    ensures SequenceElements(Element(0x30, Element(a, x) + (Element(b, y) + Element(c, z))), maximum)
         == Fields([Item(a, x), Item(b, y), Item(c, z)])
  {
    hide Element, Item, SequenceElements, ReadWhole;
    ElementReads(a, x);
    ElementReads(b, y);
    ElementReads(c, z);
    var items := [Item(a, x), Item(b, y), Item(c, z)];
    assert items[1..] == [Item(b, y), Item(c, z)] && items[1..][1..] == [Item(c, z)] && items[1..][1..][1..] == [];
    assert Concat(items[1..][1..]) == Element(c, z) + [] == Element(c, z);
    assert Concat(items[1..]) == Element(b, y) + Element(c, z);
    SequenceReadsBack(maximum, items);
  }

  lemma {:induction false} SmallArcs(b: Bytes)
    requires forall i :: 0 <= i < |b| ==> b[i] < 0x80
    ensures AllBase128(b)
  {
    if b != [] {
      SmallArcs(b[1..]);
    }
  }

  /** An arc of one, two or three octets in front of others. */
  lemma ArcThen(first: Bytes, rest: Bytes)
    requires AllBase128(rest) && 1 <= |first| <= 3
    requires first[|first| - 1] < 0x80 && first[0] != 0x80 && forall i :: 0 <= i < |first| - 1 ==> first[i] >= 0x80
    ensures AllBase128(first + rest)
  {
    hide AllBase128;
    var b := first + rest;
    assert b[|first|..] == rest;
    var one := first[0] as int % 0x80;
    if |first| >= 2 {
      assert b[1..][0] == first[1];
      var two := 0x80 * one + first[1] as int % 0x80;
      if |first| == 3 {
        assert b[1..][1..][0] == first[2];
        assert ReadBase128(b[1..][1..], two, 2).Some? && ReadBase128(b[1..][1..], two, 2).value.1 == 3;
      }
      assert ReadBase128(b[1..], one, 1).Some? && ReadBase128(b[1..], one, 1).value.1 == |first|;
    }
    assert ReadBase128(b, 0, 0).Some? && ReadBase128(b, 0, 0).value.1 == |first|;
    StartsWithArc(b);
  }

  lemma StartsWithArc(b: Bytes)
    requires b != [] && ReadBase128(b, 0, 0).Some? && AllBase128(b[ReadBase128(b, 0, 0).value.1..])
    ensures AllBase128(b)
  {
  }

  /** Object identifiers under 1.2.840.113549. */
  lemma RsaOid(rest: Bytes)
    requires forall i :: 0 <= i < |rest| ==> rest[i] < 0x80
    ensures AllBase128([0x2A, 0x86, 0x48, 0x86, 0xF7, 0x0D] + rest)
  {
    hide AllBase128;
    SmallArcs(rest);
    ArcThen([0x86, 0xF7, 0x0D], rest);
    ArcThen([0x86, 0x48], [0x86, 0xF7, 0x0D] + rest);
    ArcThen([0x2A], [0x86, 0x48] + ([0x86, 0xF7, 0x0D] + rest));
    assert [0x2A] + ([0x86, 0x48] + ([0x86, 0xF7, 0x0D] + rest)) == [0x2A, 0x86, 0x48, 0x86, 0xF7, 0x0D] + rest;
  }

  lemma OidReads(oid: Bytes)
    requires oid != [] && AllBase128(oid)
    ensures RawOid(Item(6, oid)) == Ok(oid)
  {
  }

  lemma KnownOids()
    ensures RawOid(Item(6, OID_DATA)) == Ok(OID_DATA) && RawOid(Item(6, OID_ENCRYPTED_DATA)) == Ok(OID_ENCRYPTED_DATA)
    ensures RawOid(Item(6, OID_CERT_BAG)) == Ok(OID_CERT_BAG)
    ensures RawOid(Item(6, OID_SAFE_CONTENTS_BAG)) == Ok(OID_SAFE_CONTENTS_BAG)
    ensures RawOid(Item(6, OID_X509_CERTIFICATE)) == Ok(OID_X509_CERTIFICATE)
    ensures RawOid(Item(6, OID_FRIENDLY_NAME)) == Ok(OID_FRIENDLY_NAME)
  {
    hide AllBase128, RawOid, Item;
    RsaOidReads(OID_DATA, [0x01, 0x07, 0x01]);
    RsaOidReads(OID_ENCRYPTED_DATA, [0x01, 0x07, 0x06]);
    RsaOidReads(OID_CERT_BAG, [0x01, 0x0C, 0x0A, 0x01, 0x03]);
    RsaOidReads(OID_SAFE_CONTENTS_BAG, [0x01, 0x0C, 0x0A, 0x01, 0x06]);
    RsaOidReads(OID_X509_CERTIFICATE, [0x01, 0x09, 0x16, 0x01]);
    RsaOidReads(OID_FRIENDLY_NAME, [0x01, 0x09, 0x14]);
  }

  lemma RsaOidReads(oid: Bytes, rest: Bytes)
    requires forall i :: 0 <= i < |rest| ==> rest[i] < 0x80
    requires oid == [0x2A, 0x86, 0x48, 0x86, 0xF7, 0x0D] + rest && |oid| < 100
    ensures RawOid(Item(6, oid)) == Ok(oid)
  {
    RsaOid(rest);
    OidReads(oid);
  }

  // ------------------------------------------------------------------- bag contents

  function NameAttribute(name: Text): (b: Bytes)
    ensures WriteNameSet(name) == Element(0x31, b)
  {
    Element(0x30, Element(6, OID_FRIENDLY_NAME) + Element(0x31, Element(0x1E, EncodeUtf16BE(name))))
  }

  function NameTlv(name: Text): Option<Tlv> {
    if name == [] then None else Some(Item(0x31, NameAttribute(name)))
  }

  function ExpectedName(name: Text): Name {
    if name == [] then Unnamed else Decoded(name)
  }

  lemma StringReads(codec: Codec, name: Text)
    requires |EncodeUtf16BE(name)| < 0x8000_0000
    ensures DecodeString(codec, Item(0x1E, EncodeUtf16BE(name))) == Ok(Decoded(name))
  {
    hide DecodeUtf16BE, EncodeUtf16BE;
    Utf16Bijective(EncodeUtf16BE(name), name);
  }

  lemma NameReads(codec: Codec, name: Text)
    requires |WriteNameSet(name)| < 0x8000_0000
    ensures FriendlyName(codec, NameTlv(name)) == Ok(ExpectedName(name))
  {
    hide Element, RawOid, SequenceElements, DecodeString, EncodeUtf16BE;
    if name != [] {
      var encoded := EncodeUtf16BE(name);
      var fields := Element(6, OID_FRIENDLY_NAME) + Element(0x31, Element(0x1E, encoded));
      KnownOids();
      ElementReads(0x30, fields);
      TwoFields(6, OID_FRIENDLY_NAME, 0x31, Element(0x1E, encoded), 2);
      ElementReads(0x1E, encoded);
      StringReads(codec, name);
      assert AttributeFields(Item(0x30, fields), 0) == Ok((OID_FRIENDLY_NAME, Item(0x31, Element(0x1E, encoded))));
      assert NameValue(codec, Item(0x31, Element(0x1E, encoded))) == Ok(Decoded(name));
    }
  }

  lemma OctetsRead(content: Bytes)
    requires |content| < 0x8000_0000
    ensures OctetString(Element(4, content)) == Ok(content)
  {
    hide Element, ReadWhole;
    ElementReads(4, content);
  }

  lemma CertValueReads(der: Bytes)
    requires |WriteCertValue(der)| < 0x8000_0000
    ensures CertificateBag(Item(0xA0, WriteCertValue(der))) == Ok(der)
  {
    hide Element, RawOid, SequenceElements, OctetString;
    KnownOids();
    TwoFields(6, OID_X509_CERTIFICATE, 0xA0, Element(4, der), 2);
    OctetsRead(der);
  }

  function BagFields(id: Bytes, value: Bytes, name: Text): (b: Bytes)
    ensures WriteSafeBag(id, value, name) == Element(0x30, b)
  {
    Element(6, id) + (Element(0xA0, value) + if name == [] then [] else WriteNameSet(name))
  }

  lemma SafeBagReads(id: Bytes, value: Bytes, name: Text)
    requires RawOid(Item(6, id)) == Ok(id) && |WriteSafeBag(id, value, name)| < 0x8000_0000
    ensures ParseSafeBag(Item(0x30, BagFields(id, value, name))) == Ok(SafeBag(id, Item(0xA0, value), NameTlv(name)))
    ensures name != [] ==> |WriteNameSet(name)| < 0x8000_0000
  {
    hide Element, RawOid, SequenceElements, WriteNameSet, NameAttribute;
    var fields := BagFields(id, value, name);
    ElementReads(0x30, fields);
    if name == [] {
      assert Element(0xA0, value) + [] == Element(0xA0, value);
      TwoFields(6, id, 0xA0, value, 3);
    } else {
      ThreeFields(6, id, 0xA0, value, 0x31, NameAttribute(name), 3);
    }
  }

  // --------------------------------------------------------------------------- bags

  function BagTlv(bag: Bag): (t: Tlv)
    ensures t.full == WriteBag(bag)
  {
    match bag
    case Cert(der, name) => Item(0x30, BagFields(BagIdentifier(3), WriteCertValue(der), name))
    case Key(kind, value, name) => Item(0x30, BagFields(KeyIdentifier(kind), value, name))
    case Unknown(id, value, name) => Item(0x30, BagFields(id, value, name))
    case Inner(bags) => Item(0x30, BagFields(BagIdentifier(6), Element(0x30, WriteBags(bags)), []))
  }

  function BagTlvs(bags: seq<Bag>): (t: seq<Tlv>)
    ensures |t| == |bags|
  {
    seq(|bags|, i requires 0 <= i < |bags| => BagTlv(bags[i]))
  }

  lemma BagIsReadable(bag: Bag)
    requires |WriteBag(bag)| < 0x8000_0000
    ensures ReadWhole(WriteBag(bag)) == Some(BagTlv(bag))
  {
    hide Element, ReadWhole, BagFields, Item;
    match bag
    case Cert(der, name) => ElementReads(0x30, BagFields(BagIdentifier(3), WriteCertValue(der), name));
    case Key(kind, value, name) => ElementReads(0x30, BagFields(KeyIdentifier(kind), value, name));
    case Unknown(id, value, name) => ElementReads(0x30, BagFields(id, value, name));
    case Inner(bags) => ElementReads(0x30, BagFields(BagIdentifier(6), Element(0x30, WriteBags(bags)), []));
  }

  lemma {:induction false} BagsAreReadable(bags: seq<Bag>)
    requires |WriteBags(bags)| < 0x8000_0000
    ensures Concat(BagTlvs(bags)) == WriteBags(bags) && Readable(BagTlvs(bags))
    ensures forall i :: 0 <= i < |bags| ==> |WriteBag(bags[i])| < 0x8000_0000
  {
    hide BagTlv, WriteBag, ReadWhole;
    if bags != [] {
      BagIsReadable(bags[0]);
      BagsAreReadable(bags[1..]);
      assert BagTlvs(bags)[1..] == BagTlvs(bags[1..]);
    }
  }

  lemma {:induction false} BagsFitEach(bags: seq<Bag>, levels: int, i: nat)
    requires BagsFit(bags, levels) && i < |bags|
    ensures BagFits(bags[i], levels)
  {
    if i > 0 {
      BagsFitEach(bags[1..], levels, i - 1);
    }
  }

  lemma OneFound(f: Found, chain: nat)
    ensures Numbered([f], chain) == Placed(f, chain) && Numbered([], chain) == []
  {
  }

  lemma CertReadsBack(codec: Codec, der: Bytes, name: Text, index: nat, depth: nat, chain: nat, bagCount: nat)
    requires depth <= MAX_SAFE_CONTENTS_DEPTH && 1 <= bagCount <= MAX_BAGS && |WriteBag(Cert(der, name))| < 0x8000_0000
    ensures ReadsBack(OneBag(codec, BagTlv(Cert(der, name)), index, depth, chain, bagCount),
                      BagFound(codec, Cert(der, name)),
                      1, 0, chain, bagCount - 1)
  {
    hide Element, RawOid, ParseSafeBag, CertificateBag, FriendlyName, WriteCertValue, BagFields, NameTlv, WriteNameSet;
    KnownOids();
    IdentifiersAreTheirArcs();
    SafeBagReads(OID_CERT_BAG, WriteCertValue(der), name);
    CertValueReads(der);
    if name == [] {
      NoName(codec);
    } else {
      NameReads(codec, name);
    }
    OneFound(BagFound(codec, Cert(der, name))[0], chain);
  }

  lemma SealedReadsBack(
    codec: Codec, id: Bytes, value: Bytes, name: Text, index: nat, depth: nat, chain: nat, bagCount: nat)
    requires depth <= MAX_SAFE_CONTENTS_DEPTH && 1 <= bagCount <= MAX_BAGS
    requires Kind(id) == KeyBag || Kind(id) == OtherBag
    requires RawOid(Item(6, id)) == Ok(id) && |WriteSafeBag(id, value, name)| < 0x8000_0000
    ensures ReadsBack(OneBag(codec, Item(0x30, BagFields(id, value, name)), index, depth, chain, bagCount), [], 1,
                      if Kind(id) == KeyBag then 1 else 0, chain, bagCount - 1)
  {
    hide Element, RawOid, ParseSafeBag, BagFields, Kind, NameTlv, WriteNameSet, Item, WriteSafeBag;
    SafeBagReads(id, value, name);
  }

  lemma KeyReadsBack(
    codec: Codec, kind: KeyKind, value: Bytes, name: Text, index: nat, depth: nat, chain: nat, bagCount: nat)
    requires depth <= MAX_SAFE_CONTENTS_DEPTH && 1 <= bagCount <= MAX_BAGS
    requires |WriteBag(Key(kind, value, name))| < 0x8000_0000
    ensures ReadsBack(OneBag(codec, BagTlv(Key(kind, value, name)), index, depth, chain, bagCount), [], 1, 1, chain,
                      bagCount - 1)
  {
    hide OneBag, BagFields, WriteSafeBag, BagIdentifier, Item, RawOid, ReadsBack, Kind;
    var id := KeyIdentifier(kind);
    var n: nat := match kind case PlainKey => 1 case ShroudedKey => 2 case Secret => 5;
    BagIdentifierIs(n);
    assert id == [0x2A, 0x86, 0x48, 0x86, 0xF7, 0x0D] + [0x01, 0x0C, 0x0A, 0x01, n];
    RsaOidReads(id, [0x01, 0x0C, 0x0A, 0x01, n]);
    KindsAreTheirArcs(id);
    SealedReadsBack(codec, id, value, name, index, depth, chain, bagCount);
  }

  lemma UnknownReadsBack(
    codec: Codec, id: Bytes, value: Bytes, name: Text, index: nat, depth: nat, chain: nat, bagCount: nat)
    requires depth <= MAX_SAFE_CONTENTS_DEPTH && 1 <= bagCount <= MAX_BAGS && BagFits(Unknown(id, value, name), 0)
    requires |WriteBag(Unknown(id, value, name))| < 0x8000_0000
    ensures ReadsBack(OneBag(codec, BagTlv(Unknown(id, value, name)), index, depth, chain, bagCount), [], 1, 0, chain,
                      bagCount - 1)
  {
    hide OneBag, BagFields, WriteSafeBag, IsUnknownIdentifier, Item, RawOid, ReadsBack, Kind, AllBase128;
    OidReads(id);
    KindsAreTheirArcs(id);
    SealedReadsBack(codec, id, value, name, index, depth, chain, bagCount);
  }

  lemma NoName(codec: Codec)
    ensures FriendlyName(codec, NameTlv([])) == Ok(Unnamed)
  {
  }

  lemma {:induction false} BagReadsBack(codec: Codec, bag: Bag, index: nat, depth: nat, chain: nat, bagCount: nat)
    requires depth <= MAX_SAFE_CONTENTS_DEPTH && BagFits(bag, MAX_SAFE_CONTENTS_DEPTH - depth)
    requires |WriteBag(bag)| < 0x8000_0000 && 1 <= bagCount && bagCount - 1 + BagSize(bag) <= MAX_BAGS
    ensures ReadsBack(OneBag(codec, BagTlv(bag), index, depth, chain, bagCount), BagFound(codec, bag), BagSize(bag),
                      BagKeys(bag),
                      chain, bagCount - 1)
    decreases 17 - depth, 0, 0
  {
    hide OneBag, BagTlv, WriteBag, ReadsBack, AllBase128;
    match bag
    case Cert(der, name) => CertReadsBack(codec, der, name, index, depth, chain, bagCount);
    case Key(kind, value, name) => KeyReadsBack(codec, kind, value, name, index, depth, chain, bagCount);
    case Unknown(id, value, name) => UnknownReadsBack(codec, id, value, name, index, depth, chain, bagCount);
    case Inner(bags) => InnerReadsBack(codec, bags, index, depth, chain, bagCount);
  }

  lemma {:induction false} InnerReadsBack(
    codec: Codec, bags: seq<Bag>, index: nat, depth: nat, chain: nat, bagCount: nat)
    requires depth < MAX_SAFE_CONTENTS_DEPTH && BagsFit(bags, MAX_SAFE_CONTENTS_DEPTH - depth - 1)
    requires |WriteBag(Inner(bags))| < 0x8000_0000 && 1 <= bagCount && bagCount + BagsSize(bags) <= MAX_BAGS
    ensures ReadsBack(OneBag(codec, BagTlv(Inner(bags)), index, depth, chain, bagCount), BagsFound(codec, bags),
                      1 + BagsSize(bags), BagsKeys(bags), chain, bagCount - 1)
    decreases 16 - depth, 3, 0
  {
    hide Element, RawOid, ParseSafeBag, BagFields, SafeContents, WriteBags, BagsFit, BagsFound, BagsSize, BagsKeys,
         Numbered, AllAccepted, BagIdentifier;
    KnownOids();
    IdentifiersAreTheirArcs();
    SafeBagReads(OID_SAFE_CONTENTS_BAG, Element(0x30, WriteBags(bags)), []);
    SafeContentsReadBack(codec, bags, depth + 1, chain, bagCount);
  }

  lemma {:induction false} BagsReadBack(codec: Codec, bags: seq<Bag>, index: nat, depth: nat, chain: nat, bagCount: nat)
    requires depth <= MAX_SAFE_CONTENTS_DEPTH && BagsFit(bags, MAX_SAFE_CONTENTS_DEPTH - depth) && index <= |bags|
    requires |WriteBags(bags)| < 0x8000_0000 && bagCount + BagsSize(bags[index..]) <= MAX_BAGS
    ensures ReadsBack(Bags(codec, BagTlvs(bags), index, depth, chain, bagCount), BagsFound(codec, bags[index..]),
                      BagsSize(bags[index..]), BagsKeys(bags[index..]), chain, bagCount)
    decreases 17 - depth, 1, |bags| - index
  {
    hide OneBag, Bags, BagFound, BagSize, BagKeys, WriteBags, WriteBag, BagFits, BagsFit, BagTlv, ReadsBack,
         BagsFound, BagsSize, BagsKeys;
    FirstOfBags(codec, bags, index);
    if index == |bags| {
      NoBagsReadBack(codec, BagTlvs(bags), depth, chain, bagCount);
    } else {
      BagsAreReadable(bags);
      BagsFitEach(bags, MAX_SAFE_CONTENTS_DEPTH - depth, index);
      BagReadsBack(codec, bags[index], index, depth, chain, bagCount + 1);
      var one := OneBag(codec, BagTlvs(bags)[index], index, depth, chain, bagCount + 1);
      Continues(one, BagFound(codec, bags[index]), BagSize(bags[index]), BagKeys(bags[index]), chain, bagCount);
      BagsReadBack(codec, bags, index + 1, depth, one.chain, one.bagCount);
      BagsStep(codec, BagTlvs(bags), index, depth, chain, bagCount);
      ReadsBackThen(one, Bags(codec, BagTlvs(bags), index + 1, depth, one.chain, one.bagCount),
                    BagFound(codec, bags[index]), BagsFound(codec, bags[index + 1..]), BagSize(bags[index]),
                    BagsSize(bags[index + 1..]), BagKeys(bags[index]), BagsKeys(bags[index + 1..]), chain, bagCount);
    }
  }

  lemma FirstOfBags(codec: Codec, bags: seq<Bag>, index: nat)
    requires index <= |bags|
    ensures
      if index == |bags| then
        BagsFound(codec, bags[index..]) == [] && BagsSize(bags[index..]) == 0 && BagsKeys(bags[index..]) == 0
      else
        var one, later := bags[index], bags[index + 1..];
        && BagsFound(codec, bags[index..]) == BagFound(codec, one) + BagsFound(codec, later)
        && BagsSize(bags[index..]) == BagSize(one) + BagsSize(later)
        && BagsKeys(bags[index..]) == BagKeys(one) + BagsKeys(later)
  {
  }

  lemma NoBagsReadBack(codec: Codec, bags: seq<Tlv>, depth: nat, chain: nat, bagCount: nat)
    requires depth <= MAX_SAFE_CONTENTS_DEPTH
    ensures ReadsBack(Bags(codec, bags, |bags|, depth, chain, bagCount), [], 0, 0, chain, bagCount)
  {
  }

  lemma Continues(one: Safe, found: seq<Found>, size: nat, keys: nat, chain: nat, bagCount: nat)
    requires ReadsBack(one, found, size, keys, chain, bagCount)
    ensures one.bagCount == bagCount + size
  {
  }

  lemma {:induction false} SafeContentsReadBack(codec: Codec, bags: seq<Bag>, depth: nat, chain: nat, bagCount: nat)
    requires depth <= MAX_SAFE_CONTENTS_DEPTH && BagsFit(bags, MAX_SAFE_CONTENTS_DEPTH - depth)
    requires |WriteBags(bags)| < 0x8000_0000 && bagCount + BagsSize(bags) <= MAX_BAGS
    ensures ReadsBack(SafeContents(codec, Element(0x30, WriteBags(bags)), depth, chain, bagCount),
                      BagsFound(codec, bags),
                      BagsSize(bags), BagsKeys(bags), chain, bagCount)
    decreases 17 - depth, 2, 0
  {
    hide SequenceElements, WriteBags, BagsFit, BagTlvs, ReadsBack, BagsFound, BagsKeys, BagsSize, Bags, Concat,
         Readable;
    BagsAreReadable(bags);
    SequenceReadsBack(MAX_BAGS + 1, BagTlvs(bags));
    assert bags[0..] == bags;
    BagsReadBack(codec, bags, 0, depth, chain, bagCount);
  }

  // ----------------------------------------------------------------------- contents

  function ContentCertificates(codec: Codec, content: Content): seq<Certificate> {
    match content
    case Plain(bags) => Numbered(BagsFound(codec, bags), 0)
    case Encrypted(_, _) => []
  }

  /** The certificates of all contents, in order, each content numbered on its own. */
  function FoundCertificates(codec: Codec, contents: seq<Content>): seq<Certificate> {
    if contents == [] then [] else ContentCertificates(codec, contents[0]) + FoundCertificates(codec, contents[1..])
  }

  /** The encrypted contents, each under its place among all contents. */
  function FoundEncrypted(contents: seq<Content>, index: nat): seq<EncryptedContent> {
    if contents == [] then []
    else
      (if contents[0].Encrypted? then [EncryptedContent(index, contents[0].algorithm)] else [])
      + FoundEncrypted(contents[1..], index + 1)
  }

  function ContentSize(content: Content): nat {
    if content.Plain? then BagsSize(content.bags) else 0
  }

  function ContentsSize(contents: seq<Content>): nat {
    if contents == [] then 0 else ContentSize(contents[0]) + ContentsSize(contents[1..])
  }

  function ContentKeys(content: Content): nat {
    if content.Plain? then BagsKeys(content.bags) else 0
  }

  function ContentsKeys(contents: seq<Content>): nat {
    if contents == [] then 0 else ContentKeys(contents[0]) + ContentsKeys(contents[1..])
  }

  predicate ContentAccepted(codec: Codec, content: Content) {
    content.Plain? ==> AllAccepted(BagsFound(codec, content.bags))
  }

  predicate ContentsAccepted(codec: Codec, contents: seq<Content>) {
    contents == [] || (ContentAccepted(codec, contents[0]) && ContentsAccepted(codec, contents[1..]))
  }

  predicate ContentFits(content: Content) {
    match content
    case Plain(bags) => BagsFit(bags, MAX_SAFE_CONTENTS_DEPTH)
    case Encrypted(algorithm, _) => algorithm != [] && AllBase128(algorithm)
  }

  predicate ContentsFit(contents: seq<Content>) {
    forall i :: 0 <= i < |contents| ==> ContentFits(contents[i])
  }

  predicate RunReadsBack(
    r: Run, certificates: seq<Certificate>, encrypted: seq<EncryptedContent>, accepted: bool, size: nat, keys: nat,
    bagCount: nat)
  {
    && r.certificates == certificates && r.encrypted == encrypted && (r.problems == [] <==> accepted)
    && r.bagCount == bagCount + size && r.keyBags == keys
  }

  lemma NextReadsBack(
    one: Run, rest: Run, c: seq<Certificate>, d: seq<Certificate>, e: seq<EncryptedContent>, f: seq<EncryptedContent>,
    p: bool, q: bool, m: nat, n: nat, k: nat, l: nat, bagCount: nat)
    requires RunReadsBack(one, c, e, p, m, k, bagCount) && RunReadsBack(rest, d, f, q, n, l, one.bagCount)
    ensures RunReadsBack(NextRun(one, rest), c + d, e + f, p && q, m + n, k + l, bagCount)
  {
  }

  function ContentTlv(content: Content): (t: Tlv)
    ensures t.full == WriteContent(content)
  {
    match content
    case Plain(bags) => InfoTlv(OID_DATA, Element(4, Element(0x30, WriteBags(bags))))
    case Encrypted(algorithm, ciphertext) => InfoTlv(OID_ENCRYPTED_DATA, WriteEncryptedData(algorithm, ciphertext))
  }

  function InfoTlv(kind: Bytes, content: Bytes): (t: Tlv)
    ensures t.full == WriteContentInfo(kind, content)
  {
    Item(0x30, Element(6, kind) + Element(0xA0, content))
  }

  function ContentTlvs(contents: seq<Content>): (t: seq<Tlv>)
    ensures |t| == |contents|
  {
    seq(|contents|, i requires 0 <= i < |contents| => ContentTlv(contents[i]))
  }

  lemma InfoReads(kind: Bytes, content: Bytes)
    requires |WriteContentInfo(kind, content)| < 0x8000_0000 && RawOid(Item(6, kind)) == Ok(kind)
    ensures ReadWhole(WriteContentInfo(kind, content)) == Some(InfoTlv(kind, content))
    ensures ParseContentInfo(InfoTlv(kind, content)) == Ok((kind, Item(0xA0, content)))
  {
    hide Element, ReadWhole, RawOid, SequenceElements;
    ElementReads(0x30, Element(6, kind) + Element(0xA0, content));
    TwoFields(6, kind, 0xA0, content, 2);
  }

  lemma ContentIsReadable(content: Content)
    requires |WriteContent(content)| < 0x8000_0000
    ensures ReadWhole(WriteContent(content)) == Some(ContentTlv(content))
  {
    hide ReadWhole, ParseContentInfo, RawOid, Element, InfoTlv, WriteContentInfo;
    KnownOids();
    match content
    case Plain(bags) => InfoReads(OID_DATA, Element(4, Element(0x30, WriteBags(bags))));
    case Encrypted(algorithm, ciphertext) => InfoReads(OID_ENCRYPTED_DATA, WriteEncryptedData(algorithm, ciphertext));
  }

  lemma {:induction false} ContentsAreReadable(contents: seq<Content>)
    requires |WriteContents(contents)| < 0x8000_0000
    ensures Concat(ContentTlvs(contents)) == WriteContents(contents) && Readable(ContentTlvs(contents))
    ensures forall i :: 0 <= i < |contents| ==> |WriteContent(contents[i])| < 0x8000_0000
  {
    hide ContentTlv, WriteContent, ReadWhole;
    if contents != [] {
      ContentIsReadable(contents[0]);
      ContentsAreReadable(contents[1..]);
      assert ContentTlvs(contents)[1..] == ContentTlvs(contents[1..]);
    }
  }

  lemma IntegerReads(n: byte)
    requires n < 0x80
    ensures RawInteger(Item(2, [n])) == Ok(n as int)
  {
    assert [n][..0] == [];
    assert Number([n]) == n as int;
  }

  lemma EncryptedInfoReads(algorithm: Bytes, ciphertext: Bytes, index: nat)
    requires algorithm != [] && AllBase128(algorithm) && |WriteEncryptedInfo(algorithm, ciphertext)| < 0x8000_0000
    ensures
      var fields := SequenceElements(WriteEncryptedInfo(algorithm, ciphertext), 3);
      fields.Fields? && EncryptedInfo(fields.items, index) == Ok(EncryptedContent(index, algorithm))
  {
    hide Element, RawOid, SequenceElements, AllBase128;
    KnownOids();
    OidReads(algorithm);
    var identifier := Element(6, algorithm) + Element(5, []);
    ThreeFields(6, OID_DATA, 0x30, identifier, 0x80, ciphertext, 3);
    TwoFields(6, algorithm, 5, [], 2);
  }

  lemma EncryptedReads(algorithm: Bytes, ciphertext: Bytes, index: nat)
    requires algorithm != [] && AllBase128(algorithm) && |WriteEncryptedData(algorithm, ciphertext)| < 0x8000_0000
    ensures ParseEncrypted(Item(0xA0, WriteEncryptedData(algorithm, ciphertext)), index) ==
            Ok(EncryptedContent(index, algorithm))
  {
    hide Element, RawOid, SequenceElements, AllBase128, RawInteger, EncryptedInfo;
    IntegerReads(0);
    EncryptedInfoReads(algorithm, ciphertext, index);
    var inside := Element(6, OID_DATA) +
      (Element(0x30, Element(6, algorithm) + Element(5, [])) + Element(0x80, ciphertext));
    TwoFields(2, [0], 0x30, inside, 3);
  }

  lemma PlainReadsBack(codec: Codec, bags: seq<Bag>, index: nat, bagCount: nat)
    requires BagsFit(bags, MAX_SAFE_CONTENTS_DEPTH) && |WriteContent(Plain(bags))| < 0x8000_0000
    requires bagCount + BagsSize(bags) <= MAX_BAGS
    ensures RunReadsBack(OneContent(codec, ContentTlv(Plain(bags)), index, bagCount),
                         Numbered(BagsFound(codec, bags), 0), [],
                         AllAccepted(BagsFound(codec, bags)), BagsSize(bags), BagsKeys(bags), bagCount)
  {
    hide Element, RawOid, ParseContentInfo, OctetString, ParseEncrypted, SafeContents, InfoTlv, WriteBags, BagsFit,
         BagsFound, BagsSize, BagsKeys, Numbered, AllAccepted;
    KnownOids();
    InfoReads(OID_DATA, Element(4, Element(0x30, WriteBags(bags))));
    OctetsRead(Element(0x30, WriteBags(bags)));
    SafeContentsReadBack(codec, bags, 0, 0, bagCount);
  }

  lemma SecretReadsBack(codec: Codec, algorithm: Bytes, ciphertext: Bytes, index: nat, bagCount: nat)
    requires algorithm != [] && AllBase128(algorithm) && |WriteContent(Encrypted(algorithm, ciphertext))| < 0x8000_0000
    ensures RunReadsBack(OneContent(codec, ContentTlv(Encrypted(algorithm, ciphertext)), index, bagCount), [],
                         [EncryptedContent(index, algorithm)], true, 0, 0, bagCount)
  {
    hide Element, RawOid, ParseContentInfo, OctetString, ParseEncrypted, SafeContents, InfoTlv, WriteEncryptedData,
         AllBase128;
    KnownOids();
    InfoReads(OID_ENCRYPTED_DATA, WriteEncryptedData(algorithm, ciphertext));
    EncryptedReads(algorithm, ciphertext, index);
  }

  lemma OneEncrypted(content: Content, index: nat)
    ensures FoundEncrypted([content], index)
         == if content.Encrypted? then [EncryptedContent(index, content.algorithm)] else []
  {
  }

  lemma ContentReadsBack(codec: Codec, content: Content, index: nat, bagCount: nat)
    requires ContentFits(content) && |WriteContent(content)| < 0x8000_0000
    requires bagCount + ContentSize(content) <= MAX_BAGS
    ensures RunReadsBack(OneContent(codec, ContentTlv(content), index, bagCount), ContentCertificates(codec, content),
                         FoundEncrypted([content], index), ContentAccepted(codec, content), ContentSize(content),
                         ContentKeys(content), bagCount)
  {
    hide OneContent, ContentTlv, WriteContent, RunReadsBack, FoundEncrypted, BagsFit, BagsFound, BagsSize, BagsKeys,
         Numbered, AllAccepted, AllBase128;
    OneEncrypted(content, index);
    match content
    case Plain(bags) => PlainReadsBack(codec, bags, index, bagCount);
    case Encrypted(algorithm, ciphertext) => SecretReadsBack(codec, algorithm, ciphertext, index, bagCount);
  }

  lemma {:induction false} ContentsReadBack(codec: Codec, contents: seq<Content>, index: nat, bagCount: nat)
    requires ContentsFit(contents) && |WriteContents(contents)| < 0x8000_0000 && index <= |contents|
    requires bagCount + ContentsSize(contents[index..]) <= MAX_BAGS
    ensures RunReadsBack(ContentsFrom(codec, ContentTlvs(contents), index, bagCount),
                         FoundCertificates(codec, contents[index..]),
                         FoundEncrypted(contents[index..], index), ContentsAccepted(codec, contents[index..]),
                         ContentsSize(contents[index..]), ContentsKeys(contents[index..]), bagCount)
    decreases |contents| - index
  {
    hide OneContent, ContentCertificates, ContentSize, ContentKeys, ContentAccepted, ContentFits, WriteContents,
         WriteContent, ContentTlv;
    if index < |contents| {
      ContentsAreReadable(contents);
      var c, later := contents[index], contents[index + 1..];
      assert contents[index..][1..] == later;
      ContentReadsBack(codec, c, index, bagCount);
      var one := OneContent(codec, ContentTlvs(contents)[index], index, bagCount);
      ContentsReadBack(codec, contents, index + 1, one.bagCount);
      FirstEncrypted(contents[index..], index);
      NextReadsBack(one, ContentsFrom(codec, ContentTlvs(contents), index + 1, one.bagCount),
                    ContentCertificates(codec, c),
                    FoundCertificates(codec, later), FoundEncrypted([c], index), FoundEncrypted(later, index + 1),
                    ContentAccepted(codec, c), ContentsAccepted(codec, later), ContentSize(c), ContentsSize(later),
                    ContentKeys(c), ContentsKeys(later), bagCount);
    }
  }

  lemma FirstEncrypted(contents: seq<Content>, index: nat)
    requires contents != []
    ensures FoundEncrypted(contents, index)
         == FoundEncrypted([contents[0]], index) + FoundEncrypted(contents[1..], index + 1)
  {
  }

  // ---------------------------------------------------------------------- the file

  lemma OuterFields(contents: seq<Content>, mac: Option<Bytes>)
    requires |WritePfx(contents, mac)| < 0x8000_0000
    ensures
      var authSafe := InfoTlv(OID_DATA, Element(4, Element(0x30, WriteContents(contents))));
      SequenceElements(WritePfx(contents, mac), 3)
        == Fields([Item(2, [3]), authSafe] + if mac.Some? then [Item(0x30, mac.value)] else [])
  {
    hide Element, SequenceElements, WriteContents;
    var authSafe := Element(6, OID_DATA) + Element(0xA0, Element(4, Element(0x30, WriteContents(contents))));
    if mac.Some? {
      ThreeFields(2, [3], 0x30, authSafe, 0x30, mac.value, 3);
    } else {
      assert Element(0x30, authSafe) + [] == Element(0x30, authSafe);
      TwoFields(2, [3], 0x30, authSafe, 3);
    }
  }

  lemma PfxOpens(contents: seq<Content>, mac: Option<Bytes>)
    requires |WritePfx(contents, mac)| < 0x8000_0000 && |contents| <= MAX_CONTENT_INFOS
    ensures OpenPfx(WritePfx(contents, mac)) == Ok(ContentTlvs(contents)) && |WriteContents(contents)| < 0x8000_0000
  {
    hide Element, SequenceElements, WriteContents, RawInteger, ParseContentInfo, OctetString, RawOid, InfoTlv,
         ContentTlvs, Concat, Readable;
    var safe := Element(0x30, WriteContents(contents));
    OuterFields(contents, mac);
    IntegerReads(3);
    KnownOids();
    assert |WriteContentInfo(OID_DATA, Element(4, safe))| < 0x8000_0000;
    InfoReads(OID_DATA, Element(4, safe));
    OctetsRead(safe);
    ContentsAreReadable(contents);
    SequenceReadsBack(MAX_CONTENT_INFOS, ContentTlvs(contents));
  }

  // ---------------------------------------------------------------------- detection

  /** The header of an element that stands somewhere in a file. */
  lemma HeaderOfElement(data: Bytes, at: nat, identifier: byte, content: Bytes, limit: nat) returns (start: nat)
    requires |data| < 0x8000_0000 && At(data, at, Element(identifier, content))
    requires at + |Element(identifier, content)| <= limit
    ensures start == at + |Element(identifier, content)| - |content| && At(data, start, content)
    ensures ReadHeader(data, at, limit) == Some(Header(identifier, start, start + |content|))
  {
    hide ReadHeader, LengthField;
    var field := LengthField(|content|);
    assert Element(identifier, content) == [identifier] + field + content;
    AtSplit(data, at, [identifier] + field, content);
    start := at + 1 + |field|;
    HeaderIsCanonical(data, at, limit, Header(identifier, start, start + |content|));
  }

  lemma DataIsPfxType()
    ensures IsPfxType(Element(6, OID_DATA))
  {
    hide Element, RawOid;
    KnownOids();
    ElementReads(6, OID_DATA);
  }

  lemma AuthSafeDetected(data: Bytes, at: nat, content: Bytes, limit: nat)
    requires |data| < 0x8000_0000 && At(data, at, WriteContentInfo(OID_DATA, content))
    requires at + |WriteContentInfo(OID_DATA, content)| <= limit
    ensures
      var h := ReadHeader(data, at, limit);
      h.Some? && h.value.tag == 0x30 && DetectAuthSafe(data, h.value)
  {
    hide ReadHeader, Element, IsPfxType;
    var kind, value := Element(6, OID_DATA), Element(0xA0, content);
    var start := HeaderOfElement(data, at, 0x30, kind + value, limit);
    AtSplit(data, start, kind, value);
    var end := start + |kind + value|;
    var inKind := HeaderOfElement(data, start, 6, OID_DATA, end);
    var inValue := HeaderOfElement(data, start + |kind|, 0xA0, content, end);
    DataIsPfxType();
  }

  lemma VersionDetected(data: Bytes, outer: Header, content: Bytes)
    requires |data| < 0x8000_0000 && At(data, outer.content, Element(2, [3]))
    requires At(data, outer.content + |Element(2, [3])|, WriteContentInfo(OID_DATA, content))
    requires outer.content + |Element(2, [3])| + |WriteContentInfo(OID_DATA, content)| <= outer.end
    ensures DetectVersion(data, outer)
  {
    hide ReadHeader, Element, DetectAuthSafe, WriteContentInfo;
    var at := HeaderOfElement(data, outer.content, 2, [3], outer.end);
    assert data[at..at + 1] == [3];
    AuthSafeDetected(data, outer.content + |Element(2, [3])|, content, outer.end);
  }

  lemma PfxDetected(data: Bytes, content: Bytes, tail: Bytes)
    requires |data| < 0x8000_0000
    requires data == Element(0x30, Element(2, [3]) + (WriteContentInfo(OID_DATA, content) + tail))
    ensures Detect(data)
  {
    hide ReadHeader, Element, DetectVersion, WriteContentInfo;
    var version, safe := Element(2, [3]), WriteContentInfo(OID_DATA, content);
    var fields := version + (safe + tail);
    assert At(data, 0, Element(0x30, fields));
    var start := HeaderOfElement(data, 0, 0x30, fields, MAX_INT64);
    AtSplit(data, start, version, safe + tail);
    AtSplit(data, start + |version|, safe, tail);
    VersionDetected(data, Header(0x30, start, start + |fields|), content);
  }

  /** What is written is recognised. */
  lemma WrittenIsDetected(contents: seq<Content>, mac: Option<Bytes>)
    requires |WritePfx(contents, mac)| < 0x8000_0000
    ensures Detect(WritePfx(contents, mac))
  {
    hide Detect, Element, WriteContentInfo, WriteContents;
    PfxDetected(WritePfx(contents, mac), Element(4, Element(0x30, WriteContents(contents))),
                if mac.Some? then Element(0x30, mac.value) else []);
  }

  /** Round trip. What is written is recognised, and for every mix of at most 256
      plaintext and encrypted contents with at most 10,000 well-formed bags nested at
      most 16 deep below their content, in a file below two gigabytes, with or without
      MAC data: reading what was written gives the accepted certificates content by
      content and depth first, each with its name and its place among the certBags of its
      content, and every encrypted content under its place; the error is nil exactly when
      every certificate is accepted; and the flag says truststore exactly when there are
      certificates, no key and nothing encrypted. */
  lemma RoundTrip(codec: Codec, contents: seq<Content>, mac: Option<Bytes>)
    requires |contents| <= MAX_CONTENT_INFOS && ContentsFit(contents) && ContentsSize(contents) <= MAX_BAGS
    requires |WritePfx(contents, mac)| < 0x8000_0000
    ensures
      var found, encrypted := FoundCertificates(codec, contents), FoundEncrypted(contents, 0);
      var parsed := Parse(codec, WritePfx(contents, mac));
      && parsed.certificates == Mark(found, found != [] && encrypted == [] && ContentsKeys(contents) == 0)
      && parsed.encrypted == encrypted
      && (parsed.problems == [] <==> ContentsAccepted(codec, contents))
    ensures Detect(WritePfx(contents, mac))
  {
    hide OpenPfx, Detect, ContentsFrom, WritePfx, WriteContents, FoundCertificates, FoundEncrypted, ContentsAccepted,
         ContentsSize, ContentsKeys, ContentTlvs, ContentsFit;
    WrittenIsDetected(contents, mac);
    PfxOpens(contents, mac);
    assert contents[0..] == contents;
    ContentsReadBack(codec, contents, 0, 0);
  }
}
