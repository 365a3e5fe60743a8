/** Which bytes the PKCS#12 parser takes without an error: a grammar of written elements
    (sections 4, 4.1 and 4.2 of RFC 7292), and the parser against it. */
module Pkcs12Grammar {
  import opened Common
  import opened TextCodec
  import opened Der
  import opened Pkcs12
  import opened Pkcs12Identifiers
  import opened Pkcs12Proofs
  import opened Pkcs12RoundTrip

  const LIMIT: nat := 0x8000_0000

  predicate IsIdentifier(oid: Bytes) {
    oid != [] && AllBase128(oid)
  }

  // ------------------------------------------------------------------- single elements

  /** An element under a one-octet identifier, by its class, tag and form. */
  predicate Shaped(t: Tlv, identifier: byte) {
    && t.class_ == identifier as int / 0x40 && t.tag == identifier as int % 0x20
    && t.compound == (identifier as int / 0x20 % 2 == 1)
  }

  lemma ShapedIsWritten(t: Tlv, identifier: byte)
    requires ReadWhole(t.full) == Some(t) && identifier % 0x20 != 0x1F
    ensures Shaped(t, identifier) <==> |t.content| < LIMIT && t == Item(identifier, t.content)
  {
    hide ReadTag, ReadLength;
    LowTag(t.full);
    if Shaped(t, identifier) {
      TlvWasWritten(t.full);
      FirstOctet(t.full);
    }
  }

  /** The first octet holds class, form and a tag number below 31. */
  lemma FirstOctet(b: Bytes)
    requires ReadTlv(b).Some? && b[0] % 0x20 != 0x1F
    ensures
      var t := ReadTlv(b).value;
      b[0] as int == 0x40 * t.class_ + (if t.compound then 0x20 else 0) + t.tag
  {
    hide ReadBase128, ReadLength;
  }

  lemma OidIs(t: Tlv, oid: Bytes)
    requires ReadWhole(t.full) == Some(t)
    ensures RawOid(t) == Ok(oid) <==> IsIdentifier(oid) && |oid| < LIMIT && t == Item(6, oid)
  {
    hide AllBase128, Item, ReadWhole;
    ShapedIsWritten(t, 6);
  }

  lemma OctetsAre(b: Bytes, octets: Bytes)
    ensures OctetString(b) == Ok(octets) <==> |octets| < LIMIT && b == Element(4, octets)
  {
    hide Element, ReadTlv;
    if OctetString(b).Ok? {
      WholeIsItself(b);
      ShapedIsWritten(ReadWhole(b).value, 4);
    }
    if |octets| < LIMIT && b == Element(4, octets) {
      ElementReads(4, octets);
    }
  }

  lemma WholeIsItself(b: Bytes)
    requires ReadWhole(b).Some?
    ensures ReadWhole(b).value.full == b
  {
    hide ReadTag, ReadLength;
  }

  /** The INTEGERs 0 and 3 have one octet. */
  lemma IntegerIs(t: Tlv, n: byte)
    requires ReadWhole(t.full) == Some(t) && n < 0x80
    ensures RawInteger(t) == Ok(n as int) <==> t == Item(2, [n])
  {
    hide ReadWhole, Element;
    ShapedIsWritten(t, 2);
    assert Number([n][..0]) == 0 && Number([n]) == n as int;
    if RawInteger(t) == Ok(n as int) {
      SignedIs(t.content, n);
    }
  }

  /** The first two octets alone are a lower bound. */
  lemma {:induction false} NumberBounds(b: Bytes)
    requires |b| >= 2
    ensures 0x100 * b[0] as int + b[1] as int <= Number(b) < Power256(|b|)
    decreases |b|
  {
    var init := b[..|b| - 1];
    if |b| == 2 {
      assert Number(init[..0]) == 0 && Number(init) == b[0] as int;
      assert Power256(0) == 1 && Power256(1) == 0x100 && Power256(2) == 0x1_0000;
    } else {
      NumberBounds(init);
      assert Power256(|b|) == 0x100 * Power256(|init|);
    }
  }

  lemma SignedIs(b: Bytes, n: byte)
    requires b != [] && |b| <= 8 && n < 0x80 && Signed(b) == n as int
    requires |b| > 1 ==> !((b[0] == 0 && b[1] < 0x80) || (b[0] == 0xFF && b[1] >= 0x80))
    ensures b == [n]
  {
    hide Number, Power256;
    if |b| > 1 {
      NumberBounds(b);
    } else {
      OneOctet(b);
    }
  }

  lemma OneOctet(b: Bytes)
    requires |b| == 1
    ensures Number(b) == b[0] as int && Power256(1) == 0x100
  {
    assert Number(b[..0]) == 0 && Power256(0) == 1;
  }

  // ---------------------------------------------------------------- fields in sequence

  lemma FieldsAre(encoded: Bytes, maximum: nat, items: seq<Tlv>)
    ensures SequenceElements(encoded, maximum) == Fields(items) <==>
            |items| <= maximum && Readable(items) && |Concat(items)| < LIMIT && encoded == Element(0x30, Concat(items))
  {
    hide SequenceElements, Readable, Concat;
    SequenceIsCanonical(encoded, maximum, items);
  }

  lemma ConcatTwo(a: Tlv, b: Tlv)
    ensures Concat([a, b]) == a.full + b.full
  {
    assert [a, b][1..] == [b] && [b][1..] == [];
    assert Concat([b]) == b.full + [] == b.full;
  }

  lemma ConcatThree(a: Tlv, b: Tlv, c: Tlv)
    ensures Concat([a, b, c]) == a.full + (b.full + c.full)
  {
    assert [a, b, c][1..] == [b, c];
    ConcatTwo(b, c);
  }

  lemma ConcatOne(a: Tlv)
    ensures Concat([a]) == a.full
  {
    assert [a][1..] == [] && a.full + [] == a.full;
  }

  // ------------------------------------------------------------------ the parser's steps

  /** A ContentInfo: its type and, explicitly tagged, its content. */
  predicate IsInfo(b: Bytes, kind: Bytes, content: Bytes) {
    var fields := Element(6, kind) + Element(0xA0, content);
    IsIdentifier(kind) && |fields| < LIMIT && b == Element(0x30, fields)
  }

  lemma InfoIs(t: Tlv, kind: Bytes, content: Bytes)
    ensures ParseContentInfo(t) == Ok((kind, Item(0xA0, content))) <==> IsInfo(t.full, kind, content)
  {
    hide SequenceElements, RawOid, IsIdentifier, Element, Item, ReadWhole;
    var items := [Item(6, kind), Item(0xA0, content)];
    FieldsAre(t.full, 2, items);
    ConcatTwo(Item(6, kind), Item(0xA0, content));
    if IsInfo(t.full, kind, content) {
      ShortParts(6, kind, 0xA0, content);
      ElementReads(6, kind);
      ElementReads(0xA0, content);
      TwoReadable(Item(6, kind), Item(0xA0, content));
      OidIs(Item(6, kind), kind);
      ExplicitIs(Item(0xA0, content));
    }
    if ParseContentInfo(t) == Ok((kind, Item(0xA0, content))) {
      var fields := SequenceElements(t.full, 2).items;
      FieldsAre(t.full, 2, fields);
      OidIs(fields[0], kind);
      assert fields == items;
    }
  }

  lemma ExplicitIs(t: Tlv)
    requires ReadWhole(t.full) == Some(t)
    ensures IsExplicit0(t) <==> |t.content| < LIMIT && t == Item(0xA0, t.content)
  {
    hide ReadWhole;
    ShapedIsWritten(t, 0xA0);
  }

  lemma ShortParts(a: byte, x: Bytes, b: byte, y: Bytes)
    ensures |x| < |Element(a, x) + Element(b, y)| && |y| < |Element(a, x) + Element(b, y)|
  {
    hide Element;
  }

  lemma TwoReadable(a: Tlv, b: Tlv)
    requires ReadWhole(a.full) == Some(a) && ReadWhole(b.full) == Some(b)
    ensures Readable([a, b])
  {
  }

  lemma ExplicitValue(t: Tlv)
    requires ParseContentInfo(t).Ok?
    ensures var v := ParseContentInfo(t).value.1; v == Item(0xA0, v.content)
  {
    hide SequenceElements, RawOid, Item, ReadWhole;
    var fields := SequenceElements(t.full, 2).items;
    FieldsAre(t.full, 2, fields);
    ExplicitIs(fields[1]);
  }

  /** A field that may be missing. */
  function Optional(identifier: byte, content: Option<Bytes>): Bytes {
    if content.Some? then Element(identifier, content.value) else []
  }

  /** A SafeBag: its type, explicitly tagged its value, and possibly attributes. */
  predicate IsBag(b: Bytes, id: Bytes, value: Bytes, attributes: Option<Bytes>) {
    var fields := Element(6, id) + (Element(0xA0, value) + Optional(0x31, attributes));
    IsIdentifier(id) && |fields| < LIMIT && b == Element(0x30, fields)
  }

  function BagRead(id: Bytes, value: Bytes, attributes: Option<Bytes>): SafeBag {
    SafeBag(id, Item(0xA0, value), if attributes.Some? then Some(Item(0x31, attributes.value)) else None)
  }

  lemma BagReads(t: Tlv, id: Bytes, value: Bytes, attributes: Option<Bytes>)
    requires IsBag(t.full, id, value, attributes)
    ensures ParseSafeBag(t) == Ok(BagRead(id, value, attributes))
  {
    hide SequenceElements, RawOid, IsIdentifier, Element, ReadWhole;
    ElementIsLonger(6, id);
    ElementIsLonger(0xA0, value);
    ElementReads(6, id);
    OidIs(Item(6, id), id);
    if attributes.None? {
      assert Element(0xA0, value) + [] == Element(0xA0, value);
      TwoFields(6, id, 0xA0, value, 3);
    } else {
      ThreeFields(6, id, 0xA0, value, 0x31, attributes.value, 3);
    }
  }

  lemma ElementIsLonger(identifier: byte, content: Bytes)
    ensures |Element(identifier, content)| > |content|
  {
    hide Element;
  }

  lemma BagWasWritten(t: Tlv) returns (id: Bytes, value: Bytes, attributes: Option<Bytes>)
    requires ParseSafeBag(t).Ok?
    ensures IsBag(t.full, id, value, attributes) && ParseSafeBag(t) == Ok(BagRead(id, value, attributes))
  {
    hide SequenceElements, RawOid, IsIdentifier, Element, Item, ReadWhole;
    var items := SequenceElements(t.full, 3).items;
    FieldsAre(t.full, 3, items);
    id, value, attributes := RawOid(items[0]).value, items[1].content, None;
    OidIs(items[0], id);
    ExplicitIs(items[1]);
    if |items| == 2 {
      ConcatTwo(items[0], items[1]);
      assert items == [items[0], items[1]] && items[1].full + [] == items[1].full;
    } else {
      attributes := Some(items[2].content);
      SetIs(items[2]);
      ConcatThree(items[0], items[1], items[2]);
      assert items == [items[0], items[1], items[2]];
    }
    ItemIs(6, id);
    ItemIs(0xA0, value);
    if attributes.Some? {
      ItemIs(0x31, attributes.value);
    }
  }

  lemma ItemIs(identifier: byte, content: Bytes)
    ensures Item(identifier, content).full == Element(identifier, content)
    ensures Item(identifier, content).content == content
  {
    hide Element;
  }

  lemma SetIs(t: Tlv)
    requires ReadWhole(t.full) == Some(t)
    ensures IsSet(t) <==> |t.content| < LIMIT && t == Item(0x31, t.content)
  {
    hide ReadWhole;
    ShapedIsWritten(t, 0x31);
  }

  /** A certBag holds an X.509 certificate in an OCTET STRING. */
  predicate IsCertificate(b: Bytes, der: Bytes) {
    var fields := Element(6, Identifier(RSA + [9, 22, 1])) + Element(0xA0, Element(4, der));
    |fields| < LIMIT && b == Element(0x30, fields)
  }

  lemma CertificateIs(value: Tlv, der: Bytes)
    ensures CertificateBag(value) == Ok(der) <==> IsCertificate(value.content, der)
  {
    hide SequenceElements, RawOid, Element, Item, ReadWhole, Identifier, OctetString, IsIdentifier;
    IdentifiersAreTheirArcs();
    KnownOids();
    var kind, content := OID_X509_CERTIFICATE, Element(4, der);
    if IsCertificate(value.content, der) {
      ShortParts(6, kind, 0xA0, content);
      ElementIsLonger(4, der);
      TwoFields(6, kind, 0xA0, content, 2);
      ElementReads(0xA0, content);
      ExplicitIs(Item(0xA0, content));
      ItemIs(0xA0, content);
      OctetsAre(content, der);
    }
    if CertificateBag(value) == Ok(der) {
      var items := SequenceElements(value.content, 2).items;
      FieldsAre(value.content, 2, items);
      ConcatTwo(items[0], items[1]);
      assert items == [items[0], items[1]];
      OidIs(items[0], kind);
      ExplicitIs(items[1]);
      OctetsAre(items[1].content, der);
      ItemIs(6, kind);
      ItemIs(0xA0, items[1].content);
    }
  }

  // -------------------------------------------------------------------------- names

  /** A friendly name is one string: UTF-8, printable or IA5 characters are kept as they
      are, UTF-16 is decoded; nothing else is a name. */
  lemma StringIs(codec: Codec, value: Tlv, name: Name)
    ensures DecodeString(codec, value) == Ok(name) <==>
      value.class_ == 0 &&
      match name
      case Unnamed => false
      case Raw(bytes) =>
        bytes == value.content && (value.tag == 19 || value.tag == 22 || (value.tag == 12 && codec.utf8(bytes)))
      case Decoded(text) => value.tag == 30 && value.content == EncodeUtf16BE(text)
  {
    hide EncodeUtf16BE, DecodeUtf16BE;
    if value.tag == 30 && name.Decoded? {
      Utf16Bijective(value.content, name.text);
    }
  }

  lemma NameValueIs(codec: Codec, values: Tlv, name: Name)
    requires ReadWhole(values.full) == Some(values)
    ensures NameValue(codec, values) == Ok(name) <==>
      exists value: Tlv ::
        && ReadWhole(value.full) == Some(value) && values == Item(0x31, value.full)
        && DecodeString(codec, value) == Ok(name)
  {
    hide ReadWhole, DecodeString, ReadTlv, Item;
    SetIs(values);
    ItemIs(0x31, values.content);
    if NameValue(codec, values) == Ok(name) {
      var value := ReadTlv(values.content).value;
      WholeAtHead(values.content);
    }
    if value: Tlv :|
      ReadWhole(value.full) == Some(value) && values == Item(0x31, value.full) && DecodeString(codec, value) == Ok(name)
    {
      ItemIs(0x31, value.full);
      SetOfItem(value.full, values);
      WholeIsHead(value);
    }
  }

  lemma SetOfItem(content: Bytes, t: Tlv)
    requires t == Item(0x31, content)
    ensures IsSet(t)
  {
    hide Element;
  }

  lemma WholeAtHead(b: Bytes)
    requires ReadTlv(b).Some? && |ReadTlv(b).value.full| == |b|
    ensures ReadTlv(b).value.full == b && ReadWhole(b) == ReadTlv(b)
  {
    hide ReadTag, ReadLength;
  }

  lemma WholeIsHead(t: Tlv)
    requires ReadWhole(t.full) == Some(t)
    ensures ReadTlv(t.full) == Some(t)
  {
    hide ReadTlv;
  }

  /** An attribute: its type, and one more element. */
  lemma AttributeIs(attribute: Tlv, index: nat, oid: Bytes, values: Tlv)
    ensures AttributeFields(attribute, index) == Ok((oid, values)) <==>
      var fields := Element(6, oid) + values.full;
      && IsIdentifier(oid) && ReadWhole(values.full) == Some(values) && |fields| < LIMIT
      && attribute.full == Element(0x30, fields)
  {
    hide SequenceElements, RawOid, IsIdentifier, Element, Item, ReadWhole;
    var items := [Item(6, oid), values];
    FieldsAre(attribute.full, 2, items);
    ConcatTwo(Item(6, oid), values);
    ItemIs(6, oid);
    if IsIdentifier(oid) && ReadWhole(values.full) == Some(values) && |Element(6, oid) + values.full| < LIMIT
       && attribute.full == Element(0x30, Element(6, oid) + values.full)
    {
      ElementIsLonger(6, oid);
      ElementReads(6, oid);
      TwoReadable(Item(6, oid), values);
      OidIs(Item(6, oid), oid);
    }
    if AttributeFields(attribute, index) == Ok((oid, values)) {
      var fields := SequenceElements(attribute.full, 2).items;
      FieldsAre(attribute.full, 2, fields);
      OidIs(fields[0], oid);
      assert fields == items;
    }
  }

  // ---------------------------------------------------------------- encrypted contents

  /** Nothing, or one element. */
  predicate AtMostOne(b: Bytes) {
    b == [] || ReadWhole(b).Some?
  }

  /** Nothing, or an element under the context-specific tag 0. */
  predicate AtMostTagged0(b: Bytes) {
    b == [] || (ReadWhole(b).Some? && ReadWhole(b).value.class_ == 2 && ReadWhole(b).value.tag == 0)
  }

  /** An EncryptedData of version 0 that says how its data are encrypted; what follows the
      algorithm, the encrypted content and further fields is not looked into. */
  predicate IsEncrypted(b: Bytes, algorithm: Bytes, parameters: Bytes, ciphertext: Bytes, rest: Bytes) {
    var method_ := Element(6, algorithm) + parameters;
    var info := Element(6, Identifier(RSA + [7, 1])) + (Element(0x30, method_) + ciphertext);
    var fields := Element(2, [0]) + (Element(0x30, info) + rest);
    && IsIdentifier(algorithm) && AtMostOne(parameters) && AtMostTagged0(ciphertext) && AtMostOne(rest)
    && |fields| < LIMIT && b == Element(0x30, fields)
  }

  /** A SEQUENCE of one element and perhaps another, or of two and perhaps a third. */
  lemma OneOrTwo(a: Tlv, rest: Bytes) returns (items: seq<Tlv>)
    requires ReadWhole(a.full) == Some(a) && AtMostOne(rest) && |a.full + rest| < LIMIT
    ensures SequenceElements(Element(0x30, a.full + rest), 2) == Fields(items)
    ensures 1 <= |items| <= 2 && items[0] == a
  {
    hide SequenceElements, ReadWhole, Element;
    if rest == [] {
      items := [a];
      ConcatOne(a);
      assert a.full + rest == a.full;
    } else {
      WholeIsItself(rest);
      items := [a, ReadWhole(rest).value];
      ConcatTwo(a, items[1]);
    }
    FieldsAre(Element(0x30, a.full + rest), 2, items);
  }

  lemma TwoOrThree(a: Tlv, b: Tlv, rest: Bytes) returns (items: seq<Tlv>)
    requires ReadWhole(a.full) == Some(a) && ReadWhole(b.full) == Some(b) && AtMostOne(rest)
    requires |a.full + (b.full + rest)| < LIMIT
    ensures SequenceElements(Element(0x30, a.full + (b.full + rest)), 3) == Fields(items)
    ensures 2 <= |items| <= 3 && items[0] == a && items[1] == b
    ensures if rest == [] then |items| == 2 else |items| == 3 && ReadWhole(rest) == Some(items[2])
  {
    hide SequenceElements, ReadWhole, Element;
    if rest == [] {
      items := [a, b];
      ConcatTwo(a, b);
      assert b.full + rest == b.full;
    } else {
      WholeIsItself(rest);
      items := [a, b, ReadWhole(rest).value];
      ConcatThree(a, b, items[2]);
    }
    FieldsAre(Element(0x30, a.full + (b.full + rest)), 3, items);
  }

  lemma WrittenEncryptedReads(
    value: Tlv, index: nat, algorithm: Bytes, parameters: Bytes, ciphertext: Bytes, rest: Bytes)
    requires IsEncrypted(value.content, algorithm, parameters, ciphertext, rest)
    ensures ParseEncrypted(value, index) == Ok(EncryptedContent(index, algorithm))
  {
    hide SequenceElements, RawOid, RawInteger, IsIdentifier, Element, ReadWhole, Identifier, EncryptedInfo;
    var method_ := Element(6, algorithm) + parameters;
    var info := Element(6, OID_DATA) + (Element(0x30, method_) + ciphertext);
    IdentifiersAreTheirArcs();
    PartsAreShort(algorithm, parameters, ciphertext, rest);
    ElementReads(2, [0]);
    IntegerIs(Item(2, [0]), 0);
    ElementReads(0x30, info);
    ItemIs(2, [0]);
    ItemIs(0x30, info);
    var items := TwoOrThree(Item(2, [0]), Item(0x30, info), rest);
    InfoOfEncrypted(index, algorithm, parameters, ciphertext);
  }

  lemma PartsAreShort(algorithm: Bytes, parameters: Bytes, ciphertext: Bytes, rest: Bytes)
    ensures
      var method_ := Element(6, algorithm) + parameters;
      var info := Element(6, OID_DATA) + (Element(0x30, method_) + ciphertext);
      |algorithm| <= |method_| <= |info| <= |Element(2, [0]) + (Element(0x30, info) + rest)|
  {
    hide Element;
  }

  lemma InfoOfEncrypted(index: nat, algorithm: Bytes, parameters: Bytes, ciphertext: Bytes)
    requires IsIdentifier(algorithm) && AtMostOne(parameters) && AtMostTagged0(ciphertext)
    requires |Element(6, OID_DATA) + (Element(0x30, Element(6, algorithm) + parameters) + ciphertext)| < LIMIT
    ensures
      var b := Element(0x30, Element(6, OID_DATA) + (Element(0x30, Element(6, algorithm) + parameters) + ciphertext));
      && SequenceElements(b, 3).Fields?
      && EncryptedInfo(SequenceElements(b, 3).items, index) == Ok(EncryptedContent(index, algorithm))
  {
    hide SequenceElements, RawOid, IsIdentifier, Element, Item, ReadWhole;
    var method_ := Element(6, algorithm) + parameters;
    PartsAreShort(algorithm, parameters, ciphertext, []);
    KnownOids();
    ElementReads(6, OID_DATA);
    ElementReads(0x30, method_);
    ElementReads(6, algorithm);
    ItemIs(6, algorithm);
    ItemIs(6, OID_DATA);
    ItemIs(0x30, method_);
    OidIs(Item(6, algorithm), algorithm);
    var fields := TwoOrThree(Item(6, OID_DATA), Item(0x30, method_), ciphertext);
    var parts := OneOrTwo(Item(6, algorithm), parameters);
  }

  lemma EncryptedWasWritten(value: Tlv, index: nat)
    returns (algorithm: Bytes, parameters: Bytes, ciphertext: Bytes, rest: Bytes)
    requires ParseEncrypted(value, index).Ok?
    ensures IsEncrypted(value.content, algorithm, parameters, ciphertext, rest)
    ensures ParseEncrypted(value, index) == Ok(EncryptedContent(index, algorithm))
  {
    hide SequenceElements, RawOid, RawInteger, IsIdentifier, Element, ReadWhole, Identifier, Item;
    var items := SequenceElements(value.content, 3).items;
    FieldsAre(value.content, 3, items);
    var fields := SequenceElements(items[1].full, 3).items;
    FieldsAre(items[1].full, 3, fields);
    var parts := SequenceElements(fields[1].full, 2).items;
    FieldsAre(fields[1].full, 2, parts);
    algorithm := RawOid(parts[0]).value;
    OidIs(parts[0], algorithm);
    OidIs(fields[0], OID_DATA);
    IntegerIs(items[0], 0);
    IdentifiersAreTheirArcs();
    ItemIs(6, algorithm);
    ItemIs(6, OID_DATA);
    ItemIs(2, [0]);
    rest := TailOfThree(items);
    ciphertext := TailOfThree(fields);
    parameters := TailOfTwo(parts);
  }

  lemma TailOfThree(items: seq<Tlv>) returns (tail: Bytes)
    requires 2 <= |items| <= 3 && Readable(items)
    ensures Concat(items) == items[0].full + (items[1].full + tail) && AtMostOne(tail)
    ensures if |items| == 2 then tail == [] else ReadWhole(tail) == Some(items[2])
  {
    hide ReadWhole;
    if |items| == 2 {
      ConcatTwo(items[0], items[1]);
      assert items == [items[0], items[1]];
      tail := [];
      assert items[1].full + [] == items[1].full;
    } else {
      ConcatThree(items[0], items[1], items[2]);
      assert items == [items[0], items[1], items[2]];
      tail := items[2].full;
    }
  }

  lemma TailOfTwo(items: seq<Tlv>) returns (tail: Bytes)
    requires 1 <= |items| <= 2 && Readable(items)
    ensures Concat(items) == items[0].full + tail && AtMostOne(tail)
  {
    hide ReadWhole;
    if |items| == 1 {
      ConcatOne(items[0]);
      assert items == [items[0]];
      tail := [];
      assert items[0].full + [] == items[0].full;
    } else {
      ConcatTwo(items[0], items[1]);
      assert items == [items[0], items[1]];
      tail := items[1].full;
    }
  }

  // ---------------------------------------------------------------------------- the PFX

  /** A PFX of version 3 over a list of contents, with or without one more element. */
  predicate IsPfx(data: Bytes, contents: seq<Tlv>, mac: Bytes) {
    var list := Concat(contents);
    var safe := Element(6, Identifier(RSA + [7, 1])) + Element(0xA0, Element(4, Element(0x30, list)));
    var fields := Element(2, [3]) + (Element(0x30, safe) + mac);
    && Readable(contents) && |contents| <= MAX_CONTENT_INFOS && AtMostOne(mac)
    && |fields| < LIMIT && data == Element(0x30, fields)
  }

  lemma PfxReads(data: Bytes, contents: seq<Tlv>, mac: Bytes)
    requires IsPfx(data, contents, mac)
    ensures OpenPfx(data) == Ok(contents)
  {
    hide SequenceElements, RawInteger, ParseContentInfo, OctetString, Element, Item, ReadWhole, Identifier, Concat,
         Readable, IsIdentifier;
    IdentifiersAreTheirArcs();
    var list := Concat(contents);
    var content := Element(4, Element(0x30, list));
    var safe := Element(6, OID_DATA) + Element(0xA0, content);
    ListIsShort(list, mac);
    ElementReads(2, [3]);
    ElementReads(0x30, safe);
    ItemIs(2, [3]);
    ItemIs(0x30, safe);
    ItemIs(0xA0, content);
    IntegerIs(Item(2, [3]), 3);
    var items := TwoOrThree(Item(2, [3]), Item(0x30, safe), mac);
    DataIsIdentifier();
    InfoIs(Item(0x30, safe), OID_DATA, content);
    OctetsAre(content, Element(0x30, list));
    FieldsAre(Element(0x30, list), MAX_CONTENT_INFOS, contents);
  }

  lemma DataIsIdentifier()
    ensures IsIdentifier(OID_DATA) && IsIdentifier(OID_ENCRYPTED_DATA) && IsIdentifier(BagIdentifier(3))
    ensures IsIdentifier(BagIdentifier(6))
  {
    hide AllBase128, BagIdentifier;
    IdentifiersAreTheirArcs();
    RsaOid([0x01, 0x07, 0x01]);
    RsaOid([0x01, 0x07, 0x06]);
    RsaOid([0x01, 0x0C, 0x0A, 0x01, 0x03]);
    RsaOid([0x01, 0x0C, 0x0A, 0x01, 0x06]);
    assert OID_DATA == [0x2A, 0x86, 0x48, 0x86, 0xF7, 0x0D] + [0x01, 0x07, 0x01];
    assert OID_ENCRYPTED_DATA == [0x2A, 0x86, 0x48, 0x86, 0xF7, 0x0D] + [0x01, 0x07, 0x06];
    assert OID_CERT_BAG == [0x2A, 0x86, 0x48, 0x86, 0xF7, 0x0D] + [0x01, 0x0C, 0x0A, 0x01, 0x03];
    assert OID_SAFE_CONTENTS_BAG == [0x2A, 0x86, 0x48, 0x86, 0xF7, 0x0D] + [0x01, 0x0C, 0x0A, 0x01, 0x06];
  }

  lemma ListIsShort(list: Bytes, mac: Bytes)
    ensures
      var content := Element(4, Element(0x30, list));
      var safe := Element(6, OID_DATA) + Element(0xA0, content);
      |list| <= |Element(0x30, list)| <= |content| <= |safe| <= |Element(2, [3]) + (Element(0x30, safe) + mac)|
  {
    hide Element;
  }

  lemma PfxWasWritten(data: Bytes) returns (mac: Bytes)
    requires OpenPfx(data).Ok?
    ensures IsPfx(data, OpenPfx(data).value, mac)
  {
    hide SequenceElements, RawInteger, ParseContentInfo, OctetString, Element, Item, ReadWhole, Identifier, Concat,
         Readable, IsIdentifier;
    IdentifiersAreTheirArcs();
    var outer := SequenceElements(data, 3).items;
    FieldsAre(data, 3, outer);
    FirstIsReadable(outer);
    IntegerIs(outer[0], 3);
    ItemIs(2, [3]);
    var content := ParseContentInfo(outer[1]).value.1.content;
    ExplicitValue(outer[1]);
    InfoIs(outer[1], OID_DATA, content);
    var safe := OctetString(content).value;
    OctetsAre(content, safe);
    FieldsAre(safe, MAX_CONTENT_INFOS, OpenPfx(data).value);
    mac := TailOfThree(outer);
  }

  lemma FirstIsReadable(items: seq<Tlv>)
    requires items != [] && Readable(items)
    ensures ReadWhole(items[0].full) == Some(items[0])
  {
    hide ReadWhole;
  }

  // ---------------------------------------------------------------- what a bag gives

  /** A bag can be read in one way only. */
  lemma OnlyBag(t: Tlv, id: Bytes, value: Bytes, attributes: Option<Bytes>)
    requires IsBag(t.full, id, value, attributes)
    ensures forall i, v, a :: IsBag(t.full, i, v, a) ==> i == id && v == value && a == attributes
  {
    hide IsBag, ParseSafeBag, Item;
    BagReads(t, id, value, attributes);
    forall i, v, a | IsBag(t.full, i, v, a) ensures i == id && v == value && a == attributes {
      BagReads(t, i, v, a);
      ItemIs(0xA0, v);
      ItemIs(0xA0, value);
      if a.Some? {
        ItemIs(0x31, a.value);
      }
      if attributes.Some? {
        ItemIs(0x31, attributes.value);
      }
    }
  }

  /** The name of a bag: none when an attribute in front of it is malformed. */
  function NameOf(codec: Codec, attributes: Option<Bytes>): Name {
    if attributes.None? then Unnamed
    else match NameFrom(codec, attributes.value, 0) case Ok(name) => name case Err(_) => Unnamed
  }

  /** A certBag gives its certificate exactly when the certificate is accepted, under the
      next chain index and unnamed when its name cannot be read, and takes its chain index
      in any case; a key of any kind is counted, silently as an unknown bag is passed
      over; and what is no bag leaves nothing but a problem. */
  lemma BagGives(codec: Codec, t: Tlv, index: nat, depth: nat, chain: nat, bagCount: nat)
    requires depth <= MAX_SAFE_CONTENTS_DEPTH && 1 <= bagCount <= MAX_BAGS
    ensures
      var r := OneBag(codec, t, index, depth, chain, bagCount);
      && (forall id, value, attributes :: IsBag(t.full, id, value, attributes) ==>
            && (id == BagIdentifier(3) ==>
                  && r.chain == chain + 1 && r.keyBags == 0 && r.bagCount == bagCount
                  && forall c :: c in r.certificates <==>
                       && IsCertificate(value, c.der) && codec.accepts(c.der)
                       && c == Certificate(c.der, NameOf(codec, attributes), chain, false))
            && (IsKeyIdentifier(id) ==> r == Safe([], [], chain, bagCount, 1, 1))
            && (IsUnknownIdentifier(id) ==> r == Safe([], [], chain, bagCount, 0, 1)))
      && ((forall id, value, attributes :: !IsBag(t.full, id, value, attributes)) ==>
            r.certificates == [] && |r.problems| == 1 && r.chain == chain && r.keyBags == 0)
  {
    hide ParseSafeBag, CertBagResult, Kind, SafeContents, IsBag, BagIdentifier, IsKeyIdentifier, IsUnknownIdentifier,
         Item, IsCertificate, NameOf;
    if ParseSafeBag(t).Ok? {
      var id, value, attributes := BagWasWritten(t);
      OnlyBag(t, id, value, attributes);
      KindsAreTheirArcs(id);
      BagIdentifierIs(3);
      if Kind(id) == CertBag {
        CertBagGives(codec, id, value, attributes, index, chain, bagCount);
      }
    } else {
      NoBag(t);
    }
  }

  lemma CertBagGives(
    codec: Codec, id: Bytes, value: Bytes, attributes: Option<Bytes>, index: nat, chain: nat, bagCount: nat)
    ensures
      var r := CertBagResult(codec, BagRead(id, value, attributes), index, chain, bagCount);
      && r.chain == chain + 1 && r.keyBags == 0 && r.bagCount == bagCount
      && forall c :: c in r.certificates <==>
           && IsCertificate(value, c.der) && codec.accepts(c.der)
           && c == Certificate(c.der, NameOf(codec, attributes), chain, false)
  {
    hide NameFrom, CertificateBag, IsCertificate, Item;
    var bag := BagRead(id, value, attributes);
    ItemIs(0xA0, value);
    if attributes.Some? {
      ItemIs(0x31, attributes.value);
    }
    forall der ensures CertificateBag(bag.value) == Ok(der) <==> IsCertificate(value, der) {
      CertificateIs(bag.value, der);
    }
  }

  // ------------------------------------------------------------------ nothing is wrong

  /** A certBag with an accepted certificate and well-formed attributes. */
  ghost predicate SoundCertificate(codec: Codec, value: Bytes, attributes: Option<Bytes>) {
    && (attributes.Some? ==> NameFrom(codec, attributes.value, 0).Ok?)
    && exists der :: IsCertificate(value, der) && codec.accepts(der)
  }

  /** A bag of any type; what certBags and nested SafeContents hold must be sound too. */
  ghost predicate SoundBag(codec: Codec, b: Bytes, depth: nat)
    requires depth <= MAX_SAFE_CONTENTS_DEPTH
    decreases 17 - depth, 1
  {
    exists id, value, attributes ::
      && IsBag(b, id, value, attributes)
      && (id == BagIdentifier(3) ==> SoundCertificate(codec, value, attributes))
      && (id == BagIdentifier(6) ==> SoundSafe(codec, value, depth + 1))
  }

  /** A SafeContents no deeper than the limit: a list of sound bags. */
  ghost predicate SoundSafe(codec: Codec, b: Bytes, depth: nat)
    requires depth <= 17
    decreases 17 - depth, 2
  {
    && depth <= MAX_SAFE_CONTENTS_DEPTH
    && exists bags: seq<Tlv> :: IsList(b, bags) && forall i :: 0 <= i < |bags| ==> SoundBag(codec, bags[i].full, depth)
  }

  predicate IsList(b: Bytes, bags: seq<Tlv>) {
    |bags| <= MAX_BAGS + 1 && Readable(bags) && |Concat(bags)| < LIMIT && b == Element(0x30, Concat(bags))
  }

  lemma CertificateNil(
    codec: Codec, id: Bytes, value: Bytes, attributes: Option<Bytes>, index: nat, chain: nat, bagCount: nat)
    ensures CertBagResult(codec, BagRead(id, value, attributes), index, chain, bagCount).problems == [] <==>
            SoundCertificate(codec, value, attributes)
  {
    hide NameFrom, CertificateBag, IsCertificate, Item;
    var bag := BagRead(id, value, attributes);
    ItemIs(0xA0, value);
    if attributes.Some? {
      ItemIs(0x31, attributes.value);
    }
    forall der ensures CertificateBag(bag.value) == Ok(der) <==> IsCertificate(value, der) {
      CertificateIs(bag.value, der);
    }
    if CertificateBag(bag.value).Ok? {
      assert IsCertificate(value, CertificateBag(bag.value).value);
    }
  }

  lemma {:induction false} BagNil(codec: Codec, t: Tlv, index: nat, depth: nat, chain: nat, bagCount: nat)
    requires depth <= MAX_SAFE_CONTENTS_DEPTH && 1 <= bagCount <= MAX_BAGS
    ensures
      var r := OneBag(codec, t, index, depth, chain, bagCount);
      r.problems == [] <==> SoundBag(codec, t.full, depth) && bagCount - 1 + CountOf(t, depth) <= MAX_BAGS
    decreases 17 - depth, 0, 0
  {
    hide ParseSafeBag, CertBagResult, Kind, SafeContents, CountWithin, SoundSafe, SoundCertificate, IsBag,
         BagIdentifier, IsKeyIdentifier, IsUnknownIdentifier, Item;
    if ParseSafeBag(t).Ok? {
      var id, value, attributes := BagWasWritten(t);
      ItemIs(0xA0, value);
      OnlyBag(t, id, value, attributes);
      KindsAreTheirArcs(id);
      BagIdentifierIs(3);
      BagIdentifierIs(6);
      if Kind(id) == CertBag {
        CertificateNil(codec, id, value, attributes, index, chain, bagCount);
      }
      if Kind(id) == SafeContentsBag {
        SafeNil(codec, value, depth + 1, chain, bagCount);
      }
    } else {
      NoBag(t);
    }
  }

  lemma NoBag(t: Tlv)
    requires ParseSafeBag(t).Err?
    ensures forall i, v, a :: !IsBag(t.full, i, v, a)
  {
    hide IsBag, ParseSafeBag;
    forall i, v, a ensures !IsBag(t.full, i, v, a) {
      if IsBag(t.full, i, v, a) {
        BagReads(t, i, v, a);
      }
    }
  }

  ghost predicate SoundFrom(codec: Codec, bags: seq<Tlv>, index: nat, depth: nat)
    requires depth <= MAX_SAFE_CONTENTS_DEPTH
  {
    forall i :: index <= i < |bags| ==> SoundBag(codec, bags[i].full, depth)
  }

  lemma {:induction false} BagsNil(codec: Codec, bags: seq<Tlv>, index: nat, depth: nat, chain: nat, bagCount: nat)
    requires depth <= MAX_SAFE_CONTENTS_DEPTH && index <= |bags| && bagCount <= MAX_BAGS
    ensures
      var r := Bags(codec, bags, index, depth, chain, bagCount);
      r.problems == [] <==>
        SoundFrom(codec, bags, index, depth) && bagCount + CountFrom(bags, index, depth) <= MAX_BAGS
    decreases 17 - depth, 1, |bags| - index
  {
    hide OneBag, CountOf, SoundBag;
    if index < |bags| {
      BagIsCounted(bags[index], depth);
      if bagCount < MAX_BAGS {
        BagsStep(codec, bags, index, depth, chain, bagCount);
        BagNil(codec, bags[index], index, depth, chain, bagCount + 1);
        var one := OneBag(codec, bags[index], index, depth, chain, bagCount + 1);
        if bagCount + CountOf(bags[index], depth) <= MAX_BAGS {
          BagTraversal(codec, bags[index], index, depth, chain, bagCount + 1);
          BagsNil(codec, bags, index + 1, depth, one.chain, one.bagCount);
          assert SoundFrom(codec, bags, index, depth) <==>
            SoundBag(codec, bags[index].full, depth) && SoundFrom(codec, bags, index + 1, depth);
        }
      }
    }
  }

  lemma {:induction false} SafeNil(codec: Codec, encoded: Bytes, depth: nat, chain: nat, bagCount: nat)
    requires depth <= 17 && bagCount <= MAX_BAGS
    ensures
      var r := SafeContents(codec, encoded, depth, chain, bagCount);
      r.problems == [] <==> SoundSafe(codec, encoded, depth) && bagCount + CountWithin(encoded, depth) <= MAX_BAGS
    decreases 17 - depth, 2, 0
  {
    hide SequenceElements, SoundBag, IsList, Bags, CountFrom;
    if depth <= MAX_SAFE_CONTENTS_DEPTH {
      forall bags ensures SequenceElements(encoded, MAX_BAGS + 1) == Fields(bags) <==> IsList(encoded, bags) {
        ListIs(encoded, bags);
      }
      if SequenceElements(encoded, MAX_BAGS + 1).Fields? {
        var bags := SequenceElements(encoded, MAX_BAGS + 1).items;
        BagsNil(codec, bags, 0, depth, chain, bagCount);
      }
    }
  }

  lemma ListIs(encoded: Bytes, bags: seq<Tlv>)
    ensures SequenceElements(encoded, MAX_BAGS + 1) == Fields(bags) <==> IsList(encoded, bags)
  {
    hide SequenceElements, Readable, Concat, Element;
    FieldsAre(encoded, MAX_BAGS + 1, bags);
  }

  // --------------------------------------------------------------------- the whole file

  /** An OCTET STRING around a sound SafeContents. */
  ghost predicate SoundData(codec: Codec, content: Bytes) {
    exists safe :: content == Element(4, safe) && |safe| < LIMIT && SoundSafe(codec, safe, 0)
  }

  ghost predicate SoundEncrypted(content: Bytes) {
    exists algorithm, parameters, ciphertext, rest :: IsEncrypted(content, algorithm, parameters, ciphertext, rest)
  }

  /** A ContentInfo of plaintext bags, or of encrypted data. */
  ghost predicate SoundContent(codec: Codec, b: Bytes) {
    || (exists content :: IsInfo(b, Identifier(RSA + [7, 1]), content) && SoundData(codec, content))
    || (exists content :: IsInfo(b, Identifier(RSA + [7, 6]), content) && SoundEncrypted(content))
  }

  ghost predicate SoundPfx(codec: Codec, data: Bytes) {
    exists contents: seq<Tlv>, mac: Bytes ::
      && IsPfx(data, contents, mac) && AllBags(contents, 0) <= MAX_BAGS
      && forall i :: 0 <= i < |contents| ==> SoundContent(codec, contents[i].full)
  }

  lemma OnlyInfo(t: Tlv, kind: Bytes, content: Bytes)
    requires IsInfo(t.full, kind, content)
    ensures forall k, c :: IsInfo(t.full, k, c) ==> k == kind && c == content
  {
    hide IsInfo, ParseContentInfo, Item;
    InfoIs(t, kind, content);
    forall k, c | IsInfo(t.full, k, c) ensures k == kind && c == content {
      InfoIs(t, k, c);
      ItemIs(0xA0, c);
      ItemIs(0xA0, content);
    }
  }

  lemma NoInfo(t: Tlv)
    requires ParseContentInfo(t).Err?
    ensures forall k, c :: !IsInfo(t.full, k, c)
  {
    hide IsInfo, ParseContentInfo, Item;
    forall k, c ensures !IsInfo(t.full, k, c) {
      InfoIs(t, k, c);
    }
  }

  lemma DataNil(codec: Codec, content: Bytes)
    ensures SoundData(codec, content) <==>
            OctetString(content).Ok? && SoundSafe(codec, OctetString(content).value, 0)
  {
    hide OctetString, Element, SoundSafe;
    forall safe ensures OctetString(content) == Ok(safe) <==> |safe| < LIMIT && content == Element(4, safe) {
      OctetsAre(content, safe);
    }
  }

  lemma EncryptedNil(value: Tlv, index: nat)
    ensures ParseEncrypted(value, index).Ok? <==> SoundEncrypted(value.content)
  {
    hide ParseEncrypted, IsEncrypted;
    if ParseEncrypted(value, index).Ok? {
      var algorithm, parameters, ciphertext, rest := EncryptedWasWritten(value, index);
    }
    if algorithm, parameters, ciphertext, rest :| IsEncrypted(value.content, algorithm, parameters, ciphertext, rest) {
      WrittenEncryptedReads(value, index, algorithm, parameters, ciphertext, rest);
    }
  }

  lemma KindDecides(codec: Codec, t: Tlv, kind: Bytes, content: Bytes)
    requires IsInfo(t.full, kind, content)
    ensures SoundContent(codec, t.full) <==>
            (kind == OID_DATA && SoundData(codec, content)) || (kind == OID_ENCRYPTED_DATA && SoundEncrypted(content))
  {
    hide IsInfo, SoundData, SoundEncrypted, Identifier;
    OnlyInfo(t, kind, content);
    IdentifiersAreTheirArcs();
  }

  lemma ContentNil(codec: Codec, t: Tlv, index: nat, bagCount: nat)
    requires bagCount <= MAX_BAGS
    ensures
      var r := OneContent(codec, t, index, bagCount);
      r.problems == [] <==> SoundContent(codec, t.full) && bagCount + CountOfContent(t) <= MAX_BAGS
  {
    hide ParseContentInfo, OctetString, ParseEncrypted, SafeContents, CountWithin, SoundSafe, IsInfo, SoundData,
         SoundEncrypted, SoundContent, Item;
    if ParseContentInfo(t).Err? {
      NoInfo(t);
      NotSound(codec, t);
    } else {
      var (kind, value) := ParseContentInfo(t).value;
      ExplicitValue(t);
      InfoIs(t, kind, value.content);
      KindDecides(codec, t, kind, value.content);
      DataNil(codec, value.content);
      EncryptedNil(value, index);
      if kind == OID_DATA && OctetString(value.content).Ok? {
        SafeNil(codec, OctetString(value.content).value, 0, 0, bagCount);
      }
    }
  }

  /** A ContentInfo of a SafeContents in plain text. */
  predicate HoldsBags(b: Bytes, safe: Bytes) {
    |safe| < LIMIT && IsInfo(b, Identifier(RSA + [7, 1]), Element(4, safe))
  }

  /** A ContentInfo of encrypted data, and its algorithm. */
  ghost predicate HoldsEncrypted(b: Bytes, algorithm: Bytes) {
    exists content, parameters, ciphertext, rest ::
      IsInfo(b, Identifier(RSA + [7, 6]), content) && IsEncrypted(content, algorithm, parameters, ciphertext, rest)
  }

  /** A content gives the certificates and keys of its plaintext bags, numbered from 0; or
      its encryption algorithm under its own number; and otherwise, whatever is wrong with
      it, nothing but one problem. */
  lemma ContentGives(codec: Codec, t: Tlv, index: nat, bagCount: nat)
    ensures
      var r := OneContent(codec, t, index, bagCount);
      && (forall safe :: HoldsBags(t.full, safe) ==>
            var inside := SafeContents(codec, safe, 0, 0, bagCount);
            && r.certificates == inside.certificates && r.encrypted == []
            && r.keyBags == inside.keyBags && r.bagCount == inside.bagCount)
      && (forall algorithm :: HoldsEncrypted(t.full, algorithm) ==>
            r == Run([], [EncryptedContent(index, algorithm)], [], bagCount, 0, 0))
      && ((forall safe :: !HoldsBags(t.full, safe)) && (forall algorithm :: !HoldsEncrypted(t.full, algorithm)) ==>
            exists problem :: r == Run([], [], [problem], bagCount, 0, 0))
  {
    hide ParseContentInfo, OctetString, ParseEncrypted, SafeContents, IsInfo, IsEncrypted, Item, Element, Identifier,
         HoldsBags, HoldsEncrypted;
    if ParseContentInfo(t).Err? {
      NoInfo(t);
      HoldsNothing(t.full);
    } else {
      var (kind, value) := ParseContentInfo(t).value;
      ExplicitValue(t);
      InfoIs(t, kind, value.content);
      HoldsByKind(t, kind, value, index);
      if kind == OID_DATA && OctetString(value.content).Ok? {
        assert HoldsBags(t.full, OctetString(value.content).value);
      } else if kind == OID_ENCRYPTED_DATA && ParseEncrypted(value, index).Ok? {
        assert HoldsEncrypted(t.full, ParseEncrypted(value, index).value.algorithm);
      }
    }
  }

  lemma HoldsNothing(b: Bytes)
    requires forall k, c :: !IsInfo(b, k, c)
    ensures (forall safe :: !HoldsBags(b, safe)) && forall algorithm :: !HoldsEncrypted(b, algorithm)
  {
    hide IsInfo, IsEncrypted;
  }

  lemma HoldsByKind(t: Tlv, kind: Bytes, value: Tlv, index: nat)
    requires IsInfo(t.full, kind, value.content)
    ensures forall safe :: HoldsBags(t.full, safe) <==> kind == OID_DATA && OctetString(value.content) == Ok(safe)
    ensures forall algorithm :: HoldsEncrypted(t.full, algorithm) <==>
              kind == OID_ENCRYPTED_DATA && ParseEncrypted(value, index) == Ok(EncryptedContent(index, algorithm))
    ensures ParseEncrypted(value, index).Ok? ==> ParseEncrypted(value, index).value.contentIndex == index
  {
    hide IsInfo, IsEncrypted, OctetString, ParseEncrypted, Element, Identifier, Item;
    OnlyInfo(t, kind, value.content);
    IdentifiersAreTheirArcs();
    forall safe
      ensures OctetString(value.content) == Ok(safe) <==> |safe| < LIMIT && value.content == Element(4, safe)
    {
      OctetsAre(value.content, safe);
    }
    forall algorithm, parameters, ciphertext, rest | IsEncrypted(value.content, algorithm, parameters, ciphertext, rest)
      ensures ParseEncrypted(value, index) == Ok(EncryptedContent(index, algorithm))
    {
      WrittenEncryptedReads(value, index, algorithm, parameters, ciphertext, rest);
    }
    if ParseEncrypted(value, index).Ok? {
      var algorithm, parameters, ciphertext, rest := EncryptedWasWritten(value, index);
    }
  }

  /** A file that is no PFX of version 3 gives nothing but one problem; of one that is, the
      contents are read one after the other. */
  lemma PfxGives(codec: Codec, data: Bytes)
    ensures (forall contents: seq<Tlv>, mac: Bytes :: !IsPfx(data, contents, mac)) ==>
              exists problem :: Parse(codec, data) == Parsed([], [], [problem])
    ensures forall contents: seq<Tlv>, mac: Bytes :: IsPfx(data, contents, mac) ==>
              Parse(codec, data) == Conclude(ContentsFrom(codec, contents, 0, 0))
  {
    hide OpenPfx, ContentsFrom, IsPfx;
    if OpenPfx(data).Ok? {
      var mac := PfxWasWritten(data);
    }
    forall contents: seq<Tlv>, mac: Bytes | IsPfx(data, contents, mac) ensures OpenPfx(data) == Ok(contents) {
      PfxReads(data, contents, mac);
    }
  }

  lemma NotSound(codec: Codec, t: Tlv)
    requires forall k, c :: !IsInfo(t.full, k, c)
    ensures !SoundContent(codec, t.full)
  {
    hide IsInfo;
  }

  ghost predicate AllSound(codec: Codec, contents: seq<Tlv>, index: nat) {
    forall i :: index <= i < |contents| ==> SoundContent(codec, contents[i].full)
  }

  lemma {:induction false} ContentsNil(codec: Codec, contents: seq<Tlv>, index: nat, bagCount: nat)
    requires index <= |contents| && bagCount <= MAX_BAGS
    ensures
      var r := ContentsFrom(codec, contents, index, bagCount);
      r.problems == [] <==> AllSound(codec, contents, index) && bagCount + AllBags(contents, index) <= MAX_BAGS
    decreases |contents| - index
  {
    hide OneContent, CountOfContent, SoundContent;
    if index < |contents| {
      ContentNil(codec, contents[index], index, bagCount);
      if bagCount + CountOfContent(contents[index]) <= MAX_BAGS {
        ContentTraversal(codec, contents[index], index, bagCount);
        ContentsNil(codec, contents, index + 1, bagCount + CountOfContent(contents[index]));
        assert AllSound(codec, contents, index) <==>
          SoundContent(codec, contents[index].full) && AllSound(codec, contents, index + 1);
      }
    }
  }

  /** The error is nil exactly for the files of the grammar: a PFX whose contents are all
      encrypted data or plaintext bags, no more than 10,000 and no deeper than the limit,
      all of whose certBags hold accepted certificates and well-formed attributes. */
  lemma NilErrorMeansSound(codec: Codec, data: Bytes)
    ensures Parse(codec, data).problems == [] <==> SoundPfx(codec, data)
  {
    hide OpenPfx, ContentsFrom, IsPfx, SoundContent, AllBags;
    if OpenPfx(data).Ok? {
      var contents := OpenPfx(data).value;
      var mac := PfxWasWritten(data);
      ContentsNil(codec, contents, 0, 0);
    }
    if contents: seq<Tlv>, mac: Bytes :|
      && IsPfx(data, contents, mac) && AllBags(contents, 0) <= MAX_BAGS
      && forall i :: 0 <= i < |contents| ==> SoundContent(codec, contents[i].full)
    {
      PfxReads(data, contents, mac);
      ContentsNil(codec, contents, 0, 0);
    }
  }

  // ---------------------------------------------------------------------- what is sniffed

  /** An element's tag and length stand at an offset; its content may be missing. */
  predicate Opens(data: Bytes, at: nat, tag: byte, start: nat, length: nat) {
    length <= MAX_INT64 && start == at + 1 + |LengthField(length)| && At(data, at, [tag] + LengthField(length))
  }

  lemma OpensIs(data: Bytes, at: nat, limit: int, tag: byte, start: nat, length: nat)
    ensures ReadHeader(data, at, limit) == Some(Header(tag, start, start + length)) <==>
            Opens(data, at, tag, start, length) && start + length <= MAX_INT64 && start + length <= limit
  {
    hide ReadHeader, LengthField;
    HeaderIsCanonical(data, at, limit, Header(tag, start, start + length));
  }

  /** The beginning of a PFX: version 3, then a ContentInfo of data or signed data with its
      content explicitly tagged; every length stays inside the one around it. */
  predicate BeginsPfx(data: Bytes, a: nat, total: nat, c: nat, safe: nat, e: nat, content: nat, oid: Bytes) {
    var b, kind := a + 3, Element(6, oid);
    && (oid == Identifier(RSA + [7, 1]) || oid == Identifier(RSA + [7, 2]))
    && Opens(data, 0, 0x30, a, total) && a + total <= MAX_INT64
    && At(data, a, [2, 1, 3]) && Opens(data, b, 0x30, c, safe) && c + safe <= a + total
    && At(data, c, kind) && Opens(data, c + |kind|, 0xA0, e, content) && e + content <= c + safe
  }

  lemma ThreeIs(data: Bytes, a: nat, limit: int)
    requires a + 3 <= limit <= MAX_INT64
    ensures At(data, a, [2, 1, 3]) <==>
      ReadHeader(data, a, limit) == Some(Header(2, a + 2, a + 3)) && a + 3 <= |data| && data[a + 2] == 3
  {
    hide ReadHeader;
    OpensIs(data, a, limit, 2, a + 2, 1);
    assert LengthField(1) == [1] && [2] + [1] == [2, 1] && [2, 1] + [3] == [2, 1, 3];
    if At(data, a, [2, 1, 3]) {
      AtSplit(data, a, [2, 1], [3]);
      assert data[a + 2] == data[a + 2..a + 3][0];
    }
    if a + 3 <= |data| && At(data, a, [2, 1]) {
      assert data[a..a + 3] == data[a..a + 2] + [data[a + 2]];
    }
  }

  lemma PfxTypeIs(encoded: Bytes)
    ensures IsPfxType(encoded) <==>
      encoded == Element(6, Identifier(RSA + [7, 1])) || encoded == Element(6, Identifier(RSA + [7, 2]))
  {
    hide RawOid, ReadWhole, Element, Identifier, IsIdentifier;
    IdentifiersAreTheirArcs();
    if IsPfxType(encoded) {
      WholeIsItself(encoded);
      var t := ReadWhole(encoded).value;
      OidIs(t, RawOid(t).value);
      ItemIs(6, RawOid(t).value);
    }
    DataIsPfxType();
    SignedIsPfxType();
  }

  lemma SignedIsPfxType()
    ensures IsPfxType(Element(6, OID_SIGNED_DATA))
  {
    hide Element, RawOid;
    RsaOidReads(OID_SIGNED_DATA, [0x01, 0x07, 0x02]);
    ElementReads(6, OID_SIGNED_DATA);
  }

  lemma KindOpens(data: Bytes, c: nat, oid: Bytes, limit: int)
    requires |oid| == 9 && At(data, c, Element(6, oid)) && c + 11 <= limit <= MAX_INT64
    ensures ReadHeader(data, c, limit) == Some(Header(6, c + 2, c + 11)) && |Element(6, oid)| == 11
    ensures c + 11 <= |data| && data[c..c + 11] == Element(6, oid)
  {
    hide ReadHeader;
    OpensIs(data, c, limit, 6, c + 2, 9);
    assert LengthField(9) == [9];
    assert Element(6, oid) == ([6] + [9]) + oid;
    AtSplit(data, c, [6] + [9], oid);
  }

  lemma BeginningIsDetected(
    data: Bytes, a: nat, total: nat, c: nat, safe: nat, e: nat, content: nat, oid: Bytes)
    requires BeginsPfx(data, a, total, c, safe, e, content, oid)
    ensures Detect(data)
  {
    hide ReadHeader, Element, Identifier, IsPfxType, LengthField;
    IdentifiersAreTheirArcs();
    OpensIs(data, 0, MAX_INT64, 0x30, a, total);
    ThreeIs(data, a, a + total);
    OpensIs(data, a + 3, a + total, 0x30, c, safe);
    KindOpens(data, c, oid, c + safe);
    PfxTypeIs(data[c..c + 11]);
    OpensIs(data, c + 11, c + safe, 0xA0, e, content);
  }

  lemma DetectedBegins(data: Bytes)
    returns (a: nat, total: nat, c: nat, safe: nat, e: nat, content: nat, oid: Bytes)
    requires Detect(data)
    ensures BeginsPfx(data, a, total, c, safe, e, content, oid)
  {
    hide ReadHeader, Element, Identifier, IsPfxType, Opens;
    var outer := ReadHeader(data, 0, MAX_INT64).value;
    a, total := outer.content, outer.end - outer.content;
    OpensIs(data, 0, MAX_INT64, 0x30, a, total);
    var version := ReadHeader(data, a, outer.end).value;
    OpensIs(data, a, outer.end, 2, version.content, 1);
    OneOctetOpens(data, a, version.content);
    ThreeIs(data, a, outer.end);
    var authSafe := ReadHeader(data, a + 3, outer.end).value;
    c, safe := authSafe.content, authSafe.end - authSafe.content;
    OpensIs(data, a + 3, outer.end, 0x30, c, safe);
    var kind := ReadHeader(data, c, authSafe.end).value;
    PfxTypeIs(data[c..kind.end]);
    oid := if data[c..kind.end] == Element(6, Identifier(RSA + [7, 1])) then Identifier(RSA + [7, 1])
           else Identifier(RSA + [7, 2]);
    var value := ReadHeader(data, kind.end, authSafe.end).value;
    e, content := value.content, value.end - value.content;
    OpensIs(data, kind.end, authSafe.end, 0xA0, e, content);
    assert c + |Element(6, oid)| == kind.end;
  }

  lemma OneOctetOpens(data: Bytes, at: nat, start: nat)
    requires Opens(data, at, 2, start, 1)
    ensures start == at + 2
  {
    assert LengthField(1) == [1];
  }

  /** A file is taken for PKCS#12 exactly when it begins like a PFX. */
  lemma DetectIs(data: Bytes)
    ensures Detect(data) <==>
      exists a, total, c, safe, e, content, oid :: BeginsPfx(data, a, total, c, safe, e, content, oid)
  {
    hide Detect, BeginsPfx;
    if Detect(data) {
      var a, total, c, safe, e, content, oid := DetectedBegins(data);
    }
    if a, total, c, safe, e, content, oid :| BeginsPfx(data, a, total, c, safe, e, content, oid) {
      BeginningIsDetected(data, a, total, c, safe, e, content, oid);
    }
  }
}
