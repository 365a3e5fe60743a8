/** DER framing (section 10.1 of ITU-T X.690): the element-header sniffer of
    `internal/scanner/pkcs12.go`, and the strict tag-length-value reader that
    stands for `asn1.Unmarshal` into a raw value. */
module Der {
  import opened Common

  // ------------------------------------------------------------- length octets

  /** The number a big-endian octet string denotes. */
  function Number(b: Bytes): nat {
    if b == [] then 0 else 0x100 * Number(b[..|b| - 1]) + b[|b| - 1] as int
  }

  /** The shortest big-endian octet string for a number. */
  function Octets(n: nat): Bytes {
    if n == 0 then [] else Octets(n / 0x100) + [n % 0x100]
  }

  /** The DER length field. */
  function LengthField(n: nat): (b: Bytes)
    requires n < 0x1_0000_0000_0000_0000
    ensures 1 <= |b| <= 9
  {
    OctetsAreShort(n, 8);
    if n < 0x80 then [n] else [0x80 + |Octets(n)|] + Octets(n)
  }

  function Power256(k: nat): nat {
    if k == 0 then 1 else 0x100 * Power256(k - 1)
  }

  lemma {:induction false} OctetsAreShort(n: nat, k: nat)
    ensures n < Power256(k) <==> |Octets(n)| <= k
    ensures Power256(8) == 0x1_0000_0000_0000_0000
    decreases k
  {
    assert Power256(8) == 0x1_0000_0000_0000_0000 by {
      assert Power256(4) == 0x1_0000_0000;
    }
    if k == 0 {
      assert n > 0 ==> |Octets(n)| >= 1;
    } else if n > 0 {
      OctetsAreShort(n / 0x100, k - 1);
      assert n < 0x100 * Power256(k - 1) <==> n / 0x100 < Power256(k - 1);
    } else {
      PowerIsPositive(k);
    }
  }

  lemma {:induction false} PowerIsPositive(k: nat)
    ensures Power256(k) >= 1
  {
    if k > 0 {
      PowerIsPositive(k - 1);
    }
  }

  lemma {:induction false} NumberOfOctets(n: nat)
    ensures Number(Octets(n)) == n
    ensures n > 0 ==> Octets(n) != [] && Octets(n)[0] != 0
  {
    if n > 0 {
      NumberOfOctets(n / 0x100);
      assert Octets(n)[..|Octets(n)| - 1] == Octets(n / 0x100);
      assert n == 0x100 * (n / 0x100) + n % 0x100;
    }
  }

  lemma {:induction false} OctetsOfNumber(b: Bytes)
    requires b != [] ==> b[0] != 0
    ensures Octets(Number(b)) == b
    ensures b != [] ==> Number(b) > 0
    decreases |b|
  {
    if b != [] {
      var init, last := b[..|b| - 1], b[|b| - 1] as int;
      OctetsOfNumber(init);
      assert (0x100 * Number(init) + last) / 0x100 == Number(init);
      assert (0x100 * Number(init) + last) % 0x100 == last;
      assert b == init + [b[|b| - 1]];
    }
  }

  // --------------------------------------------------- the element-header sniffer

  datatype Header = Header(tag: byte, content: nat, end: nat)

  /** `readDERElementHeader`: a header at `offset` whose content, present in the data
      or not, ends by `limit`. */
  function ReadHeader(data: Bytes, offset: nat, limit: int): (r: Option<Header>)
    ensures r.Some? ==> offset + 2 <= r.value.content <= |data| && r.value.content <= offset + 10
    ensures r.Some? ==> r.value.content <= r.value.end <= limit
  {
    if offset + 2 > |data| || offset >= limit then None
    else
      var first := data[offset + 1];
      if first < 0x80 then CloseHeader(data[offset], offset + 2, first, limit)
      else
        var count := first as int - 0x80;
        if count == 0 || count > 8 || offset + 2 + count > |data| || data[offset + 2] == 0 then None
        else
          var length := Number(data[offset + 2..offset + 2 + count]);
          if length < 0x80 then None else CloseHeader(data[offset], offset + 2 + count, length, limit)
  }

  /** The overflow and limit tests at the end of the sniffer. */
  function CloseHeader(tag: byte, content: nat, length: nat, limit: int): (r: Option<Header>)
    ensures r.Some? ==> r.value.content == content <= r.value.end <= limit
  {
    if length > MAX_INT64 || content > MAX_INT64 - length || content + length > limit then None
    else Some(Header(tag, content, content + length))
  }

  /** The DER encoding of the header's tag and length stands at `offset` and leads up
      to the content. */
  predicate HeaderStands(data: Bytes, offset: nat, h: Header)
    requires h.content <= h.end <= MAX_INT64
  {
    && At(data, offset, [h.tag] + LengthField(h.end - h.content))
    && h.content == offset + 1 + |LengthField(h.end - h.content)|
  }

  /** Canonical framing: a header is read exactly where the one DER encoding of its
      tag and length stands, its content ends by the limit, and nothing overflows. */
  lemma HeaderIsCanonical(data: Bytes, offset: nat, limit: int, h: Header)
    ensures ReadHeader(data, offset, limit) == Some(h) <==>
            h.content <= h.end <= MAX_INT64 && h.end <= limit && HeaderStands(data, offset, h)
  {
    if h.content <= h.end <= MAX_INT64 && h.end <= limit && HeaderStands(data, offset, h) {
      HeaderReadsBack(data, offset, limit, h);
    }
    if ReadHeader(data, offset, limit) == Some(h) {
      HeaderWasWritten(data, offset, limit);
    }
  }

  /** The long form of a length field, without its definition. */
  lemma LongForm(length: nat) returns (octets: Bytes)
    requires 0x80 <= length <= MAX_INT64
    ensures 1 <= |octets| <= 8 && octets[0] != 0 && Number(octets) == length
    ensures LengthField(length) == [0x80 + |octets|] + octets
  {
    octets := Octets(length);
    OctetsAreShort(length, 8);
    NumberOfOctets(length);
  }

  lemma LongFormStands(data: Bytes, at: nat, octets: Bytes)
    requires 1 <= |octets| <= 8 && At(data, at, [0x80 + |octets|] + octets)
    ensures at + 1 + |octets| <= |data|
    ensures data[at] as int == 0x80 + |octets| && data[at + 1] == octets[0]
    ensures data[at + 1..at + 1 + |octets|] == octets
  {
    var first := 0x80 + |octets|;
    AtSplit(data, at, [first], octets);
    assert data[at] == data[at..at + 1][0];
    assert data[at + 1] == data[at + 1..at + 1 + |octets|][0];
  }

  lemma ShortHeaderReads(data: Bytes, offset: nat, limit: int, tag: byte, length: byte)
    requires length < 0x80 && offset < limit && At(data, offset, [tag, length])
    ensures ReadHeader(data, offset, limit) == CloseHeader(tag, offset + 2, length, limit)
  {
  }

  lemma LongHeaderReads(data: Bytes, offset: nat, limit: int, octets: Bytes)
    requires 1 <= |octets| <= 8 && octets[0] != 0 && Number(octets) >= 0x80 && offset < limit
    requires offset + 2 + |octets| <= |data| && data[offset + 1] as int == 0x80 + |octets|
    requires data[offset + 2] == octets[0] && data[offset + 2..offset + 2 + |octets|] == octets
    ensures ReadHeader(data, offset, limit) == CloseHeader(data[offset], offset + 2 + |octets|, Number(octets), limit)
  {
  }

  lemma LongHeaderStands(data: Bytes, offset: nat, limit: int, tag: byte, octets: Bytes)
    requires 1 <= |octets| <= 8 && octets[0] != 0 && Number(octets) >= 0x80 && offset < limit
    requires At(data, offset, [tag] + ([0x80 + |octets|] + octets))
    ensures ReadHeader(data, offset, limit) == CloseHeader(tag, offset + 2 + |octets|, Number(octets), limit)
  {
    hide ReadHeader, CloseHeader, Number;
    AtSplit(data, offset, [tag], [0x80 + |octets|] + octets);
    assert data[offset] == tag by {
      assert data[offset] == data[offset..offset + 1][0];
    }
    LongFormStands(data, offset + 1, octets);
    LongHeaderReads(data, offset, limit, octets);
  }

  lemma HeaderReadsBack(data: Bytes, offset: nat, limit: int, h: Header)
    requires h.content <= h.end <= MAX_INT64 && h.end <= limit && HeaderStands(data, offset, h)
    ensures ReadHeader(data, offset, limit) == Some(h)
  {
    var length := h.end - h.content;
    if length < 0x80 {
      assert [h.tag] + LengthField(length) == [h.tag, length];
      ShortHeaderReads(data, offset, limit, h.tag, length);
    } else {
      var octets := LongForm(length);
      LongHeaderStands(data, offset, limit, h.tag, octets);
      assert h.content == offset + 2 + |octets|;
    }
    ClosesAs(h, limit);
  }

  lemma ClosesAs(h: Header, limit: int)
    requires h.content <= h.end <= MAX_INT64 && h.end <= limit
    ensures CloseHeader(h.tag, h.content, h.end - h.content, limit) == Some(h)
  {
  }

  lemma HeaderWasWritten(data: Bytes, offset: nat, limit: int)
    requires ReadHeader(data, offset, limit).Some?
    ensures
      var h := ReadHeader(data, offset, limit).value;
      h.end <= MAX_INT64 && HeaderStands(data, offset, h)
  {
    var h := ReadHeader(data, offset, limit).value;
    var length := h.end - h.content;
    var first := data[offset + 1];
    if first < 0x80 {
      assert data[offset..offset + 2] == [h.tag] + LengthField(length);
    } else {
      var octets := data[offset + 2..h.content];
      OctetsOfNumber(octets);
      assert Octets(length) == octets;
      assert data[offset..h.content] == [h.tag] + ([first] + octets);
    }
  }

  /** `readDERElementHeader` with its length loop. */
  method ReadDerElementHeader(data: Bytes, offset: nat, limit: int) returns (header: Option<Header>)
    ensures header == ReadHeader(data, offset, limit)
  {
    if offset + 2 > |data| || offset >= limit {
      return None;
    }
    var tag, firstLength, at := data[offset], data[offset + 1], offset + 2;
    var length := 0;
    if firstLength < 0x80 {
      length := firstLength as int;
    } else {
      var lengthBytes := firstLength as int - 0x80;
      if lengthBytes == 0 || lengthBytes > 8 || at + lengthBytes > |data| || data[at] == 0 {
        return None;
      }
      var index := 0;
      while index < lengthBytes
        invariant 0 <= index <= lengthBytes
        invariant length == Number(data[at..at + index])
      {
        assert data[at..at + index + 1][..index] == data[at..at + index];
        length := length * 0x100 + data[at + index] as int;
        index := index + 1;
      }
      if length < 0x80 {
        return None;
      }
      at := at + lengthBytes;
    }
    if length > MAX_INT64 || at > MAX_INT64 - length {
      return None;
    }
    var end := at + length;
    if end > limit {
      return None;
    }
    return Some(Header(tag, at, end));
  }

  // ------------------------------------------------------- tag-length-value reader

  /** A raw element: class, tag number, constructed bit, content, and all its bytes. */
  datatype Tlv = Tlv(class_: nat, tag: nat, compound: bool, content: Bytes, full: Bytes)

  /** A base-128 number at the head of `b`: its value and length. It must be minimal,
      at most five octets and below 2^31. */
  function ReadBase128(b: Bytes, value: nat, used: nat): (r: Option<(nat, nat)>)
    ensures r.Some? ==> used < r.value.1 <= used + |b|
    decreases |b|
  {
    if b == [] || used == 5 || (used == 0 && b[0] == 0x80) then None
    else
      var more := 0x80 * value + b[0] as int % 0x80;
      if b[0] >= 0x80 then ReadBase128(b[1..], more, used + 1)
      else if more > 0x7FFF_FFFF then None
      else Some((more, used + 1))
  }

  /** Identifier octets: the tag number and how many octets it took. */
  function ReadTag(b: Bytes): (r: Option<(nat, nat)>)
    ensures r.Some? ==> 1 <= r.value.1 <= |b|
  {
    if b == [] then None
    else if b[0] % 0x20 != 0x1F then Some((b[0] % 0x20, 1))
    else
      var high := ReadBase128(b[1..], 0, 0);
      if high.None? || high.value.0 < 0x1F then None else Some((high.value.0, high.value.1 + 1))
  }

  /** A strict length field at `at`: minimal, definite, below 2^31. The result is the
      length and where the content starts. */
  function ReadLength(b: Bytes, at: nat): (r: Option<(nat, nat)>)
    ensures r.Some? ==> at < r.value.1 <= |b|
  {
    if at >= |b| then None
    else if b[at] < 0x80 then Some((b[at], at + 1))
    else
      var count := b[at] as int - 0x80;
      if count == 0 || at + 1 + count > |b| || b[at + 1] == 0 then None
      else
        var length := Number(b[at + 1..at + 1 + count]);
        if length < 0x80 || length >= 0x8000_0000 then None else Some((length, at + 1 + count))
  }

  /** The element at the head of `b`. */
  function ReadTlv(b: Bytes): (r: Option<Tlv>)
    ensures r.Some? ==> 2 <= |r.value.full| <= |b| && r.value.full == b[..|r.value.full|]
  {
    var tag := ReadTag(b);
    if tag.None? then None
    else
      var length := ReadLength(b, tag.value.1);
      if length.None? || length.value.1 + length.value.0 > |b| then None
      else
        var start, end := length.value.1, length.value.1 + length.value.0;
        Some(Tlv(b[0] as int / 0x40, tag.value.0, b[0] as int / 0x20 % 2 == 1, b[start..end], b[..end]))
  }

  /** The element when it is all of `b`. */
  function ReadWhole(b: Bytes): Option<Tlv> {
    var t := ReadTlv(b);
    if t.Some? && |t.value.full| == |b| then t else None
  }

  // ------------------------------------------------------------------- the writer

  /** An element with a one-octet identifier. */
  function Wrap(identifier: byte, content: Bytes): Bytes
    requires |content| < 0x8000_0000
  {
    [identifier] + (LengthField(|content|) + content)
  }

  function Wrapped(identifier: byte, content: Bytes): Tlv
    requires |content| < 0x8000_0000
  {
    Tlv(identifier as int / 0x40, identifier % 0x20, identifier as int / 0x20 % 2 == 1, content,
        Wrap(identifier, content))
  }

  lemma LengthReadsBack(b: Bytes, at: nat, length: nat)
    requires length < 0x8000_0000 && At(b, at, LengthField(length))
    ensures ReadLength(b, at) == Some((length, at + |LengthField(length)|))
  {
    if length < 0x80 {
      assert b[at] == b[at..at + 1][0];
    } else {
      var octets := LongForm(length);
      LongFormStands(b, at, octets);
    }
  }

  /** What is written is read back, whatever follows it. */
  lemma WrapReadsBack(identifier: byte, content: Bytes, rest: Bytes)
    requires |content| < 0x8000_0000 && identifier % 0x20 != 0x1F
    ensures ReadTlv(Wrap(identifier, content) + rest) == Some(Wrapped(identifier, content))
  {
    var b, field := Wrap(identifier, content) + rest, LengthField(|content|);
    assert b == [identifier] + (field + (content + rest));
    assert At(b, 0, b);
    AtSplit(b, 0, [identifier], field + (content + rest));
    AtSplit(b, 1, field, content + rest);
    AtSplit(b, 1 + |field|, content, rest);
    LengthReadsBack(b, 1, |content|);
    assert b[..1 + |field| + |content|] == Wrap(identifier, content);
  }

  lemma LengthWasWritten(b: Bytes, at: nat)
    requires ReadLength(b, at).Some?
    ensures var (length, next) := ReadLength(b, at).value;
            length < 0x8000_0000 && next == at + |LengthField(length)| && At(b, at, LengthField(length))
  {
    var (length, next) := ReadLength(b, at).value;
    if b[at] < 0x80 {
      assert b[at..at + 1] == LengthField(length);
    } else {
      var octets := b[at + 1..next];
      OctetsOfNumber(octets);
      OctetsAreShort(length, 8);
      assert b[at..next] == [b[at]] + octets;
    }
  }

  /** A one-octet identifier leaves exactly one encoding: an element is read at the
      head of some bytes just when they start with what the writer makes of it. */
  lemma TlvIsCanonical(b: Bytes, identifier: byte, content: Bytes)
    requires |content| < 0x8000_0000 && identifier % 0x20 != 0x1F
    ensures ReadTlv(b) == Some(Wrapped(identifier, content)) <==>
            |Wrap(identifier, content)| <= |b| && b[..|Wrap(identifier, content)|] == Wrap(identifier, content)
  {
    var w := Wrap(identifier, content);
    if |w| <= |b| && b[..|w|] == w {
      WrapReadsBack(identifier, content, b[|w|..]);
      assert b == w + b[|w|..];
    }
  }

  /** Every element the reader finds under a one-octet identifier is one of these. */
  lemma TlvWasWritten(b: Bytes)
    requires ReadTlv(b).Some? && b[0] % 0x20 != 0x1F
    ensures var t := ReadTlv(b).value; |t.content| < 0x8000_0000 && t == Wrapped(b[0], t.content)
  {
    var t := ReadTlv(b).value;
    LengthWasWritten(b, 1);
    var (length, start) := ReadLength(b, 1).value;
    assert b[..start + length] == [b[0]] + (b[1..start] + b[start..start + length]);
  }

  // ------------------------------------------------------- elements of a SEQUENCE

  datatype SequenceProblem = Malformed | NotSequence | TooMany | BadElement(index: nat)

  datatype Fields = Fields(items: seq<Tlv>) | Broken(why: SequenceProblem)

  predicate IsSequence(t: Tlv) { t.class_ == 0 && t.tag == 16 && t.compound }
  predicate IsSet(t: Tlv) { t.class_ == 0 && t.tag == 17 && t.compound }
  predicate IsExplicit0(t: Tlv) { t.class_ == 2 && t.tag == 0 && t.compound }

  function ElementsFrom(rest: Bytes, done: nat, maximum: nat): Fields
    decreases |rest|
  {
    if rest == [] then Fields([])
    else if done >= maximum then Broken(TooMany)
    else
      var element := ReadTlv(rest);
      if element.None? then Broken(BadElement(done))
      else
        var others := ElementsFrom(rest[|element.value.full|..], done + 1, maximum);
        if others.Broken? then others else Fields([element.value] + others.items)
  }

  /** `rawSequenceElements`. */
  function SequenceElements(encoded: Bytes, maximum: nat): Fields {
    var outer := ReadWhole(encoded);
    if outer.None? then Broken(Malformed)
    else if !IsSequence(outer.value) then Broken(NotSequence)
    else ElementsFrom(outer.value.content, 0, maximum)
  }

  function Concat(items: seq<Tlv>): Bytes {
    if items == [] then [] else items[0].full + Concat(items[1..])
  }

  /** Each item is exactly what its bytes say, whatever follows them. */
  predicate Readable(items: seq<Tlv>) {
    forall i :: 0 <= i < |items| ==> ReadWhole(items[i].full) == Some(items[i])
  }

  lemma {:induction false} Base128Local(b: Bytes, c: Bytes, value: nat, used: nat)
    requires ReadBase128(b, value, used).Some?
    requires |c| >= ReadBase128(b, value, used).value.1 - used
    requires b[..ReadBase128(b, value, used).value.1 - used] == c[..ReadBase128(b, value, used).value.1 - used]
    ensures ReadBase128(c, value, used) == ReadBase128(b, value, used)
    decreases |b|
  {
    var n := ReadBase128(b, value, used).value.1 - used;
    assert b[0] == b[..n][0] == c[..n][0] == c[0];
    if b[0] >= 0x80 {
      assert b[1..][..n - 1] == b[..n][1..] && c[1..][..n - 1] == c[..n][1..];
      Base128Local(b[1..], c[1..], 0x80 * value + b[0] as int % 0x80, used + 1);
    }
  }

  lemma TagLocal(b: Bytes, c: Bytes)
    requires ReadTag(b).Some?
    requires |c| >= ReadTag(b).value.1 && b[..ReadTag(b).value.1] == c[..ReadTag(b).value.1]
    ensures ReadTag(c) == ReadTag(b)
  {
    var n := ReadTag(b).value.1;
    assert b[0] == b[..n][0] == c[..n][0] == c[0];
    if b[0] % 0x20 == 0x1F {
      assert b[1..][..n - 1] == b[..n][1..] && c[1..][..n - 1] == c[..n][1..];
      Base128Local(b[1..], c[1..], 0, 0);
    }
  }

  lemma LengthLocal(b: Bytes, c: Bytes, n: nat, at: nat)
    requires ReadLength(b, at).Some? && ReadLength(b, at).value.1 <= n <= |b| && n <= |c| && b[..n] == c[..n]
    ensures ReadLength(c, at) == ReadLength(b, at)
  {
    hide Number;
    SamePrefix(b, c, n, at + 1, ReadLength(b, at).value.1);
    assert b[at] == b[..n][at] == c[..n][at] == c[at];
    if b[at] >= 0x80 {
      assert b[at + 1] == b[..n][at + 1] == c[..n][at + 1] == c[at + 1];
    }
  }

  /** An element depends on its own bytes only. */
  lemma TlvLocal(b: Bytes, c: Bytes)
    requires ReadTlv(b).Some?
    requires |c| >= |ReadTlv(b).value.full| && c[..|ReadTlv(b).value.full|] == ReadTlv(b).value.full
    ensures ReadTlv(c) == ReadTlv(b)
  {
    hide ReadLength, ReadTag;
    var n, k := |ReadTlv(b).value.full|, ReadTag(b).value.1;
    SamePrefix(b, c, n, 0, k);
    TagLocal(b, c);
    LengthLocal(b, c, n, k);
    SamePrefix(b, c, n, ReadLength(b, k).value.1, n);
    assert b[0] == b[..n][0] == c[..n][0] == c[0];
  }

  lemma SamePrefix(b: Bytes, c: Bytes, n: nat, from: nat, to: nat)
    requires from <= to <= n <= |b| && n <= |c| && b[..n] == c[..n]
    ensures b[from..to] == c[from..to]
  {
    assert b[from..to] == b[..n][from..to] && c[from..to] == c[..n][from..to];
  }

  lemma {:induction false} ElementsWereWritten(rest: Bytes, done: nat, maximum: nat)
    requires done <= maximum && ElementsFrom(rest, done, maximum).Fields?
    ensures
      var items := ElementsFrom(rest, done, maximum).items;
      Concat(items) == rest && Readable(items) && done + |items| <= maximum
    decreases |rest|
  {
    hide ReadTlv, Readable;
    if rest == [] {
      NothingIsReadable();
    } else {
      var t := ReadTlv(rest).value;
      var others := ElementsFrom(rest[|t.full|..], done + 1, maximum).items;
      ElementsWereWritten(rest[|t.full|..], done + 1, maximum);
      ReadableFirst(rest, others);
      assert ([t] + others)[1..] == others;
    }
  }

  lemma NothingIsReadable()
    ensures Readable([])
  {
  }

  /** What is read at the head of some bytes is written there. */
  lemma ReadableFirst(rest: Bytes, others: seq<Tlv>)
    requires ReadTlv(rest).Some? && Readable(others)
    ensures
      var t := ReadTlv(rest).value;
      Readable([t] + others) && rest == t.full + rest[|t.full|..]
  {
    var t := ReadTlv(rest).value;
    TlvLocal(rest, t.full);
    assert t.full == rest[..|t.full|];
  }

  lemma ElementReadsBack(t: Tlv, others: Bytes, done: nat, maximum: nat)
    requires ReadWhole(t.full) == Some(t) && done < maximum
    requires ElementsFrom(others, done + 1, maximum).Fields?
    ensures ElementsFrom(t.full + others, done, maximum) == Fields([t] + ElementsFrom(others, done + 1, maximum).items)
  {
    var rest := t.full + others;
    TlvLocal(t.full, rest);
    assert rest[|t.full|..] == others;
    assert rest != [];
  }

  lemma {:induction false} ElementsReadBack(items: seq<Tlv>, done: nat, maximum: nat)
    requires Readable(items) && done + |items| <= maximum
    ensures ElementsFrom(Concat(items), done, maximum) == Fields(items)
    decreases |items|
  {
    if items != [] {
      assert Readable(items[1..]) by {
        assert forall i :: 0 <= i < |items[1..]| ==> items[1..][i] == items[i + 1];
      }
      ElementsReadBack(items[1..], done + 1, maximum);
      ElementReadsBack(items[0], Concat(items[1..]), done, maximum);
      assert [items[0]] + items[1..] == items;
    }
  }

  lemma SequenceReadsBack(maximum: nat, items: seq<Tlv>)
    requires |items| <= maximum && Readable(items) && |Concat(items)| < 0x8000_0000
    ensures SequenceElements(Wrap(0x30, Concat(items)), maximum) == Fields(items)
  {
    var encoded := Wrap(0x30, Concat(items));
    WrapReadsBack(0x30, Concat(items), []);
    assert encoded + [] == encoded;
    ElementsReadBack(items, 0, maximum);
  }

  lemma SequenceWasWritten(encoded: Bytes, maximum: nat)
    requires SequenceElements(encoded, maximum).Fields?
    ensures
      var items := SequenceElements(encoded, maximum).items;
      && |items| <= maximum && Readable(items)
      && |Concat(items)| < 0x8000_0000 && encoded == Wrap(0x30, Concat(items))
  {
    var outer := ReadTlv(encoded).value;
    ElementsWereWritten(outer.content, 0, maximum);
    SequenceIdentifier(encoded);
    TlvWasWritten(encoded);
  }

  /** `rawSequenceElements` succeeds with some items exactly on the SEQUENCE of those
      items, provided there are at most `maximum`. */
  lemma SequenceIsCanonical(encoded: Bytes, maximum: nat, items: seq<Tlv>)
    ensures SequenceElements(encoded, maximum) == Fields(items) <==>
            && |items| <= maximum && Readable(items)
            && |Concat(items)| < 0x8000_0000 && encoded == Wrap(0x30, Concat(items))
  {
    if SequenceElements(encoded, maximum) == Fields(items) {
      SequenceWasWritten(encoded, maximum);
    }
    if |items| <= maximum && Readable(items) && |Concat(items)| < 0x8000_0000 {
      SequenceReadsBack(maximum, items);
    }
  }

  lemma SequenceIdentifier(b: Bytes)
    requires ReadTlv(b).Some? && IsSequence(ReadTlv(b).value)
    ensures b[0] == 0x30
  {
  }

  /** A tag number below 31 stands in the first octet. */
  lemma LowTag(b: Bytes)
    requires ReadTlv(b).Some?
    ensures b[0] % 0x20 == 0x1F || b[0] as int % 0x20 == ReadTlv(b).value.tag
    ensures b[0] % 0x20 == 0x1F ==> ReadTlv(b).value.tag >= 0x1F
  {
  }

  /** `rawSequenceElements` with its loop. */
  method RawSequenceElements(encoded: Bytes, maximum: nat) returns (fields: Fields)
    ensures fields == SequenceElements(encoded, maximum)
  {
    var sequence := ReadWhole(encoded);
    if sequence.None? {
      return Broken(Malformed);
    }
    if !IsSequence(sequence.value) {
      return Broken(NotSequence);
    }
    var result: seq<Tlv> := [];
    var rest := sequence.value.content;
    ghost var all := ElementsFrom(rest, 0, maximum);
    InFrontOfNothing(all);
    while rest != []
      invariant all == InFront(result, ElementsFrom(rest, |result|, maximum))
      decreases |rest|
    {
      if |result| >= maximum {
        return Broken(TooMany);
      }
      var element := ReadTlv(rest);
      if element.None? {
        return Broken(BadElement(|result|));
      }
      ghost var others := ElementsFrom(rest[|element.value.full|..], |result| + 1, maximum);
      InFrontMore(result, element.value, others);
      result, rest := result + [element.value], rest[|element.value.full|..];
    }
    assert result + [] == result;
    return Fields(result);
  }

  ghost function InFront(items: seq<Tlv>, rest: Fields): Fields {
    if rest.Broken? then rest else Fields(items + rest.items)
  }

  lemma InFrontOfNothing(rest: Fields)
    ensures InFront([], rest) == rest
  {
  }

  lemma InFrontMore(items: seq<Tlv>, item: Tlv, rest: Fields)
    ensures InFront(items, InFront([item], rest)) == InFront(items + [item], rest)
  {
  }
}
