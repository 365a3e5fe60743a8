/** The two string decoders of the keystore parsers: Java's modified UTF-8
    (section 4.4.7 of the Java Virtual Machine Specification) and big-endian
    UTF-16 (section 2 of RFC 2781). Both produce UTF-16 code units first and
    then pair surrogates. */
module TextCodec {
  import opened Common

  /** A Unicode scalar value: any code point that is not a surrogate. */
  type Scalar = x: int | 0 <= x < 0x11_0000 && !(0xD800 <= x < 0xE000)
  type Text = seq<Scalar>

  // ---------------------------------------------------------------- encoders

  function EncodeUnit(u: u16): (b: Bytes)
    ensures 1 <= |b| <= 3
  {
    if 0x01 <= u <= 0x7F then [u]
    else if u <= 0x7FF then [0xC0 + u / 0x40, 0x80 + u % 0x40]
    else [0xE0 + u / 0x1000, 0x80 + u / 0x40 % 0x40, 0x80 + u % 0x40]
  }

  function EncodeUnits(units: seq<u16>): Bytes {
    if units == [] then [] else EncodeUnit(units[0]) + EncodeUnits(units[1..])
  }

  function ScalarUnits(r: Scalar): (u: seq<u16>)
    ensures 1 <= |u| <= 2
  {
    if r < 0x1_0000 then [r]
    else [0xD800 + (r - 0x1_0000) / 0x400, 0xDC00 + (r - 0x1_0000) % 0x400]
  }

  function TextUnits(text: Text): seq<u16> {
    if text == [] then [] else ScalarUnits(text[0]) + TextUnits(text[1..])
  }

  function BigEndianUnits(units: seq<u16>): Bytes {
    if units == [] then [] else Put16(units[0]) + BigEndianUnits(units[1..])
  }

  /** Modified UTF-8, and big-endian UTF-16, of a text. */
  function EncodeModifiedUtf8(text: Text): Bytes {
    EncodeUnits(TextUnits(text))
  }

  function EncodeUtf16BE(text: Text): Bytes {
    BigEndianUnits(TextUnits(text))
  }

  // ---------------------------------------------------------------- decoders

  predicate Continuation(b: byte) {
    0x80 <= b < 0xC0
  }

  /** One step of the modified UTF-8 loop: the unit at the head of `b` and the
      number of bytes it takes, or nothing when the head is malformed. */
  function HeadUnit(b: Bytes): (r: Option<(u16, nat)>)
    requires b != []
    ensures r.Some? ==> 1 <= r.value.1 <= |b|
  {
    var first := b[0];
    if 0x01 <= first <= 0x7F then
      Some((first, 1))
    else if 0xC0 <= first < 0xE0 then
      if |b| < 2 || !Continuation(b[1]) then None
      else
        var value := (first as int - 0xC0) * 0x40 + (b[1] as int - 0x80);
        if (value != 0 && value < 0x80) || (value == 0 && (first != 0xC0 || b[1] != 0x80)) then None
        else Some((value, 2))
    else if 0xE0 <= first < 0xF0 then
      if |b| < 3 || !Continuation(b[1]) || !Continuation(b[2]) then None
      else
        var value := (first as int - 0xE0) * 0x1000 + (b[1] as int - 0x80) * 0x40 + (b[2] as int - 0x80);
        if value < 0x800 then None else Some((value, 3))
    else
      None
  }

  function DecodeUnits(b: Bytes): Option<seq<u16>>
    decreases |b|
  {
    if b == [] then Some([])
    else
      var head := HeadUnit(b);
      if head.None? then None
      else
        var rest := DecodeUnits(b[head.value.1..]);
        if rest.None? then None else Some([head.value.0] + rest.value)
  }

  predicate High(u: u16) { 0xD800 <= u <= 0xDBFF }
  predicate Low(u: u16) { 0xDC00 <= u <= 0xDFFF }

  /** The value of a surrogate pair. */
  function Combine(high: u16, low: u16): Scalar
    requires High(high) && Low(low)
  {
    (high - 0xD800) * 0x400 + (low - 0xDC00) + 0x1_0000
  }

  /** The surrogate-pairing loop both decoders end with. */
  function PairUnits(units: seq<u16>): Option<Text>
    decreases |units|
  {
    if units == [] then Some([])
    else if High(units[0]) then
      if |units| < 2 || !Low(units[1]) then None
      else
        var rest := PairUnits(units[2..]);
        if rest.None? then None else Some([Combine(units[0], units[1])] + rest.value)
    else if Low(units[0]) then None
    else
      var rest := PairUnits(units[1..]);
      if rest.None? then None else Some([units[0]] + rest.value)
  }

  function DecodeModifiedUtf8(b: Bytes): Option<Text> {
    var units := DecodeUnits(b);
    if units.None? then None else PairUnits(units.value)
  }

  function ReadUnits(b: Bytes): seq<u16>
    requires |b| % 2 == 0
    decreases |b|
  {
    if b == [] then [] else [Get16(b[..2])] + ReadUnits(b[2..])
  }

  function DecodeUtf16BE(b: Bytes): Option<Text> {
    if |b| % 2 != 0 then None else PairUnits(ReadUnits(b))
  }

  // ----------------------------------------------- masks agree with arithmetic

  /** The byte masks and shifts of the decoder, on 8-bit vectors, are the range
      tests used above. */
  lemma MasksAreRanges(b: bv8)
    ensures (b & 0xE0 == 0xC0) == (0xC0 <= b <= 0xDF)
    ensures (b & 0xF0 == 0xE0) == (0xE0 <= b <= 0xEF)
    ensures (b & 0xC0 == 0x80) == (0x80 <= b <= 0xBF)
    ensures 0xC0 <= b <= 0xDF ==> b & 0x1F == b - 0xC0
    ensures 0xE0 <= b <= 0xEF ==> b & 0x0F == b - 0xE0
    ensures 0x80 <= b <= 0xBF ==> b & 0x3F == b - 0x80
  {
  }

  // -------------------------------------------------------------- unit level

  lemma HeadOfEncodedUnit(u: u16, rest: Bytes)
    ensures HeadUnit(EncodeUnit(u) + rest) == Some((u, |EncodeUnit(u)|))
  {
  }

  lemma EncodedHead(b: Bytes)
    requires b != []
    requires HeadUnit(b).Some?
    ensures EncodeUnit(HeadUnit(b).value.0) == b[..HeadUnit(b).value.1]
  {
    hide EncodeUnit;
    var first := b[0];
    if 0x01 <= first <= 0x7F {
      OneByteUnit(first);
    } else if first < 0xE0 {
      TwoByteUnit(first, b[1]);
    } else {
      ThreeByteUnit(first, b[1], b[2]);
    }
  }

  lemma OneByteUnit(first: byte)
    requires 0x01 <= first <= 0x7F
    ensures EncodeUnit(first) == [first]
  {
  }

  lemma TwoByteUnit(first: byte, second: byte)
    requires 0xC0 <= first < 0xE0 && Continuation(second)
    ensures
      var value := (first as int - 0xC0) * 0x40 + (second as int - 0x80);
      value == 0 || value >= 0x80 ==> EncodeUnit(value) == [first, second]
  {
  }

  lemma ThreeByteUnit(first: byte, second: byte, third: byte)
    requires 0xE0 <= first < 0xF0 && Continuation(second) && Continuation(third)
    ensures
      var value := (first as int - 0xE0) * 0x1000 + (second as int - 0x80) * 0x40 + (third as int - 0x80);
      value >= 0x800 ==> EncodeUnit(value) == [first, second, third]
  {
    var high, middle, low := first as int - 0xE0, second as int - 0x80, third as int - 0x80;
    Digits(high * 0x40 + middle, low);
    Digits(high, middle);
    var value := (high * 0x40 + middle) * 0x40 + low;
    assert value / 0x1000 == value / 0x40 / 0x40;
  }

  /** Two digits to the base 64. */
  lemma Digits(high: nat, low: nat)
    requires low < 0x40
    ensures (high * 0x40 + low) / 0x40 == high && (high * 0x40 + low) % 0x40 == low
  {
  }

  lemma {:induction false} DecodeEncodeUnits(units: seq<u16>)
    ensures DecodeUnits(EncodeUnits(units)) == Some(units)
  {
    if units != [] {
      var rest := EncodeUnits(units[1..]);
      HeadOfEncodedUnit(units[0], rest);
      assert (EncodeUnit(units[0]) + rest)[|EncodeUnit(units[0])|..] == rest;
      DecodeEncodeUnits(units[1..]);
      assert units == [units[0]] + units[1..];
    }
  }

  lemma {:induction false} EncodeDecodeUnits(b: Bytes)
    requires DecodeUnits(b).Some?
    ensures EncodeUnits(DecodeUnits(b).value) == b
    decreases |b|
  {
    hide EncodeUnit;
    if b != [] {
      var n := HeadUnit(b).value.1;
      EncodedHead(b);
      EncodeDecodeUnits(b[n..]);
      assert b == b[..n] + b[n..];
    }
  }

  /** A zero value in the two-byte branch can only come from the bytes C0 80, so
      the decoder's separate NUL test never rejects anything. */
  lemma NulCheckNeverFires(first: byte, second: byte)
    requires 0xC0 <= first < 0xE0 && Continuation(second)
    requires (first as int - 0xC0) * 0x40 + (second as int - 0x80) == 0
    ensures first == 0xC0 && second == 0x80
  {
  }

  // --------------------------------------------------------- surrogate level

  lemma UnitsOfScalar(r: Scalar)
    ensures
      var units := ScalarUnits(r);
      if |units| == 1 then units[0] == r && !High(units[0]) && !Low(units[0])
      else |units| == 2 && High(units[0]) && Low(units[1]) && Combine(units[0], units[1]) == r
  {
  }

  lemma {:induction false} PairTextUnits(text: Text)
    ensures PairUnits(TextUnits(text)) == Some(text)
  {
    if text != [] {
      hide ScalarUnits;
      var units, rest := ScalarUnits(text[0]), TextUnits(text[1..]);
      UnitsOfScalar(text[0]);
      PairTextUnits(text[1..]);
      assert (units + rest)[|units|..] == rest;
      assert text == [text[0]] + text[1..];
    }
  }

  lemma {:induction false} TextUnitsOfPaired(units: seq<u16>)
    requires PairUnits(units).Some?
    ensures TextUnits(PairUnits(units).value) == units
    decreases |units|
  {
    if units != [] {
      var n := if High(units[0]) then 2 else 1;
      TextUnitsOfPaired(units[n..]);
      var text := PairUnits(units).value;
      assert text[1..] == PairUnits(units[n..]).value;
      assert ScalarUnits(text[0]) == units[..n];
      assert units == units[..n] + units[n..];
    }
  }

  lemma {:induction false} ReadBigEndianUnits(units: seq<u16>)
    ensures |BigEndianUnits(units)| == 2 * |units|
    ensures ReadUnits(BigEndianUnits(units)) == units
  {
    if units != [] {
      ReadBigEndianUnits(units[1..]);
      var rest := BigEndianUnits(units[1..]);
      assert (Put16(units[0]) + rest)[..2] == Put16(units[0]);
      assert (Put16(units[0]) + rest)[2..] == rest;
    }
  }

  lemma {:induction false} BigEndianOfRead(b: Bytes)
    requires |b| % 2 == 0
    ensures BigEndianUnits(ReadUnits(b)) == b
    decreases |b|
  {
    if b != [] {
      BigEndianOfRead(b[2..]);
      PutGet16(b[..2]);
      assert b == b[..2] + b[2..];
    }
  }

  // ------------------------------------------------------------- main results

  /** Modified UTF-8 decoding is a bijection: it accepts exactly the encodings of
      texts, and each of them as the one text it encodes. */
  lemma ModifiedUtf8Bijective(b: Bytes, text: Text)
    ensures DecodeModifiedUtf8(b) == Some(text) <==> b == EncodeModifiedUtf8(text)
  {
    hide PairUnits, TextUnits, DecodeUnits, EncodeUnits;
    DecodeEncodeUnits(TextUnits(text));
    PairTextUnits(text);
    if DecodeModifiedUtf8(b) == Some(text) {
      EncodeDecodeUnits(b);
      TextUnitsOfPaired(DecodeUnits(b).value);
    }
  }

  /** Big-endian UTF-16 decoding is a bijection in the same sense. */
  lemma Utf16Bijective(b: Bytes, text: Text)
    ensures DecodeUtf16BE(b) == Some(text) <==> b == EncodeUtf16BE(text)
  {
    hide PairUnits, TextUnits, ReadUnits, BigEndianUnits;
    ReadBigEndianUnits(TextUnits(text));
    PairTextUnits(text);
    if DecodeUtf16BE(b) == Some(text) {
      BigEndianOfRead(b);
      TextUnitsOfPaired(ReadUnits(b));
    }
  }

  /** On the same code units, well paired or not, the two decoders agree. */
  lemma DecodersAgree(units: seq<u16>)
    ensures DecodeModifiedUtf8(EncodeUnits(units)) == DecodeUtf16BE(BigEndianUnits(units))
  {
    hide PairUnits, DecodeUnits, EncodeUnits, ReadUnits, BigEndianUnits;
    DecodeEncodeUnits(units);
    ReadBigEndianUnits(units);
  }

  // ------------------------------------------------------- the loops themselves

  /** The second loop of both decoders. */
  method PairSurrogates(units: seq<u16>) returns (text: Option<Text>)
    ensures text == PairUnits(units)
  {
    var runes: Text := [];
    var index := 0;
    PrependNothing(PairUnits(units));
    assert units[0..] == units;
    while index < |units|
      invariant 0 <= index <= |units|
      invariant PairUnits(units) == Prepend(runes, PairUnits(units[index..]))
    {
      var unit := units[index];
      if High(unit) {
        if index + 1 >= |units| || !Low(units[index + 1]) {
          return None;
        }
        assert units[index..][2..] == units[index + 2..];
        PrependMore(runes, [Combine(unit, units[index + 1])], PairUnits(units[index + 2..]));
        runes := runes + [Combine(unit, units[index + 1])];
        index := index + 2;
      } else if Low(unit) {
        return None;
      } else {
        assert units[index..][1..] == units[index + 1..];
        PrependMore(runes, [unit], PairUnits(units[index + 1..]));
        runes := runes + [unit];
        index := index + 1;
      }
    }
    assert runes + [] == runes;
    return Some(runes);
  }

  function Prepend<T>(done: seq<T>, rest: Option<seq<T>>): Option<seq<T>> {
    if rest.None? then None else Some(done + rest.value)
  }

  lemma PrependNothing<T>(rest: Option<seq<T>>)
    ensures Prepend([], rest) == rest
  {
    if rest.Some? {
      assert [] + rest.value == rest.value;
    }
  }

  lemma PrependMore<T>(done: seq<T>, more: seq<T>, rest: Option<seq<T>>)
    ensures Prepend(done, Prepend(more, rest)) == Prepend(done + more, rest)
  {
    if rest.Some? {
      assert done + (more + rest.value) == done + more + rest.value;
    }
  }

  /** `decodeJavaModifiedUTF8`: it succeeds exactly on encodings of texts. */
  method DecodeJavaModifiedUtf8(encoded: Bytes) returns (text: Option<Text>)
    ensures text == DecodeModifiedUtf8(encoded)
    ensures text.Some? ==> encoded == EncodeModifiedUtf8(text.value)
    ensures text.None? ==> forall t: Text :: encoded != EncodeModifiedUtf8(t)
  {
    var units: seq<u16> := [];
    var offset := 0;
    ghost var rest := DecodeUnits(encoded);
    PrependNothing(rest);
    assert encoded[0..] == encoded;
    while offset < |encoded|
      invariant 0 <= offset <= |encoded|
      invariant rest == DecodeUnits(encoded[offset..])
      invariant DecodeUnits(encoded) == Prepend(units, rest)
      decreases |encoded| - offset
    {
      var tail := encoded[offset..];
      var head := HeadUnit(tail);
      if head.None? {
        forall t: Text ensures encoded != EncodeModifiedUtf8(t) { ModifiedUtf8Bijective(encoded, t); }
        return None;
      }
      assert tail[head.value.1..] == encoded[offset + head.value.1..];
      PrependMore(units, [head.value.0], DecodeUnits(tail[head.value.1..]));
      units, offset := units + [head.value.0], offset + head.value.1;
      rest := DecodeUnits(encoded[offset..]);
    }
    assert units + [] == units;
    text := PairSurrogates(units);
    forall t: Text ensures text == Some(t) <==> encoded == EncodeModifiedUtf8(t) {
      ModifiedUtf8Bijective(encoded, t);
    }
  }

  /** `decodeUTF16BE`. */
  method DecodeBigEndianUtf16(encoded: Bytes) returns (text: Option<Text>)
    ensures text == DecodeUtf16BE(encoded)
    ensures text.Some? ==> encoded == EncodeUtf16BE(text.value)
    ensures text.None? ==> forall t: Text :: encoded != EncodeUtf16BE(t)
  {
    hide EncodeUtf16BE, PairUnits, ReadUnits;
    forall t: Text ensures DecodeUtf16BE(encoded) == Some(t) <==> encoded == EncodeUtf16BE(t) {
      Utf16Bijective(encoded, t);
    }
    if |encoded| % 2 != 0 {
      return None;
    }
    var units: seq<u16> := [];
    assert encoded[0..] == encoded;
    while |units| < |encoded| / 2
      invariant |units| <= |encoded| / 2
      invariant ReadUnits(encoded) == units + ReadUnits(encoded[2 * |units|..])
    {
      var at := 2 * |units|;
      ReadUnitAt(encoded, |units|);
      units := units + [encoded[at] as int * 0x100 + encoded[at + 1] as int];
    }
    ReadNothing(encoded[2 * |units|..]);
    assert units + [] == units;
    text := PairSurrogates(units);
  }

  lemma ReadNothing(b: Bytes)
    requires b == []
    ensures ReadUnits(b) == []
  {
  }

  lemma ReadUnitAt(b: Bytes, i: nat)
    requires |b| % 2 == 0 && i < |b| / 2
    ensures 2 * i + 2 <= |b| && |b[2 * i..]| % 2 == 0 && |b[2 * i + 2..]| % 2 == 0
    ensures ReadUnits(b[2 * i..]) == [b[2 * i] as int * 0x100 + b[2 * i + 1] as int] + ReadUnits(b[2 * i + 2..])
  {
    var at := 2 * i;
    assert b[at..][..2] == b[at..at + 2];
    assert b[at..][2..] == b[at + 2..];
  }
}
