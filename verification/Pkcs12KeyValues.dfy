/** Key material plays no part in a PKCS#12 scan. `InKeyValue` says which positions of a
    file lie in the value of a key, shrouded-key or secret bag, at any nesting depth.
    Overlaying a file with other bytes at exactly those positions changes nothing the
    parser returns, so files that differ only there give the same result. */
module Pkcs12KeyValues {
  import opened Common
  import opened Der
  import opened Pkcs12
  import opened Pkcs12Identifiers

  // ------------------------------------------------------------- shapes of elements

  /** Writers for the three identifiers on the way to a key value. */
  lemma KnownElement(t: Tlv, identifier: byte)
    requires ReadWhole(t.full) == Some(t) && t.full[0] == identifier && identifier % 0x20 != 0x1F
    ensures |t.content| < 0x8000_0000 && t == Wrapped(identifier, t.content)
  {
    TlvWasWritten(t.full);
  }

  lemma ExplicitIdentifier(t: Tlv)
    requires ReadWhole(t.full) == Some(t) && IsExplicit0(t)
    ensures t.full[0] == 0xA0
  {
  }

  lemma WrappedReadsWhole(identifier: byte, content: Bytes)
    requires |content| < 0x8000_0000 && identifier % 0x20 != 0x1F
    ensures ReadWhole(Wrap(identifier, content)) == Some(Wrapped(identifier, content))
  {
    WrapReadsBack(identifier, content, []);
    assert Wrap(identifier, content) + [] == Wrap(identifier, content);
  }

  /** An element rewritten around content of the same length. */
  function Rewrap(t: Tlv, identifier: byte, content: Bytes): (r: Tlv)
    requires ReadWhole(t.full) == Some(t) && t.full[0] == identifier && identifier % 0x20 != 0x1F
    requires |content| == |t.content|
    ensures ReadWhole(r.full) == Some(r) && |r.full| == |t.full| && r.content == content
    ensures r.class_ == t.class_ && r.tag == t.tag && r.compound == t.compound
    ensures |content| < 0x8000_0000 && r == Wrapped(identifier, content)
  {
    KnownElement(t, identifier);
    WrappedReadsWhole(identifier, content);
    Wrapped(identifier, content)
  }

  lemma ItemsOf(encoded: Bytes, maximum: nat)
    requires SequenceElements(encoded, maximum).Fields?
    ensures
      var items := SequenceElements(encoded, maximum).items;
      && |items| <= maximum && Readable(items) && |Concat(items)| < 0x8000_0000
      && encoded == Wrap(0x30, Concat(items))
  {
    SequenceWasWritten(encoded, maximum);
  }

  /** The SEQUENCE with other items of the same total length in it. */
  function Resequence(encoded: Bytes, maximum: nat, items: seq<Tlv>): (r: Bytes)
    requires SequenceElements(encoded, maximum).Fields? && |items| == |SequenceElements(encoded, maximum).items|
    requires Readable(items) && |Concat(items)| == |Concat(SequenceElements(encoded, maximum).items)|
    ensures |r| == |encoded| && SequenceElements(r, maximum) == Fields(items)
  {
    ItemsOf(encoded, maximum);
    SequenceReadsBack(maximum, items);
    Wrap(0x30, Concat(items))
  }

  lemma {:induction false} ConcatOfUpdate(items: seq<Tlv>, i: nat, t: Tlv)
    requires i < |items| && |t.full| == |items[i].full|
    ensures |Concat(items[i := t])| == |Concat(items)|
    decreases |items|
  {
    if i == 0 {
      assert items[i := t][1..] == items[1..];
    } else {
      assert items[i := t][1..] == items[1..][i - 1 := t];
      ConcatOfUpdate(items[1..], i - 1, t);
    }
  }

  /** Item `i` of a SEQUENCE replaced by an equally long one. */
  function ReplaceItem(encoded: Bytes, maximum: nat, i: nat, t: Tlv): (r: Bytes)
    requires SequenceElements(encoded, maximum).Fields? && i < |SequenceElements(encoded, maximum).items|
    requires ReadWhole(t.full) == Some(t) && |t.full| == |SequenceElements(encoded, maximum).items[i].full|
    ensures |r| == |encoded|
    ensures SequenceElements(r, maximum) == Fields(SequenceElements(encoded, maximum).items[i := t])
  {
    var items := SequenceElements(encoded, maximum).items;
    ItemsOf(encoded, maximum);
    ConcatOfUpdate(items, i, t);
    Resequence(encoded, maximum, items[i := t])
  }

  /** The SEQUENCE read as one element. */
  function AsElement(encoded: Bytes, maximum: nat): (r: Tlv)
    requires SequenceElements(encoded, maximum).Fields?
    ensures r.full == encoded && ReadWhole(encoded) == Some(r)
  {
    ReadWhole(encoded).value
  }

  // ------------------------------------------------------- where the contents stand

  /** Some bytes with others of the same number in place of a part of them. */
  function Splice(b: Bytes, at: nat, part: Bytes): (r: Bytes)
    requires at + |part| <= |b|
    ensures |r| == |b|
  {
    b[..at] + part + b[at + |part|..]
  }

  lemma SpliceInside(b: Bytes, at: nat, size: nat, inner: nat, part: Bytes)
    requires at + size <= |b| && inner + |part| <= size
    ensures Splice(b, at, Splice(b[at..at + size], inner, part)) == Splice(b, at + inner, part)
    ensures b[at..at + size][inner..inner + |part|] == b[at + inner..at + inner + |part|]
  {
    SliceInside(b, at, size, inner, |part|);
    SliceInside(b, at, size, 0, inner);
    SliceInside(b, at, size, inner + |part|, size - inner - |part|);
    var whole := b[at..at + size];
    assert Splice(whole, inner, part) == b[at..at + inner] + part + b[at + inner + |part|..at + size];
    assert b[..at] + b[at..at + inner] == b[..at + inner];
    assert b[at + inner + |part|..at + size] + b[at + size..] == b[at + inner + |part|..];
  }

  lemma SliceInside(b: Bytes, at: nat, size: nat, inner: nat, n: nat)
    requires at + size <= |b| && inner + n <= size
    ensures b[at..at + size][inner..inner + n] == b[at + inner..at + inner + n]
  {
    var l, r := b[at..at + size][inner..inner + n], b[at + inner..at + inner + n];
    assert |l| == |r| && forall i :: 0 <= i < n ==> l[i] == r[i];
  }

  /** How far into a SEQUENCE its items start, and where one of them stands. */
  function ItemsStart(encoded: Bytes, items: seq<Tlv>): int {
    |encoded| - |Concat(items)|
  }

  function ItemStart(encoded: Bytes, items: seq<Tlv>, i: nat): int
    requires i < |items|
  {
    ItemsStart(encoded, items) + |Concat(items[..i])|
  }

  lemma WrapParts(identifier: byte, content: Bytes)
    requires |content| < 0x8000_0000
    ensures
      var w, h := Wrap(identifier, content), 1 + |LengthField(|content|)|;
      |w| == h + |content| && w[..h] == [identifier] + LengthField(|content|) && w[h..] == content
  {
  }

  /** Other items of the same total length stand where the old ones stood. */
  lemma ResequenceSplices(encoded: Bytes, maximum: nat, items: seq<Tlv>)
    requires SequenceElements(encoded, maximum).Fields? && |items| == |SequenceElements(encoded, maximum).items|
    requires Readable(items) && |Concat(items)| == |Concat(SequenceElements(encoded, maximum).items)|
    ensures 0 <= ItemsStart(encoded, items)
    ensures Resequence(encoded, maximum, items) == Splice(encoded, ItemsStart(encoded, items), Concat(items))
    ensures encoded[ItemsStart(encoded, items)..] == Concat(SequenceElements(encoded, maximum).items)
  {
    hide SequenceElements, Wrap;
    ItemsOf(encoded, maximum);
    WrapParts(0x30, Concat(items));
    WrapParts(0x30, Concat(SequenceElements(encoded, maximum).items));
    var r := Resequence(encoded, maximum, items);
    var h := ItemsStart(encoded, items);
    assert r == r[..h] + r[h..] == encoded[..h] + Concat(items);
    assert encoded[h + |Concat(items)|..] == [];
  }

  lemma {:induction false} ConcatSplit(items: seq<Tlv>, i: nat)
    requires i < |items|
    ensures Concat(items) == Concat(items[..i]) + (items[i].full + Concat(items[i + 1..]))
    decreases i
  {
    if i > 0 {
      ConcatSplit(items[1..], i - 1);
      assert items[1..][..i - 1] == items[..i][1..] && items[1..][i..] == items[i + 1..];
      assert items[..i][0] == items[0];
    } else {
      assert items[..0] == [];
    }
  }

  lemma ReplaceSplices(encoded: Bytes, maximum: nat, i: nat, t: Tlv)
    requires SequenceElements(encoded, maximum).Fields? && i < |SequenceElements(encoded, maximum).items|
    requires ReadWhole(t.full) == Some(t) && |t.full| == |SequenceElements(encoded, maximum).items[i].full|
    ensures
      var items := SequenceElements(encoded, maximum).items;
      var at := ItemStart(encoded, items, i);
      && 0 <= at <= at + |t.full| <= |encoded| && encoded[at..at + |t.full|] == items[i].full
      && ReplaceItem(encoded, maximum, i, t) == Splice(encoded, at, t.full)
  {
    hide SequenceElements, ReadWhole, Resequence, Concat, Splice;
    var items := SequenceElements(encoded, maximum).items;
    var changed := items[i := t];
    ItemsOf(encoded, maximum);
    ConcatOfUpdate(items, i, t);
    ResequenceSplices(encoded, maximum, changed);
    ConcatSplit(items, i);
    ConcatSplit(changed, i);
    assert changed[..i] == items[..i] && changed[i + 1..] == items[i + 1..];
    SpliceMiddle(encoded, ItemsStart(encoded, items), Concat(items[..i]), items[i].full, Concat(items[i + 1..]),
                 t.full);
  }

  lemma SpliceMiddle(b: Bytes, at: nat, before: Bytes, middle: Bytes, after: Bytes, part: Bytes)
    requires at <= |b| && b[at..] == before + (middle + after) && |part| == |middle|
    ensures b[at + |before|..at + |before| + |middle|] == middle
    ensures Splice(b, at, before + (part + after)) == Splice(b, at + |before|, part)
  {
    var whole, n, m := before + (middle + after), |before|, |before| + |middle|;
    assert whole[..n] == before && whole[n..m] == middle && whole[m..] == after;
    assert b == b[..at] + b[at..];
    assert b[..at + n] == b[..at] + before && b[at + m..] == after;
  }

  /** Where an element's content starts in it. */
  function ContentStart(t: Tlv): int {
    |t.full| - |t.content|
  }

  lemma RewrapSplices(t: Tlv, identifier: byte, content: Bytes)
    requires ReadWhole(t.full) == Some(t) && t.full[0] == identifier && identifier % 0x20 != 0x1F
    requires |content| == |t.content|
    ensures 0 <= ContentStart(t) && t.full[ContentStart(t)..] == t.content
    ensures Rewrap(t, identifier, content).full == Splice(t.full, ContentStart(t), content)
  {
    hide Wrap;
    KnownElement(t, identifier);
    WrapParts(identifier, t.content);
    WrapParts(identifier, content);
    var r := Rewrap(t, identifier, content).full;
    assert r == r[..ContentStart(t)] + r[ContentStart(t)..];
  }

  // ------------------------------------------------------------------- a bag's value

  /** The fields of a safe bag and their order. */
  lemma BagFields(t: Tlv)
    requires ParseSafeBag(t).Ok?
    ensures
      var items, bag := SequenceElements(t.full, 3), ParseSafeBag(t).value;
      && items.Fields? && 2 <= |items.items| && items.items[1] == bag.value
      && ReadWhole(bag.value.full) == Some(bag.value) && bag.value.full[0] == 0xA0
  {
    ItemsOf(t.full, 3);
    ExplicitIdentifier(ParseSafeBag(t).value.value);
  }

  /** The bag with other bytes in its value. */
  function WithValue(t: Tlv, content: Bytes): (r: Tlv)
    requires ParseSafeBag(t).Ok? && |content| == |ParseSafeBag(t).value.value.content|
    ensures |r.full| == |t.full| && ReadWhole(r.full) == Some(r)
    ensures ParseSafeBag(r).Ok?
    ensures
      var old_, new_ := ParseSafeBag(t).value, ParseSafeBag(r).value;
      new_.id == old_.id && new_.attributes == old_.attributes && new_.value.content == content
  {
    BagFields(t);
    var value := Rewrap(ParseSafeBag(t).value.value, 0xA0, content);
    AsElement(ReplaceItem(t.full, 3, 1, value), 3)
  }

  /** Where the bytes of a bag's value start in the bag. */
  function ValueStart(t: Tlv): (at: nat)
    requires ParseSafeBag(t).Ok?
    ensures at + |ParseSafeBag(t).value.value.content| <= |t.full|
    ensures t.full[at..at + |ParseSafeBag(t).value.value.content|] == ParseSafeBag(t).value.value.content
  {
    var items, value := SequenceElements(t.full, 3).items, ParseSafeBag(t).value.value;
    ValueIsThere(t);
    ItemStart(t.full, items, 1) + ContentStart(value)
  }

  lemma ValueIsThere(t: Tlv)
    requires ParseSafeBag(t).Ok?
    ensures
      var items, value := SequenceElements(t.full, 3).items, ParseSafeBag(t).value.value;
      && |items| >= 2
      && var at := ItemStart(t.full, items, 1) + ContentStart(value);
         0 <= at <= at + |value.content| <= |t.full| && t.full[at..at + |value.content|] == value.content
  {
    hide ParseSafeBag, SequenceElements, ReadWhole, ItemStart, ReplaceItem, Rewrap;
    BagFields(t);
    var items, value := SequenceElements(t.full, 3).items, ParseSafeBag(t).value.value;
    ReplaceSplices(t.full, 3, 1, value);
    RewrapSplices(value, 0xA0, value.content);
    SpliceInside(t.full, ItemStart(t.full, items, 1), |value.full|, ContentStart(value), value.content);
  }

  lemma WithValueSplices(t: Tlv, content: Bytes)
    requires ParseSafeBag(t).Ok? && |content| == |ParseSafeBag(t).value.value.content|
    ensures WithValue(t, content).full == Splice(t.full, ValueStart(t), content)
  {
    hide ParseSafeBag, SequenceElements, ReadWhole, ItemStart, ReplaceItem, Rewrap, Splice;
    BagFields(t);
    var items, value := SequenceElements(t.full, 3).items, ParseSafeBag(t).value.value;
    var r := Rewrap(value, 0xA0, content);
    ReplaceSplices(t.full, 3, 1, r);
    RewrapSplices(value, 0xA0, content);
    SpliceInside(t.full, ItemStart(t.full, items, 1), |value.full|, ContentStart(value), content);
  }

  // ------------------------------------------------------------- a content's data

  /** The two fields of a data ContentInfo: an explicit element holding one OCTET
      STRING. */
  predicate IsData(t: Tlv) {
    var info := ParseContentInfo(t);
    info.Ok? && info.value.0 == OID_DATA && OctetString(info.value.1.content).Ok?
  }

  function DataOf(t: Tlv): Bytes
    requires IsData(t)
  {
    OctetString(ParseContentInfo(t).value.1.content).value
  }

  lemma InfoFields(t: Tlv)
    requires ParseContentInfo(t).Ok?
    ensures
      var items, value := SequenceElements(t.full, 2), ParseContentInfo(t).value.1;
      && items.Fields? && |items.items| == 2 && items.items[1] == value
      && ReadWhole(value.full) == Some(value) && value.full[0] == 0xA0
  {
    ItemsOf(t.full, 2);
    ExplicitIdentifier(ParseContentInfo(t).value.1);
  }

  lemma OctetFields(b: Bytes)
    requires OctetString(b).Ok?
    ensures var t := ReadWhole(b);
            t.Some? && t.value.full == b && b[0] == 0x04 && t.value.content == OctetString(b).value
  {
  }

  /** A data ContentInfo with other bytes in its OCTET STRING. */
  function WithData(t: Tlv, content: Bytes): (r: Tlv)
    requires IsData(t) && |content| == |DataOf(t)|
    ensures |r.full| == |t.full| && ReadWhole(r.full) == Some(r)
    ensures IsData(r) && DataOf(r) == content
  {
    InfoFields(t);
    var value := ParseContentInfo(t).value.1;
    OctetFields(value.content);
    var octets := Rewrap(ReadWhole(value.content).value, 0x04, content);
    var wrapped := Rewrap(value, 0xA0, octets.full);
    var r := AsElement(ReplaceItem(t.full, 2, 1, wrapped), 2);
    assert ParseContentInfo(r) == Ok((OID_DATA, wrapped));
    assert OctetString(octets.full) == Ok(content);
    r
  }

  lemma DataFields(t: Tlv)
    requires IsData(t)
    ensures
      var fields, value := SequenceElements(t.full, 2), ParseContentInfo(t).value.1;
      fields.Fields? && |fields.items| == 2 && ReadWhole(value.content).Some?
  {
    hide SequenceElements, ReadWhole;
    InfoFields(t);
    OctetFields(ParseContentInfo(t).value.1.content);
  }

  /** Where the bytes of the OCTET STRING start in the ContentInfo. */
  function DataStart(t: Tlv): int
    requires IsData(t)
  {
    DataFields(t);
    var value := ParseContentInfo(t).value.1;
    ItemStart(t.full, SequenceElements(t.full, 2).items, 1) + ContentStart(value) +
      ContentStart(ReadWhole(value.content).value)
  }

  lemma TailIsThere(whole: Bytes, at: nat, part: Bytes, from: nat, tail: Bytes)
    requires At(whole, at, part) && from <= |part| && part[from..] == tail
    ensures At(whole, at + from, tail)
  {
    assert whole[at + from..at + from + |tail|] == whole[at..at + |part|][from..];
  }

  lemma DataIsThere(t: Tlv)
    requires IsData(t)
    ensures 0 <= DataStart(t) && At(t.full, DataStart(t), DataOf(t))
  {
    hide ParseContentInfo, SequenceElements, ReadWhole, ItemStart, ReplaceItem, Rewrap, OctetString, Splice, At;
    InfoFields(t);
    var items, value := SequenceElements(t.full, 2).items, ParseContentInfo(t).value.1;
    OctetFields(value.content);
    var octets := ReadWhole(value.content).value;
    ReplaceSplices(t.full, 2, 1, value);
    RewrapSplices(value, 0xA0, value.content);
    RewrapSplices(octets, 0x04, octets.content);
    var at := ItemStart(t.full, items, 1);
    ItemIsAt(t.full, at, value.full);
    TailIsThere(t.full, at, value.full, ContentStart(value), value.content);
    TailIsThere(t.full, at + ContentStart(value), octets.full, ContentStart(octets), octets.content);
  }

  lemma ItemIsAt(whole: Bytes, at: int, part: Bytes)
    requires 0 <= at <= at + |part| <= |whole| && whole[at..at + |part|] == part
    ensures At(whole, at, part)
  {
  }

  lemma WithDataSplices(t: Tlv, content: Bytes)
    requires IsData(t) && |content| == |DataOf(t)|
    ensures 0 <= DataStart(t) <= DataStart(t) + |content| <= |t.full|
    ensures WithData(t, content).full == Splice(t.full, DataStart(t), content)
  {
    hide ParseContentInfo, SequenceElements, ReadWhole, ItemStart, ReplaceItem, Rewrap, OctetString, Splice;
    InfoFields(t);
    var items, value := SequenceElements(t.full, 2).items, ParseContentInfo(t).value.1;
    OctetFields(value.content);
    var octets := ReadWhole(value.content).value;
    var inner := Rewrap(octets, 0x04, content);
    var outer := Rewrap(value, 0xA0, inner.full);
    RewrapSplices(octets, 0x04, content);
    RewrapSplices(value, 0xA0, inner.full);
    ReplaceSplices(t.full, 2, 1, outer);
    var at, from := ItemStart(t.full, items, 1), ContentStart(value);
    SpliceInside(t.full, at, |value.full|, from, inner.full);
    SpliceInside(t.full, at + from, |value.content|, ContentStart(octets), content);
    assert value.full[from..from + |value.content|] == value.content;
    SpliceInside(t.full, at, |value.full|, from, value.content);
  }

  // ------------------------------------------------------------------- the overlay

  function OverlayBag(t: Tlv, paint: Bytes, depth: nat): (r: Tlv)
    requires ReadWhole(t.full) == Some(t) && depth <= MAX_SAFE_CONTENTS_DEPTH && |paint| == |t.full|
    ensures |r.full| == |t.full| && ReadWhole(r.full) == Some(r)
    decreases 17 - depth, 0, 0
  {
    match ParseSafeBag(t)
    case Err(_) => t
    case Ok(bag) =>
      var painted := paint[ValueStart(t)..ValueStart(t) + |bag.value.content|];
      match Kind(bag.id)
      case KeyBag => WithValue(t, painted)
      case SafeContentsBag => WithValue(t, OverlaySafe(bag.value.content, painted, depth + 1))
      case CertBag => t
      case OtherBag => t
  }

  function OverlayBags(bags: seq<Tlv>, paint: Bytes, depth: nat): (r: seq<Tlv>)
    requires Readable(bags) && depth <= MAX_SAFE_CONTENTS_DEPTH && |paint| == |Concat(bags)|
    ensures |r| == |bags| && Readable(r) && |Concat(r)| == |Concat(bags)|
    decreases 17 - depth, 1, |bags|
  {
    if bags == [] then []
    else
      assert forall i :: 0 <= i < |bags[1..]| ==> bags[1..][i] == bags[i + 1];
      var n := |bags[0].full|;
      [OverlayBag(bags[0], paint[..n], depth)] + OverlayBags(bags[1..], paint[n..], depth)
  }

  function OverlaySafe(encoded: Bytes, paint: Bytes, depth: nat): (r: Bytes)
    requires depth <= 17 && |paint| == |encoded|
    ensures |r| == |encoded|
    decreases 17 - depth, 2, 0
  {
    if depth > MAX_SAFE_CONTENTS_DEPTH || SequenceElements(encoded, MAX_BAGS + 1).Broken? then encoded
    else
      var bags := SequenceElements(encoded, MAX_BAGS + 1).items;
      ItemsOf(encoded, MAX_BAGS + 1);
      ResequenceSplices(encoded, MAX_BAGS + 1, bags);
      Resequence(encoded, MAX_BAGS + 1, OverlayBags(bags, paint[ItemsStart(encoded, bags)..], depth))
  }

  function OverlayContent(t: Tlv, paint: Bytes): (r: Tlv)
    requires ReadWhole(t.full) == Some(t) && |paint| == |t.full|
    ensures |r.full| == |t.full| && ReadWhole(r.full) == Some(r)
  {
    if !IsData(t) then t
    else
      DataIsThere(t);
      WithData(t, OverlaySafe(DataOf(t), paint[DataStart(t)..DataStart(t) + |DataOf(t)|], 0))
  }

  function OverlayContents(contents: seq<Tlv>, paint: Bytes): (r: seq<Tlv>)
    requires Readable(contents) && |paint| == |Concat(contents)|
    ensures |r| == |contents| && Readable(r) && |Concat(r)| == |Concat(contents)|
  {
    if contents == [] then []
    else
      assert forall i :: 0 <= i < |contents[1..]| ==> contents[1..][i] == contents[i + 1];
      var n := |contents[0].full|;
      [OverlayContent(contents[0], paint[..n])] + OverlayContents(contents[1..], paint[n..])
  }

  function OverlayList(safe: Bytes, paint: Bytes): (r: Bytes)
    requires |paint| == |safe|
    ensures |r| == |safe|
  {
    if SequenceElements(safe, MAX_CONTENT_INFOS).Broken? then safe
    else
      var contents := SequenceElements(safe, MAX_CONTENT_INFOS).items;
      ItemsOf(safe, MAX_CONTENT_INFOS);
      ResequenceSplices(safe, MAX_CONTENT_INFOS, contents);
      Resequence(safe, MAX_CONTENT_INFOS, OverlayContents(contents, paint[ItemsStart(safe, contents)..]))
  }

  predicate HoldsList(data: Bytes) {
    var outer := SequenceElements(data, 3);
    outer.Fields? && |outer.items| >= 2 && IsData(outer.items[1])
  }

  /** The content list of a plaintext PFX, and where it starts in the file. */
  function ListOf(data: Bytes): Bytes
    requires HoldsList(data)
  {
    DataOf(SequenceElements(data, 3).items[1])
  }

  function ListStart(data: Bytes): int
    requires HoldsList(data)
  {
    var outer := SequenceElements(data, 3).items;
    ItemStart(data, outer, 1) + DataStart(outer[1])
  }

  lemma ListIsThere(data: Bytes)
    requires HoldsList(data)
    ensures 0 <= ListStart(data) <= ListStart(data) + |ListOf(data)| <= |data|
    ensures data[ListStart(data)..ListStart(data) + |ListOf(data)|] == ListOf(data)
  {
    hide SequenceElements, ReadWhole, ItemStart, ReplaceItem, DataOf, IsData, DataStart, Splice;
    var outer := SequenceElements(data, 3).items;
    ItemsOf(data, 3);
    ReplaceSplices(data, 3, 1, outer[1]);
    DataIsThere(outer[1]);
    SpliceInside(data, ItemStart(data, outer, 1), |outer[1].full|, DataStart(outer[1]), DataOf(outer[1]));
  }

  /** A file with its key values taken from other bytes of the same length; a file that is
      no plaintext PFX is left alone. */
  function Overlay(data: Bytes, paint: Bytes): (r: Bytes)
    requires |paint| == |data|
    ensures |r| == |data|
  {
    if !HoldsList(data) then data
    else
      var outer := SequenceElements(data, 3).items;
      ListIsThere(data);
      var list := OverlayList(ListOf(data), paint[ListStart(data)..ListStart(data) + |ListOf(data)|]);
      ItemsOf(data, 3);
      ReplaceItem(data, 3, 1, WithData(outer[1], list))
  }

  // --------------------------------------------------- what it leaves unchanged

  lemma {:induction false} OverlaidBag(
    codec: Codec, t: Tlv, paint: Bytes, index: nat, depth: nat, chain: nat, bagCount: nat)
    requires ReadWhole(t.full) == Some(t) && |paint| == |t.full|
    requires depth <= MAX_SAFE_CONTENTS_DEPTH && 1 <= bagCount <= MAX_BAGS
    ensures OneBag(codec, OverlayBag(t, paint, depth), index, depth, chain, bagCount)
         == OneBag(codec, t, index, depth, chain, bagCount)
    decreases 17 - depth, 0, 0
  {
    hide ParseSafeBag, Kind, CertBagResult, WithValue, ReadWhole, SafeContents, OverlaySafe, ValueStart;
    var parsed := ParseSafeBag(t);
    if parsed.Ok? && Kind(parsed.value.id).SafeContentsBag? {
      var content := parsed.value.value.content;
      OverlaidSafe(codec, content, paint[ValueStart(t)..ValueStart(t) + |content|], depth + 1, chain, bagCount);
    }
  }

  /** The overlay of a list, item by item. */
  lemma {:induction false} OverlayBagsAt(bags: seq<Tlv>, paint: Bytes, depth: nat, i: nat) returns (part: Bytes)
    requires Readable(bags) && depth <= MAX_SAFE_CONTENTS_DEPTH && |paint| == |Concat(bags)| && i < |bags|
    ensures |part| == |bags[i].full| && OverlayBags(bags, paint, depth)[i] == OverlayBag(bags[i], part, depth)
    decreases i
  {
    hide OverlayBag, ReadWhole;
    var n := |bags[0].full|;
    if i == 0 {
      part := paint[..n];
    } else {
      assert forall j :: 0 <= j < |bags[1..]| ==> bags[1..][j] == bags[j + 1];
      part := OverlayBagsAt(bags[1..], paint[n..], depth, i - 1);
    }
  }

  lemma {:induction false} OverlaidBags(
    codec: Codec, bags: seq<Tlv>, paint: Bytes, index: nat, depth: nat, chain: nat, bagCount: nat)
    requires Readable(bags) && depth <= MAX_SAFE_CONTENTS_DEPTH && |paint| == |Concat(bags)| && index <= |bags|
    ensures Bags(codec, OverlayBags(bags, paint, depth), index, depth, chain, bagCount)
         == Bags(codec, bags, index, depth, chain, bagCount)
    decreases 17 - depth, 1, |bags| - index
  {
    hide OneBag, OverlayBag, OverlayBags, ReadWhole;
    var overlaid := OverlayBags(bags, paint, depth);
    if index < |bags| && bagCount < MAX_BAGS {
      var part := OverlayBagsAt(bags, paint, depth, index);
      OverlaidBag(codec, bags[index], part, index, depth, chain, bagCount + 1);
      BagsStep(codec, bags, index, depth, chain, bagCount);
      BagsStep(codec, overlaid, index, depth, chain, bagCount);
      var one := OneBag(codec, bags[index], index, depth, chain, bagCount + 1);
      OverlaidBags(codec, bags, paint, index + 1, depth, one.chain, one.bagCount);
    }
  }

  lemma {:induction false} OverlaidSafe(
    codec: Codec, encoded: Bytes, paint: Bytes, depth: nat, chain: nat, bagCount: nat)
    requires depth <= 17 && |paint| == |encoded|
    ensures SafeContents(codec, OverlaySafe(encoded, paint, depth), depth, chain, bagCount)
         == SafeContents(codec, encoded, depth, chain, bagCount)
    decreases 17 - depth, 2, 0
  {
    hide SequenceElements, ReadWhole, OverlayBags;
    if depth <= MAX_SAFE_CONTENTS_DEPTH && SequenceElements(encoded, MAX_BAGS + 1).Fields? {
      var bags := SequenceElements(encoded, MAX_BAGS + 1).items;
      ItemsOf(encoded, MAX_BAGS + 1);
      ResequenceSplices(encoded, MAX_BAGS + 1, bags);
      OverlaidBags(codec, bags, paint[ItemsStart(encoded, bags)..], 0, depth, chain, bagCount);
    }
  }

  lemma OverlaidContent(codec: Codec, t: Tlv, paint: Bytes, index: nat, bagCount: nat)
    requires ReadWhole(t.full) == Some(t) && |paint| == |t.full|
    ensures OneContent(codec, OverlayContent(t, paint), index, bagCount) == OneContent(codec, t, index, bagCount)
  {
    hide ParseContentInfo, OctetString, ParseEncrypted, SafeContents, WithData, ReadWhole, OverlaySafe;
    if IsData(t) {
      DataIsThere(t);
      OverlaidSafe(codec, DataOf(t), paint[DataStart(t)..DataStart(t) + |DataOf(t)|], 0, 0, bagCount);
    }
  }

  lemma {:induction false} OverlayContentsAt(contents: seq<Tlv>, paint: Bytes, i: nat) returns (part: Bytes)
    requires Readable(contents) && |paint| == |Concat(contents)| && i < |contents|
    ensures |part| == |contents[i].full| && OverlayContents(contents, paint)[i] == OverlayContent(contents[i], part)
    decreases i
  {
    hide OverlayContent, ReadWhole;
    var n := |contents[0].full|;
    if i == 0 {
      part := paint[..n];
    } else {
      assert forall j :: 0 <= j < |contents[1..]| ==> contents[1..][j] == contents[j + 1];
      part := OverlayContentsAt(contents[1..], paint[n..], i - 1);
    }
  }

  lemma {:induction false} OverlaidContents(codec: Codec, contents: seq<Tlv>, paint: Bytes, index: nat, bagCount: nat)
    requires Readable(contents) && index <= |contents| && |paint| == |Concat(contents)|
    ensures ContentsFrom(codec, OverlayContents(contents, paint), index, bagCount)
         == ContentsFrom(codec, contents, index, bagCount)
    decreases |contents| - index
  {
    hide OneContent, OverlayContent, OverlayContents, ReadWhole;
    if index < |contents| {
      var part := OverlayContentsAt(contents, paint, index);
      OverlaidContent(codec, contents[index], part, index, bagCount);
      OverlaidContents(codec, contents, paint, index + 1, OneContent(codec, contents[index], index, bagCount).bagCount);
    }
  }

  /** The same error, or contents that give the same. */
  predicate OpensAlike(codec: Codec, r: Result<seq<Tlv>>, s: Result<seq<Tlv>>) {
    if s.Err? then r == s else r.Ok? && ContentsFrom(codec, r.value, 0, 0) == ContentsFrom(codec, s.value, 0, 0)
  }

  lemma OverlaidList(codec: Codec, safe: Bytes, paint: Bytes)
    requires |paint| == |safe|
    ensures OpensAlike(codec, ContentList(OverlayList(safe, paint)), ContentList(safe))
  {
    hide SequenceElements, ReadWhole, OverlayContents, ContentsFrom;
    if SequenceElements(safe, MAX_CONTENT_INFOS).Fields? {
      var contents := SequenceElements(safe, MAX_CONTENT_INFOS).items;
      ItemsOf(safe, MAX_CONTENT_INFOS);
      ResequenceSplices(safe, MAX_CONTENT_INFOS, contents);
      OverlaidContents(codec, contents, paint[ItemsStart(safe, contents)..], 0, 0);
    }
  }

  lemma OverlaidOpening(codec: Codec, data: Bytes, paint: Bytes)
    requires |paint| == |data|
    ensures OpensAlike(codec, OpenPfx(Overlay(data, paint)), OpenPfx(data))
  {
    hide SequenceElements, RawInteger, ParseContentInfo, OctetString, WithData, ReadWhole, ContentList, ContentsFrom,
         OverlayList, ListStart;
    if HoldsList(data) {
      ListIsThere(data);
      OverlaidList(codec, ListOf(data), paint[ListStart(data)..ListStart(data) + |ListOf(data)|]);
    }
  }

  /** No certificate, finding or problem depends on what stands in the key values. */
  lemma KeyValuesAreNotRead(codec: Codec, data: Bytes, paint: Bytes)
    requires |paint| == |data|
    ensures Parse(codec, Overlay(data, paint)) == Parse(codec, data)
  {
    hide OpenPfx, Overlay, ContentsFrom;
    OverlaidOpening(codec, data, paint);
  }

  // ------------------------------------------------------- the positions of key values

  /** The position, counted from the start of the bag, lies in a key value. */
  predicate InBagValue(t: Tlv, depth: nat, k: nat)
    requires depth <= MAX_SAFE_CONTENTS_DEPTH
    decreases 17 - depth, 0, 0
  {
    match ParseSafeBag(t)
    case Err(_) => false
    case Ok(bag) =>
      && ValueStart(t) <= k < ValueStart(t) + |bag.value.content|
      && (IsKeyIdentifier(bag.id)
          || (bag.id == BagIdentifier(6) && InSafeValue(bag.value.content, depth + 1, k - ValueStart(t))))
  }

  predicate InBagsValue(bags: seq<Tlv>, depth: nat, k: nat)
    requires depth <= MAX_SAFE_CONTENTS_DEPTH
    decreases 17 - depth, 1, |bags|
  {
    bags != [] &&
    if k < |bags[0].full| then InBagValue(bags[0], depth, k)
    else InBagsValue(bags[1..], depth, k - |bags[0].full|)
  }

  predicate InSafeValue(encoded: Bytes, depth: nat, k: nat)
    requires depth <= 17
    decreases 17 - depth, 2, 0
  {
    && depth <= MAX_SAFE_CONTENTS_DEPTH && SequenceElements(encoded, MAX_BAGS + 1).Fields?
    && var bags := SequenceElements(encoded, MAX_BAGS + 1).items;
       0 <= ItemsStart(encoded, bags) <= k && InBagsValue(bags, depth, k - ItemsStart(encoded, bags))
  }

  predicate InContentValue(t: Tlv, k: nat) {
    IsData(t) && DataStart(t) <= k < DataStart(t) + |DataOf(t)| && InSafeValue(DataOf(t), 0, k - DataStart(t))
  }

  predicate InContentsValue(contents: seq<Tlv>, k: nat) {
    contents != [] &&
    if k < |contents[0].full| then InContentValue(contents[0], k)
    else InContentsValue(contents[1..], k - |contents[0].full|)
  }

  predicate InListValue(safe: Bytes, k: nat) {
    && SequenceElements(safe, MAX_CONTENT_INFOS).Fields?
    && var contents := SequenceElements(safe, MAX_CONTENT_INFOS).items;
       0 <= ItemsStart(safe, contents) <= k && InContentsValue(contents, k - ItemsStart(safe, contents))
  }

  /** The position lies in the value of some key, shrouded-key or secret bag of the file. */
  predicate InKeyValue(data: Bytes, k: nat) {
    HoldsList(data) && ListStart(data) <= k < ListStart(data) + |ListOf(data)|
    && InListValue(ListOf(data), k - ListStart(data))
  }

  /** An overlay takes its byte at a key value and keeps the old one elsewhere. */
  predicate Painted(r: Bytes, old_: Bytes, paint: Bytes, k: nat, inside: bool) {
    k < |r| == |old_| == |paint| && r[k] == if inside then paint[k] else old_[k]
  }

  lemma {:induction false} PaintedBag(t: Tlv, paint: Bytes, depth: nat, k: nat)
    requires ReadWhole(t.full) == Some(t) && |paint| == |t.full| && depth <= MAX_SAFE_CONTENTS_DEPTH && k < |t.full|
    ensures Painted(OverlayBag(t, paint, depth).full, t.full, paint, k, InBagValue(t, depth, k))
    decreases 17 - depth, 0, 0
  {
    hide ParseSafeBag, Kind, WithValue, ReadWhole, InSafeValue, OverlaySafe, ValueStart, IsKeyIdentifier, BagIdentifier;
    var parsed := ParseSafeBag(t);
    if parsed.Ok? {
      KindsAreTheirArcs(parsed.value.id);
      var content, at := parsed.value.value.content, ValueStart(t);
      var painted := paint[at..at + |content|];
      if Kind(parsed.value.id).KeyBag? {
        WithValueSplices(t, painted);
      } else if Kind(parsed.value.id).SafeContentsBag? {
        WithValueSplices(t, OverlaySafe(content, painted, depth + 1));
        if at <= k < at + |content| {
          PaintedSafe(content, painted, depth + 1, k - at);
        }
      }
    }
  }

  lemma {:induction false} PaintedBags(bags: seq<Tlv>, paint: Bytes, depth: nat, k: nat)
    requires Readable(bags) && depth <= MAX_SAFE_CONTENTS_DEPTH && |paint| == |Concat(bags)| && k < |Concat(bags)|
    ensures Painted(Concat(OverlayBags(bags, paint, depth)), Concat(bags), paint, k, InBagsValue(bags, depth, k))
    decreases 17 - depth, 1, |bags|
  {
    hide OverlayBag, ReadWhole, InBagValue;
    var n := |bags[0].full|;
    assert forall j :: 0 <= j < |bags[1..]| ==> bags[1..][j] == bags[j + 1];
    assert OverlayBags(bags, paint, depth)[1..] == OverlayBags(bags[1..], paint[n..], depth);
    if k < n {
      PaintedBag(bags[0], paint[..n], depth, k);
    } else {
      PaintedBags(bags[1..], paint[n..], depth, k - n);
    }
  }

  lemma {:induction false} PaintedSafe(encoded: Bytes, paint: Bytes, depth: nat, k: nat)
    requires depth <= 17 && |paint| == |encoded| && k < |encoded|
    ensures Painted(OverlaySafe(encoded, paint, depth), encoded, paint, k, InSafeValue(encoded, depth, k))
    decreases 17 - depth, 2, 0
  {
    hide SequenceElements, ReadWhole, OverlayBags, InBagsValue;
    if depth <= MAX_SAFE_CONTENTS_DEPTH && SequenceElements(encoded, MAX_BAGS + 1).Fields? {
      var bags := SequenceElements(encoded, MAX_BAGS + 1).items;
      ItemsOf(encoded, MAX_BAGS + 1);
      ResequenceSplices(encoded, MAX_BAGS + 1, bags);
      var at := ItemsStart(encoded, bags);
      ResequenceSplices(encoded, MAX_BAGS + 1, OverlayBags(bags, paint[at..], depth));
      if at <= k {
        PaintedBags(bags, paint[at..], depth, k - at);
      }
    }
  }

  lemma PaintedContent(t: Tlv, paint: Bytes, k: nat)
    requires ReadWhole(t.full) == Some(t) && |paint| == |t.full| && k < |t.full|
    ensures Painted(OverlayContent(t, paint).full, t.full, paint, k, InContentValue(t, k))
  {
    hide IsData, DataOf, DataStart, WithData, ReadWhole, InSafeValue, OverlaySafe;
    if IsData(t) {
      DataIsThere(t);
      var at := DataStart(t);
      var painted := paint[at..at + |DataOf(t)|];
      WithDataSplices(t, OverlaySafe(DataOf(t), painted, 0));
      if at <= k < at + |DataOf(t)| {
        PaintedSafe(DataOf(t), painted, 0, k - at);
      }
    }
  }

  lemma {:induction false} PaintedContents(contents: seq<Tlv>, paint: Bytes, k: nat)
    requires Readable(contents) && |paint| == |Concat(contents)| && k < |Concat(contents)|
    ensures Painted(Concat(OverlayContents(contents, paint)), Concat(contents), paint, k, InContentsValue(contents, k))
    decreases |contents|
  {
    hide OverlayContent, ReadWhole, InContentValue;
    var n := |contents[0].full|;
    assert forall j :: 0 <= j < |contents[1..]| ==> contents[1..][j] == contents[j + 1];
    assert OverlayContents(contents, paint)[1..] == OverlayContents(contents[1..], paint[n..]);
    if k < n {
      PaintedContent(contents[0], paint[..n], k);
    } else {
      PaintedContents(contents[1..], paint[n..], k - n);
    }
  }

  lemma PaintedList(safe: Bytes, paint: Bytes, k: nat)
    requires |paint| == |safe| && k < |safe|
    ensures Painted(OverlayList(safe, paint), safe, paint, k, InListValue(safe, k))
  {
    hide SequenceElements, ReadWhole, OverlayContents, InContentsValue;
    if SequenceElements(safe, MAX_CONTENT_INFOS).Fields? {
      var contents := SequenceElements(safe, MAX_CONTENT_INFOS).items;
      ItemsOf(safe, MAX_CONTENT_INFOS);
      ResequenceSplices(safe, MAX_CONTENT_INFOS, contents);
      var at := ItemsStart(safe, contents);
      ResequenceSplices(safe, MAX_CONTENT_INFOS, OverlayContents(contents, paint[at..]));
      if at <= k {
        PaintedContents(contents, paint[at..], k - at);
      }
    }
  }

  /** The overlay of a file is the file with exactly its key values repainted. */
  lemma OverlayRepaintsKeyValues(data: Bytes, paint: Bytes, k: nat)
    requires |paint| == |data| && k < |data|
    ensures Overlay(data, paint)[k] == if InKeyValue(data, k) then paint[k] else data[k]
  {
    hide HoldsList, ListOf, ListStart, ReadWhole, InListValue, OverlayList, Overlay;
    if HoldsList(data) {
      ListIsThere(data);
      var at := ListStart(data);
      var painted := paint[at..at + |ListOf(data)|];
      OverlaySplices(data, paint);
      if at <= k < at + |ListOf(data)| {
        PaintedList(ListOf(data), painted, k - at);
      }
    } else {
      NoOverlay(data, paint);
    }
  }

  lemma NoOverlay(data: Bytes, paint: Bytes)
    requires |paint| == |data| && !HoldsList(data)
    ensures Overlay(data, paint) == data
  {
  }

  lemma OverlaySplices(data: Bytes, paint: Bytes)
    requires |paint| == |data| && HoldsList(data)
    ensures
      var at, n := ListStart(data), |ListOf(data)|;
      && 0 <= at <= at + n <= |data|
      && Overlay(data, paint) == Splice(data, at, OverlayList(ListOf(data), paint[at..at + n]))
  {
    hide SequenceElements, ReadWhole, ItemStart, ReplaceItem, DataOf, IsData, DataStart, Splice, OverlayList, WithData;
    ListIsThere(data);
    var outer := SequenceElements(data, 3).items;
    var list := OverlayList(ListOf(data), paint[ListStart(data)..ListStart(data) + |ListOf(data)|]);
    ItemsOf(data, 3);
    ReplaceSplices(data, 3, 1, WithData(outer[1], list));
    WithDataSplices(outer[1], list);
    SpliceInside(data, ItemStart(data, outer, 1), |outer[1].full|, DataStart(outer[1]), list);
  }

  /** Two files of the same length that differ only inside the values of key, shrouded-key
      and secret bags, at any depth, give the same certificates, findings and errors. */
  lemma SameButForKeys(codec: Codec, a: Bytes, b: Bytes)
    requires |a| == |b| && forall k :: 0 <= k < |a| && !InKeyValue(a, k) ==> a[k] == b[k]
    ensures Parse(codec, a) == Parse(codec, b)
  {
    hide InKeyValue, Overlay, Parse;
    forall k | 0 <= k < |a| ensures Overlay(a, b)[k] == b[k] {
      OverlayRepaintsKeyValues(a, b, k);
    }
    assert Overlay(a, b) == b;
    KeyValuesAreNotRead(codec, a, b);
  }
}
