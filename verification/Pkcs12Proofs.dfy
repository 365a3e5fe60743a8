/** What the PKCS#12 parser guarantees: certificates come out of the bag tree in
    depth-first order, content by content; detection is settled by the first 44
    bytes; and the values of key, shrouded-key and secret bags are never looked at. */
module Pkcs12Proofs {
  import opened Common
  import opened Der
  import opened Pkcs12

  // ------------------------------------------------------- the bag tree, in order

  /** A well-formed certBag: its name and, if the oracle accepts it, its certificate. */
  datatype Found = Found(name: Name, der: Option<Bytes>)

  function FoundIn(codec: Codec, bag: SafeBag): Found {
    var name, der := FriendlyName(codec, bag.attributes), CertificateBag(bag.value);
    Found(if name.Ok? then name.value else Unnamed,
          if der.Ok? && codec.accepts(der.value) then Some(der.value) else None)
  }

  /** The certBags of a bag, of a list of bags, and of a SafeContents, depth first. */
  function CertBagsOf(codec: Codec, encoded: Tlv, depth: nat): seq<Found>
    requires depth <= MAX_SAFE_CONTENTS_DEPTH
    decreases 17 - depth, 0, 0
  {
    match ParseSafeBag(encoded)
    case Err(_) => []
    case Ok(bag) =>
      match Kind(bag.id)
      case CertBag => [FoundIn(codec, bag)]
      case SafeContentsBag => CertBagsWithin(codec, bag.value.content, depth + 1)
      case KeyBag => []
      case OtherBag => []
  }

  function CertBagsFrom(codec: Codec, bags: seq<Tlv>, index: nat, depth: nat): seq<Found>
    requires depth <= MAX_SAFE_CONTENTS_DEPTH && index <= |bags|
    decreases 17 - depth, 1, |bags| - index
  {
    if index == |bags| then []
    else CertBagsOf(codec, bags[index], depth) + CertBagsFrom(codec, bags, index + 1, depth)
  }

  function CertBagsWithin(codec: Codec, encoded: Bytes, depth: nat): seq<Found>
    requires depth <= 17
    decreases 17 - depth, 2, 0
  {
    if depth > MAX_SAFE_CONTENTS_DEPTH then []
    else
      match SequenceElements(encoded, MAX_BAGS + 1)
      case Broken(_) => []
      case Fields(bags) => CertBagsFrom(codec, bags, 0, depth)
  }

  /** How many bags there are, nested ones included. */
  function CountOf(encoded: Tlv, depth: nat): nat
    requires depth <= MAX_SAFE_CONTENTS_DEPTH
    decreases 17 - depth, 0, 0
  {
    match ParseSafeBag(encoded)
    case Err(_) => 1
    case Ok(bag) => if Kind(bag.id).SafeContentsBag? then 1 + CountWithin(bag.value.content, depth + 1) else 1
  }

  function CountFrom(bags: seq<Tlv>, index: nat, depth: nat): nat
    requires depth <= MAX_SAFE_CONTENTS_DEPTH && index <= |bags|
    decreases 17 - depth, 1, |bags| - index
  {
    if index == |bags| then 0 else CountOf(bags[index], depth) + CountFrom(bags, index + 1, depth)
  }

  function CountWithin(encoded: Bytes, depth: nat): nat
    requires depth <= 17
    decreases 17 - depth, 2, 0
  {
    if depth > MAX_SAFE_CONTENTS_DEPTH then 0
    else
      match SequenceElements(encoded, MAX_BAGS + 1)
      case Broken(_) => 0
      case Fields(bags) => CountFrom(bags, 0, depth)
  }

  /** The accepted ones, each with the number of certBags before it. */
  function Numbered(found: seq<Found>, chain: nat): seq<Certificate> {
    if found == [] then [] else Placed(found[0], chain) + Numbered(found[1..], chain + 1)
  }

  function Placed(f: Found, chain: nat): seq<Certificate> {
    if f.der.Some? then [Certificate(f.der.value, f.name, chain, false)] else []
  }

  lemma {:induction false} NumberedConcat(a: seq<Found>, b: seq<Found>, chain: nat)
    ensures Numbered(a + b, chain) == Numbered(a, chain) + Numbered(b, chain + |a|)
    decreases |a|
  {
    if a == [] {
      assert a + b == b;
    } else {
      assert (a + b)[1..] == a[1..] + b;
      NumberedConcat(a[1..], b, chain + 1);
      assert chain + 1 + |a[1..]| == chain + |a|;
      var first, rest, last := Placed(a[0], chain), Numbered(a[1..], chain + 1), Numbered(b, chain + |a|);
      assert first + (rest + last) == first + rest + last;
    }
  }

  /** Each certificate stands for the certBag at its position. */
  predicate StandsFor(c: Certificate, found: seq<Found>, chain: nat) {
    && chain <= c.chainIndex < chain + |found|
    && found[c.chainIndex - chain] == Found(c.name, Some(c.der))
  }

  /** Numbering keeps accepted certBags only, each under its position, in order. */
  lemma {:induction false} NumberedIsSound(found: seq<Found>, chain: nat)
    ensures forall i :: 0 <= i < |Numbered(found, chain)| ==> StandsFor(Numbered(found, chain)[i], found, chain)
    ensures forall i, j :: 0 <= i < j < |Numbered(found, chain)| ==>
              Numbered(found, chain)[i].chainIndex < Numbered(found, chain)[j].chainIndex
    decreases |found|
  {
    if found != [] {
      NumberedIsSound(found[1..], chain + 1);
      var c, rest := Numbered(found, chain), Numbered(found[1..], chain + 1);
      var n := |c| - |rest|;
      forall i | n <= i < |c| ensures StandsFor(c[i], found, chain) && c[i].chainIndex > chain {
        assert c[i] == rest[i - n] && StandsFor(rest[i - n], found[1..], chain + 1);
      }
      forall i, j | 0 <= i < j < |c| ensures c[i].chainIndex < c[j].chainIndex {
        if i >= n {
          assert c[i] == rest[i - n] && c[j] == rest[j - n];
        }
      }
    }
  }

  /** Numbering drops no accepted certBag. */
  lemma {:induction false} NumberedIsComplete(found: seq<Found>, chain: nat, k: nat)
    requires k < |found| && found[k].der.Some?
    ensures Certificate(found[k].der.value, found[k].name, chain + k, false) in Numbered(found, chain)
    decreases |found|
  {
    if k > 0 {
      NumberedIsComplete(found[1..], chain + 1, k - 1);
    }
  }

  /** What a traversal that stays under the cap adds. */
  predicate Traverses(r: Safe, found: seq<Found>, count: nat, chain: nat, bagCount: nat) {
    r.certificates == Numbered(found, chain) && r.chain == chain + |found| && r.bagCount == bagCount + count
  }

  lemma TraversesMore(one: Safe, rest: Safe, a: seq<Found>, b: seq<Found>, m: nat, n: nat, chain: nat, bagCount: nat)
    requires Traverses(one, a, m, chain, bagCount) && Traverses(rest, b, n, one.chain, one.bagCount)
    ensures Traverses(Then(one, rest), a + b, m + n, chain, bagCount)
  {
    NumberedConcat(a, b, chain);
  }

  lemma {:induction false} BagTraversal(codec: Codec, encoded: Tlv, index: nat, depth: nat, chain: nat, bagCount: nat)
    requires depth <= MAX_SAFE_CONTENTS_DEPTH && 1 <= bagCount && bagCount - 1 + CountOf(encoded, depth) <= MAX_BAGS
    ensures CountOf(encoded, depth) >= 1
    ensures Traverses(OneBag(codec, encoded, index, depth, chain, bagCount), CertBagsOf(codec, encoded, depth),
                      CountOf(encoded, depth) - 1, chain, bagCount)
    decreases 17 - depth, 0, 0
  {
    hide ParseSafeBag, FriendlyName, CertificateBag, Kind;
    var parsed := ParseSafeBag(encoded);
    assert forall f: Found :: Numbered([f], chain) == Placed(f, chain) + [];
    if parsed.Ok? && Kind(parsed.value.id).SafeContentsBag? {
      WithinTraversal(codec, parsed.value.value.content, depth + 1, chain, bagCount);
    }
  }

  lemma {:induction false} BagsTraversal(
    codec: Codec, bags: seq<Tlv>, index: nat, depth: nat, chain: nat, bagCount: nat)
    requires depth <= MAX_SAFE_CONTENTS_DEPTH && index <= |bags| && bagCount + CountFrom(bags, index, depth) <= MAX_BAGS
    ensures Traverses(Bags(codec, bags, index, depth, chain, bagCount), CertBagsFrom(codec, bags, index, depth),
                      CountFrom(bags, index, depth), chain, bagCount)
    decreases 17 - depth, 1, |bags| - index
  {
    hide OneBag, CertBagsOf, CountOf;
    if index < |bags| {
      BagIsCounted(bags[index], depth);
      BagTraversal(codec, bags[index], index, depth, chain, bagCount + 1);
      var one := OneBag(codec, bags[index], index, depth, chain, bagCount + 1);
      BagsTraversal(codec, bags, index + 1, depth, one.chain, one.bagCount);
      BagsStep(codec, bags, index, depth, chain, bagCount);
      TraversesMore(one, Bags(codec, bags, index + 1, depth, one.chain, one.bagCount),
                    CertBagsOf(codec, bags[index], depth),
                    CertBagsFrom(codec, bags, index + 1, depth), CountOf(bags[index], depth),
                    CountFrom(bags, index + 1, depth),
                    chain, bagCount);
    }
  }

  lemma BagIsCounted(encoded: Tlv, depth: nat)
    requires depth <= MAX_SAFE_CONTENTS_DEPTH
    ensures CountOf(encoded, depth) >= 1
  {
  }

  /** While the cap is not hit, a SafeContents gives its certificates depth first, each
      numbered by the well-formed certBags before it, accepted or not. */
  lemma {:induction false} WithinTraversal(codec: Codec, encoded: Bytes, depth: nat, chain: nat, bagCount: nat)
    requires depth <= 17 && bagCount + CountWithin(encoded, depth) <= MAX_BAGS
    ensures Traverses(SafeContents(codec, encoded, depth, chain, bagCount), CertBagsWithin(codec, encoded, depth),
                      CountWithin(encoded, depth), chain, bagCount)
    decreases 17 - depth, 2, 0
  {
    hide SequenceElements;
    if depth <= MAX_SAFE_CONTENTS_DEPTH && SequenceElements(encoded, MAX_BAGS + 1).Fields? {
      BagsTraversal(codec, SequenceElements(encoded, MAX_BAGS + 1).items, 0, depth, chain, bagCount);
    }
  }

  // ------------------------------------------------------------- content by content

  /** The SafeContents of a plaintext content. */
  function Plaintext(encoded: Tlv): Option<Bytes> {
    match ParseContentInfo(encoded)
    case Err(_) => None
    case Ok((kind, value)) =>
      if kind != OID_DATA then None
      else match OctetString(value.content) case Err(_) => None case Ok(safe) => Some(safe)
  }

  /** What one content gives on its own. */
  function CertificatesOf(codec: Codec, encoded: Tlv): seq<Certificate> {
    match Plaintext(encoded)
    case None => []
    case Some(safe) => Numbered(CertBagsWithin(codec, safe, 0), 0)
  }

  function CountOfContent(encoded: Tlv): nat {
    match Plaintext(encoded)
    case None => 0
    case Some(safe) => CountWithin(safe, 0)
  }

  function AllCertificates(codec: Codec, contents: seq<Tlv>, index: nat): seq<Certificate>
    requires index <= |contents|
    decreases |contents| - index
  {
    if index == |contents| then []
    else CertificatesOf(codec, contents[index]) + AllCertificates(codec, contents, index + 1)
  }

  function AllBags(contents: seq<Tlv>, index: nat): nat
    requires index <= |contents|
    decreases |contents| - index
  {
    if index == |contents| then 0 else CountOfContent(contents[index]) + AllBags(contents, index + 1)
  }

  lemma ContentTraversal(codec: Codec, encoded: Tlv, index: nat, bagCount: nat)
    requires bagCount + CountOfContent(encoded) <= MAX_BAGS
    ensures
      var r := OneContent(codec, encoded, index, bagCount);
      r.certificates == CertificatesOf(codec, encoded) && r.bagCount == bagCount + CountOfContent(encoded)
  {
    hide ParseContentInfo, OctetString, ParseEncrypted, SafeContents, CertBagsWithin, CountWithin;
    if Plaintext(encoded).Some? {
      WithinTraversal(codec, Plaintext(encoded).value, 0, 0, bagCount);
    }
  }

  lemma {:induction false} ContentsTraversal(codec: Codec, contents: seq<Tlv>, index: nat, bagCount: nat)
    requires index <= |contents| && bagCount + AllBags(contents, index) <= MAX_BAGS
    ensures ContentsFrom(codec, contents, index, bagCount).certificates == AllCertificates(codec, contents, index)
    ensures ContentsFrom(codec, contents, index, bagCount).bagCount == bagCount + AllBags(contents, index)
    decreases |contents| - index
  {
    hide OneContent, CertificatesOf, CountOfContent;
    if index < |contents| {
      ContentTraversal(codec, contents[index], index, bagCount);
      ContentsTraversal(codec, contents, index + 1, bagCount + CountOfContent(contents[index]));
    }
  }

  // Below the cap, where the counter stands makes no difference.

  lemma {:induction false} BagShifts(codec: Codec, encoded: Tlv, index: nat, depth: nat, chain: nat, bagCount: nat)
    requires depth <= MAX_SAFE_CONTENTS_DEPTH && 1 <= bagCount && bagCount - 1 + CountOf(encoded, depth) <= MAX_BAGS
    ensures CountOf(encoded, depth) >= 1
    ensures OneBag(codec, encoded, index, depth, chain, bagCount)
         == OneBag(codec, encoded, index, depth, chain, 1).(bagCount := bagCount - 1 + CountOf(encoded, depth))
    decreases 17 - depth, 0, 0
  {
    hide ParseSafeBag, CertBagResult, Kind, SafeContents, CountWithin;
    var parsed := ParseSafeBag(encoded);
    if parsed.Ok? && Kind(parsed.value.id).CertBag? {
      CertBagShifts(codec, parsed.value, index, chain, bagCount);
    }
    if parsed.Ok? && Kind(parsed.value.id).SafeContentsBag? {
      WithinShifts(codec, parsed.value.value.content, depth + 1, chain, bagCount);
      WithinShifts(codec, parsed.value.value.content, depth + 1, chain, 1);
    }
  }

  lemma CertBagShifts(codec: Codec, bag: SafeBag, index: nat, chain: nat, bagCount: nat)
    ensures CertBagResult(codec, bag, index, chain, bagCount)
         == CertBagResult(codec, bag, index, chain, 1).(bagCount := bagCount)
  {
    hide FriendlyName, CertificateBag;
  }

  lemma {:induction false} BagsShift(
    codec: Codec, bags: seq<Tlv>, index: nat, depth: nat, chain: nat, bagCount: nat, other: nat)
    requires depth <= MAX_SAFE_CONTENTS_DEPTH && index <= |bags|
    requires bagCount + CountFrom(bags, index, depth) <= MAX_BAGS && other + CountFrom(bags, index, depth) <= MAX_BAGS
    ensures Bags(codec, bags, index, depth, chain, bagCount)
         == Bags(codec, bags, index, depth, chain, other).(bagCount := bagCount + CountFrom(bags, index, depth))
    decreases 17 - depth, 1, |bags| - index
  {
    hide OneBag, CountOf;
    if index < |bags| {
      BagShifts(codec, bags[index], index, depth, chain, bagCount + 1);
      BagShifts(codec, bags[index], index, depth, chain, other + 1);
      BagsStep(codec, bags, index, depth, chain, bagCount);
      BagsStep(codec, bags, index, depth, chain, other);
      var one := OneBag(codec, bags[index], index, depth, chain, bagCount + 1);
      var two := OneBag(codec, bags[index], index, depth, chain, other + 1);
      BagsShift(codec, bags, index + 1, depth, one.chain, one.bagCount, two.bagCount);
    }
  }

  lemma {:induction false} WithinShifts(codec: Codec, encoded: Bytes, depth: nat, chain: nat, bagCount: nat)
    requires depth <= 17 && bagCount + CountWithin(encoded, depth) <= MAX_BAGS
    ensures SafeContents(codec, encoded, depth, chain, bagCount)
         == SafeContents(codec, encoded, depth, chain, 0).(bagCount := bagCount + CountWithin(encoded, depth))
    decreases 17 - depth, 2, 0
  {
    hide SequenceElements, Bags, CountFrom;
    if depth <= MAX_SAFE_CONTENTS_DEPTH && SequenceElements(encoded, MAX_BAGS + 1).Fields? {
      BagsShift(codec, SequenceElements(encoded, MAX_BAGS + 1).items, 0, depth, chain, bagCount, 0);
    }
  }

  /** Below the cap a content gives what it would give on its own. */
  lemma ContentShifts(codec: Codec, encoded: Tlv, index: nat, bagCount: nat)
    requires bagCount + CountOfContent(encoded) <= MAX_BAGS
    ensures OneContent(codec, encoded, index, bagCount)
         == OneContent(codec, encoded, index, 0).(bagCount := bagCount + CountOfContent(encoded))
  {
    hide ParseContentInfo, OctetString, ParseEncrypted, SafeContents, CountWithin;
    if Plaintext(encoded).Some? {
      WithinShifts(codec, Plaintext(encoded).value, 0, 0, bagCount);
      WithinShifts(codec, Plaintext(encoded).value, 0, 0, 0);
    }
  }

  // What the contents give, each read on its own.

  function AllEncrypted(codec: Codec, contents: seq<Tlv>, index: nat): seq<EncryptedContent>
    requires index <= |contents|
    decreases |contents| - index
  {
    if index == |contents| then []
    else OneContent(codec, contents[index], index, 0).encrypted + AllEncrypted(codec, contents, index + 1)
  }

  function AllProblems(codec: Codec, contents: seq<Tlv>, index: nat): seq<Problem>
    requires index <= |contents|
    decreases |contents| - index
  {
    if index == |contents| then []
    else OneContent(codec, contents[index], index, 0).problems + AllProblems(codec, contents, index + 1)
  }

  function AllKeyBags(codec: Codec, contents: seq<Tlv>, index: nat): nat
    requires index <= |contents|
    decreases |contents| - index
  {
    if index == |contents| then 0
    else OneContent(codec, contents[index], index, 0).keyBags + AllKeyBags(codec, contents, index + 1)
  }

  lemma {:induction false} ContentsShift(codec: Codec, contents: seq<Tlv>, index: nat, bagCount: nat)
    requires index <= |contents| && bagCount + AllBags(contents, index) <= MAX_BAGS
    ensures
      var r := ContentsFrom(codec, contents, index, bagCount);
      && r.encrypted == AllEncrypted(codec, contents, index) && r.problems == AllProblems(codec, contents, index)
      && r.keyBags == AllKeyBags(codec, contents, index) && r.examined == AllBags(contents, index)
    decreases |contents| - index
  {
    hide OneContent, CountOfContent;
    if index < |contents| {
      ContentShifts(codec, contents[index], index, bagCount);
      ContentsShift(codec, contents, index + 1, bagCount + CountOfContent(contents[index]));
    }
  }

  /** A PFX with at most 10,000 bags gives the concatenation of what its contents give
      independently: the certificates of each in depth-first order, numbered afresh, and
      its finding and its problems; one truststore flag says whether there are
      certificates, nothing encrypted, and no key bag in any content. */
  lemma ContentsAreIndependent(codec: Codec, data: Bytes)
    requires OpenPfx(data).Ok? && AllBags(OpenPfx(data).value, 0) <= MAX_BAGS
    ensures
      var contents, parsed := OpenPfx(data).value, Parse(codec, data);
      var found, encrypted := AllCertificates(codec, contents, 0), AllEncrypted(codec, contents, 0);
      && parsed.certificates == Mark(found, found != [] && encrypted == [] && AllKeyBags(codec, contents, 0) == 0)
      && parsed.encrypted == encrypted
      && parsed.problems == AllProblems(codec, contents, 0)
  {
    hide OpenPfx, ContentsFrom, AllCertificates, AllEncrypted, AllProblems, AllKeyBags;
    ContentsTraversal(codec, OpenPfx(data).value, 0, 0);
    ContentsShift(codec, OpenPfx(data).value, 0, 0);
  }

  /** However the file is built, at most 10,000 bags are looked into, and the counter
      ends at most 17 open levels and 255 later contents above that. */
  lemma WorkIsBounded(codec: Codec, data: Bytes)
    requires OpenPfx(data).Ok?
    ensures
      var run := ContentsFrom(codec, OpenPfx(data).value, 0, 0);
      run.examined <= MAX_BAGS && run.bagCount <= MAX_BAGS + 17 + 255
  {
    hide OpenPfx;
    assert |OpenPfx(data).value| <= MAX_CONTENT_INFOS;
  }

  // ------------------------------------------------------------------- friendly names

  /** The element at the head of some attributes is a well-formed one of another kind. */
  predicate StartsWithOther(rest: Bytes) {
    var attribute := ReadTlv(rest);
    attribute.Some? && AttributeFields(attribute.value, 0).Ok?
    && AttributeFields(attribute.value, 0).value.0 != OID_FRIENDLY_NAME
  }

  /** How many such attributes come first, and what follows them. */
  function Others(rest: Bytes): nat
    decreases |rest|
  {
    if StartsWithOther(rest) then 1 + Others(rest[|ReadTlv(rest).value.full|..]) else 0
  }

  function AfterOthers(rest: Bytes): Bytes
    decreases |rest|
  {
    if StartsWithOther(rest) then AfterOthers(rest[|ReadTlv(rest).value.full|..]) else rest
  }

  /** What the attribute in question, the first that is malformed or a friendlyName, says. */
  function NameAt(codec: Codec, rest: Bytes, index: nat): Result<Name> {
    var attribute := ReadTlv(rest);
    if attribute.None? then Err(BadAttribute(index))
    else
      match AttributeFields(attribute.value, index)
      case Err(why) => Err(why)
      case Ok((_, values)) => NameValue(codec, values)
  }

  /** What n well-formed others with something left behind them amount to. */
  function NameAfter(codec: Codec, n: nat, left: Bytes): Result<Name> {
    if n > MAX_BAG_ATTRIBUTES || (n == MAX_BAG_ATTRIBUTES && left != []) then Err(TooManyAttributes)
    else if left == [] then Ok(Unnamed)
    else NameAt(codec, left, n)
  }

  lemma NameStandsHere(codec: Codec, rest: Bytes, index: nat)
    requires index <= MAX_BAG_ATTRIBUTES && !StartsWithOther(rest)
    ensures NameFrom(codec, rest, index) == NameAfter(codec, index, rest)
  {
    hide NameValue, SequenceElements, RawOid, ReadTlv;
  }

  lemma NameStandsLater(codec: Codec, rest: Bytes, index: nat)
    requires index < MAX_BAG_ATTRIBUTES && StartsWithOther(rest)
    ensures NameFrom(codec, rest, index) == NameFrom(codec, rest[|ReadTlv(rest).value.full|..], index + 1)
  {
    hide NameValue, SequenceElements, RawOid;
  }

  lemma {:induction false} NameFromIsFirst(codec: Codec, rest: Bytes, index: nat)
    requires index <= MAX_BAG_ATTRIBUTES
    ensures NameFrom(codec, rest, index) == NameAfter(codec, index + Others(rest), AfterOthers(rest))
    decreases |rest|
  {
    hide StartsWithOther, NameAfter, NameFrom;
    if !StartsWithOther(rest) {
      NameStandsHere(codec, rest, index);
    } else {
      OthersAreRead(rest);
      if index < MAX_BAG_ATTRIBUTES {
        NameStandsLater(codec, rest, index);
        NameFromIsFirst(codec, rest[|ReadTlv(rest).value.full|..], index + 1);
      } else {
        OneTooMany(codec, rest, index);
      }
    }
  }

  lemma OneTooMany(codec: Codec, rest: Bytes, index: nat)
    requires index >= MAX_BAG_ATTRIBUTES && StartsWithOther(rest)
    ensures forall n, left :: n > index ==> NameAfter(codec, n, left) == NameFrom(codec, rest, index)
  {
    hide SequenceElements, RawOid, NameAt;
    assert rest != [];
  }

  /** The friendly name is the value of the first friendlyName attribute, if only
      well-formed others, fewer than 64, come before it; there is none if at most 64
      well-formed others are all there is. Anything else is an error: a malformed
      attribute before the name, or more than 64 attributes without reaching one. */
  lemma FriendlyNameIsFirst(codec: Codec, attributes: Tlv)
    ensures
      var n, left := Others(attributes.content), AfterOthers(attributes.content);
      FriendlyName(codec, Some(attributes)) == NameAfter(codec, n, left) && !StartsWithOther(left)
  {
    hide NameAfter, NameFrom, StartsWithOther;
    NameFromIsFirst(codec, attributes.content, 0);
    NoMoreOthers(attributes.content);
  }

  lemma {:induction false} NoMoreOthers(rest: Bytes)
    ensures !StartsWithOther(AfterOthers(rest))
    decreases |rest|
  {
    hide StartsWithOther;
    if StartsWithOther(rest) {
      assert ReadTlv(rest).Some? by { OthersAreRead(rest); }
      NoMoreOthers(rest[|ReadTlv(rest).value.full|..]);
    }
  }

  lemma OthersAreRead(rest: Bytes)
    requires StartsWithOther(rest)
    ensures ReadTlv(rest).Some?
  {
  }

  // -------------------------------------------------------- detection on a prefix

  lemma HeaderOnExtension(prefix: Bytes, data: Bytes, offset: nat, limit: int)
    requires prefix <= data && ReadHeader(prefix, offset, limit).Some?
    ensures ReadHeader(data, offset, limit) == ReadHeader(prefix, offset, limit)
  {
    var h := ReadHeader(prefix, offset, limit).value;
    assert forall i, j :: 0 <= i <= j <= |prefix| ==> prefix[i..j] == data[i..j];
  }

  /** Ten bytes past the offset settle a header. */
  lemma HeaderSettled(prefix: Bytes, data: Bytes, offset: nat, limit: int)
    requires prefix <= data && offset + 10 <= |prefix|
    ensures ReadHeader(data, offset, limit) == ReadHeader(prefix, offset, limit)
  {
    var count := prefix[offset + 1] as int - 0x80;
    if 0 <= count <= 8 {
      assert prefix[offset + 2..offset + 2 + count] == data[offset + 2..offset + 2 + count];
    }
  }

  lemma ShortHeader(data: Bytes, offset: nat, limit: int)
    requires var h := ReadHeader(data, offset, limit); h.Some? && h.value.end - h.value.content < 0x80
    ensures ReadHeader(data, offset, limit).value.content == offset + 2
  {
  }

  /** The two accepted content types are eleven bytes each. */
  lemma PfxTypeIsShort(encoded: Bytes)
    requires IsPfxType(encoded)
    ensures |encoded| == 11
  {
    var t := ReadTlv(encoded).value;
    LowTag(encoded);
    TlvWasWritten(encoded);
  }

  lemma AuthSafeOnExtension(prefix: Bytes, data: Bytes, authSafe: Header)
    requires prefix <= data && DetectAuthSafe(prefix, authSafe)
    ensures DetectAuthSafe(data, authSafe)
  {
    hide ReadHeader, IsPfxType;
    var contentType := ReadHeader(prefix, authSafe.content, authSafe.end);
    HeaderOnExtension(prefix, data, authSafe.content, authSafe.end);
    HeaderOnExtension(prefix, data, contentType.value.end, authSafe.end);
    assert prefix[authSafe.content..contentType.value.end] == data[authSafe.content..contentType.value.end];
  }

  /** A PFX recognised in a prefix is recognised in every extension of it. */
  lemma DetectionIsMonotone(prefix: Bytes, data: Bytes)
    requires prefix <= data && Detect(prefix)
    ensures Detect(data)
  {
    hide ReadHeader, DetectAuthSafe;
    var outer := ReadHeader(prefix, 0, MAX_INT64).value;
    HeaderOnExtension(prefix, data, 0, MAX_INT64);
    var version := ReadHeader(prefix, outer.content, outer.end).value;
    HeaderOnExtension(prefix, data, outer.content, outer.end);
    HeaderOnExtension(prefix, data, version.end, outer.end);
    AuthSafeOnExtension(prefix, data, ReadHeader(prefix, version.end, outer.end).value);
  }

  lemma AuthSafeSettled(prefix: Bytes, data: Bytes, authSafe: Header)
    requires prefix <= data && |prefix| >= 44 && authSafe.content <= 23 && DetectAuthSafe(data, authSafe)
    ensures DetectAuthSafe(prefix, authSafe)
  {
    hide ReadHeader, IsPfxType;
    var contentType := ReadHeader(data, authSafe.content, authSafe.end).value;
    HeaderSettled(prefix, data, authSafe.content, authSafe.end);
    PfxTypeIsShort(data[authSafe.content..contentType.end]);
    HeaderSettled(prefix, data, contentType.end, authSafe.end);
    assert prefix[authSafe.content..contentType.end] == data[authSafe.content..contentType.end];
  }

  /** Detection on any 44 bytes gives the answer for the whole file. */
  lemma DetectionSettledBy44(prefix: Bytes, data: Bytes)
    requires prefix <= data && |prefix| >= 44
    ensures Detect(prefix) <==> Detect(data)
  {
    hide ReadHeader, DetectAuthSafe;
    if Detect(prefix) {
      DetectionIsMonotone(prefix, data);
    }
    if Detect(data) {
      var outer := ReadHeader(data, 0, MAX_INT64).value;
      HeaderSettled(prefix, data, 0, MAX_INT64);
      var version := ReadHeader(data, outer.content, outer.end).value;
      HeaderSettled(prefix, data, outer.content, outer.end);
      ShortHeader(data, outer.content, outer.end);
      var authSafe := ReadHeader(data, version.end, outer.end).value;
      HeaderSettled(prefix, data, version.end, outer.end);
      AuthSafeSettled(prefix, data, authSafe);
    }
  }
}
