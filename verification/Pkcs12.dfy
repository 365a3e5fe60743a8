/** The PKCS#12 reader of `internal/scanner/pkcs12.go` (sections 4, 4.1 and 4.2 of
    RFC 7292): what it extracts from a file, and the parser with its counters. */
module Pkcs12 {
  import opened Common
  import opened TextCodec
  import opened Der

  const PFX_VERSION: int := 3
  const MAX_CONTENT_INFOS: nat := 256
  const MAX_BAGS: nat := 10_000
  const MAX_BAG_ATTRIBUTES: nat := 64
  const MAX_SAFE_CONTENTS_DEPTH: nat := 16

  // Object identifiers, by their content octets.
  const OID_DATA: Bytes := [0x2A, 0x86, 0x48, 0x86, 0xF7, 0x0D, 0x01, 0x07, 0x01]
  const OID_SIGNED_DATA: Bytes := [0x2A, 0x86, 0x48, 0x86, 0xF7, 0x0D, 0x01, 0x07, 0x02]
  const OID_ENCRYPTED_DATA: Bytes := [0x2A, 0x86, 0x48, 0x86, 0xF7, 0x0D, 0x01, 0x07, 0x06]
  const OID_KEY_BAG: Bytes := [0x2A, 0x86, 0x48, 0x86, 0xF7, 0x0D, 0x01, 0x0C, 0x0A, 0x01, 0x01]
  const OID_SHROUDED_KEY_BAG: Bytes := [0x2A, 0x86, 0x48, 0x86, 0xF7, 0x0D, 0x01, 0x0C, 0x0A, 0x01, 0x02]
  const OID_CERT_BAG: Bytes := [0x2A, 0x86, 0x48, 0x86, 0xF7, 0x0D, 0x01, 0x0C, 0x0A, 0x01, 0x03]
  const OID_SECRET_BAG: Bytes := [0x2A, 0x86, 0x48, 0x86, 0xF7, 0x0D, 0x01, 0x0C, 0x0A, 0x01, 0x05]
  const OID_SAFE_CONTENTS_BAG: Bytes := [0x2A, 0x86, 0x48, 0x86, 0xF7, 0x0D, 0x01, 0x0C, 0x0A, 0x01, 0x06]
  const OID_X509_CERTIFICATE: Bytes := [0x2A, 0x86, 0x48, 0x86, 0xF7, 0x0D, 0x01, 0x09, 0x16, 0x01]
  const OID_FRIENDLY_NAME: Bytes := [0x2A, 0x86, 0x48, 0x86, 0xF7, 0x0D, 0x01, 0x09, 0x14]

  /** What the parser takes from outside: `x509.ParseCertificate` and `utf8.Valid`. */
  datatype Codec = Codec(accepts: Bytes -> bool, utf8: Bytes -> bool)

  datatype Why =
    | Structure(what: SequenceProblem) | FieldCount(count: nat) | BadOid | NotExplicit | NotSet
    | BadOctets | BadInteger | Unsupported(oid: Bytes) | UnsupportedVersion(version: int)
    | TooManyAttributes | BadAttribute(index: nat) | BadValue | MultipleValues | BadString

  /** A friendly name: none, the bytes of a string kept as they are, or decoded text. */
  datatype Name = Unnamed | Raw(bytes: Bytes) | Decoded(text: Text)

  datatype Certificate = Certificate(der: Bytes, name: Name, chainIndex: nat, truststore: bool)

  datatype EncryptedContent = EncryptedContent(contentIndex: nat, algorithm: Bytes)

  datatype BagProblem =
    | DepthExceeded | BagList(what: SequenceProblem) | TooManyBags
    | BadBag(bag: nat, why: Why) | BadName(bag: nat, why: Why) | BadCertBag(bag: nat, why: Why) | BadX509(bag: nat)
    | Nested(bag: nat, inside: seq<BagProblem>)

  datatype Problem =
    | Refused(why: Why)
    | InContent(content: nat, why: Why)
    | InSafeContents(content: nat, inside: seq<BagProblem>)

  datatype Parsed = Parsed(certificates: seq<Certificate>, encrypted: seq<EncryptedContent>, problems: seq<Problem>)

  datatype Result<+T> = Ok(value: T) | Err(why: Why)

  // ------------------------------------------------------------ primitive values

  /** Whether `b` is a sequence of base-128 numbers. */
  predicate AllBase128(b: Bytes)
    decreases |b|
  {
    b == [] || var first := ReadBase128(b, 0, 0); first.Some? && AllBase128(b[first.value.1..])
  }

  /** `rawOID`: object identifiers are kept as content octets; their encoding being
      minimal, equal identifiers have equal octets. */
  function RawOid(t: Tlv): Result<Bytes> {
    if t.class_ == 0 && t.tag == 6 && !t.compound && t.content != [] && AllBase128(t.content)
    then Ok(t.content) else Err(BadOid)
  }

  function Signed(b: Bytes): int {
    if b != [] && b[0] >= 0x80 then Number(b) - Power256(|b|) else Number(b)
  }

  /** `rawInteger`: minimal two's complement of at most eight octets. */
  function RawInteger(t: Tlv): Result<int> {
    var b := t.content;
    if t.class_ != 0 || t.tag != 2 || t.compound || b == [] || |b| > 8 then Err(BadInteger)
    else if |b| > 1 && ((b[0] == 0 && b[1] < 0x80) || (b[0] == 0xFF && b[1] >= 0x80)) then Err(BadInteger)
    else Ok(Signed(b))
  }

  /** `explicitOctets`: the bytes are one OCTET STRING. */
  function OctetString(b: Bytes): Result<Bytes> {
    var t := ReadWhole(b);
    if t.Some? && t.value.class_ == 0 && t.value.tag == 4 && !t.value.compound
    then Ok(t.value.content) else Err(BadOctets)
  }

  function ParseContentInfo(encoded: Tlv): Result<(Bytes, Tlv)> {
    match SequenceElements(encoded.full, 2)
    case Broken(what) => Err(Structure(what))
    case Fields(items) =>
      if |items| != 2 then Err(FieldCount(|items|))
      else
        match RawOid(items[0])
        case Err(why) => Err(why)
        case Ok(oid) => if IsExplicit0(items[1]) then Ok((oid, items[1])) else Err(NotExplicit)
  }

  // ------------------------------------------------------------------------- bags

  datatype SafeBag = SafeBag(id: Bytes, value: Tlv, attributes: Option<Tlv>)

  function ParseSafeBag(encoded: Tlv): Result<SafeBag> {
    match SequenceElements(encoded.full, 3)
    case Broken(what) => Err(Structure(what))
    case Fields(items) =>
      if |items| < 2 then Err(FieldCount(|items|))
      else
        match RawOid(items[0])
        case Err(why) => Err(why)
        case Ok(id) =>
          if !IsExplicit0(items[1]) then Err(NotExplicit)
          else if |items| == 2 then Ok(SafeBag(id, items[1], None))
          else if !IsSet(items[2]) then Err(NotSet)
          else Ok(SafeBag(id, items[1], Some(items[2])))
  }

  datatype BagKind = KeyBag | CertBag | SafeContentsBag | OtherBag

  function Kind(id: Bytes): BagKind {
    if id == OID_KEY_BAG || id == OID_SHROUDED_KEY_BAG || id == OID_SECRET_BAG then KeyBag
    else if id == OID_CERT_BAG then CertBag
    else if id == OID_SAFE_CONTENTS_BAG then SafeContentsBag
    else OtherBag
  }

  /** `parsePKCS12CertificateBag`: the DER value inside a certBag. */
  function CertificateBag(value: Tlv): Result<Bytes> {
    match SequenceElements(value.content, 2)
    case Broken(what) => Err(Structure(what))
    case Fields(items) =>
      if |items| != 2 then Err(FieldCount(|items|))
      else
        match RawOid(items[0])
        case Err(why) => Err(why)
        case Ok(kind) =>
          if kind != OID_X509_CERTIFICATE then Err(Unsupported(kind))
          else if !IsExplicit0(items[1]) then Err(NotExplicit)
          else OctetString(items[1].content)
  }

  function DecodeString(codec: Codec, value: Tlv): Result<Name> {
    if value.class_ != 0 then Err(BadString)
    else if value.tag == 12 then (if codec.utf8(value.content) then Ok(Raw(value.content)) else Err(BadString))
    else if value.tag == 19 || value.tag == 22 then Ok(Raw(value.content))
    else if value.tag == 30 then
      var text := DecodeUtf16BE(value.content);
      if text.Some? then Ok(Decoded(text.value)) else Err(BadString)
    else Err(BadString)
  }

  /** The value SET of a friendlyName attribute: exactly one string. */
  function NameValue(codec: Codec, values: Tlv): Result<Name> {
    if !IsSet(values) then Err(NotSet)
    else
      var value := ReadTlv(values.content);
      if value.None? then Err(BadValue)
      else if |value.value.full| != |values.content| then Err(MultipleValues)
      else DecodeString(codec, value.value)
  }

  function AttributeFields(attribute: Tlv, index: nat): Result<(Bytes, Tlv)> {
    match SequenceElements(attribute.full, 2)
    case Broken(_) => Err(BadAttribute(index))
    case Fields(items) =>
      if |items| != 2 then Err(BadAttribute(index))
      else
        match RawOid(items[0])
        case Err(_) => Err(BadAttribute(index))
        case Ok(oid) => Ok((oid, items[1]))
  }

  /** The loop of `parseFriendlyName`: the first friendlyName among the first 64
      attributes. */
  function NameFrom(codec: Codec, rest: Bytes, index: nat): Result<Name>
    decreases |rest|
  {
    if rest == [] then Ok(Unnamed)
    else if index >= MAX_BAG_ATTRIBUTES then Err(TooManyAttributes)
    else
      var attribute := ReadTlv(rest);
      if attribute.None? then Err(BadAttribute(index))
      else
        match AttributeFields(attribute.value, index)
        case Err(why) => Err(why)
        case Ok((oid, values)) =>
          if oid == OID_FRIENDLY_NAME then NameValue(codec, values)
          else NameFrom(codec, rest[|attribute.value.full|..], index + 1)
  }

  function FriendlyName(codec: Codec, attributes: Option<Tlv>): Result<Name> {
    if attributes.None? then Ok(Unnamed) else NameFrom(codec, attributes.value.content, 0)
  }

  // --------------------------------------------------------------- SafeContents

  /** What some bags contributed: certificates and problems; the next chain index and
      the bag counter afterwards; key bags, and bags looked into. */
  datatype Safe = Safe(
    certificates: seq<Certificate>, problems: seq<BagProblem>, chain: nat, bagCount: nat, keyBags: nat, examined: nat)

  function Then(first: Safe, rest: Safe): Safe {
    Safe(first.certificates + rest.certificates, first.problems + rest.problems, rest.chain, rest.bagCount,
         first.keyBags + rest.keyBags, first.examined + rest.examined)
  }

  function NoBags(chain: nat, bagCount: nat): Safe {
    Safe([], [], chain, bagCount, 0, 0)
  }

  function CappedAt(bagCount: nat): nat {
    if bagCount <= MAX_BAGS then bagCount else MAX_BAGS
  }

  /** The bounds of one level and those below it: each open level adds at most one to
      a counter that has reached the cap, and no bag is looked into beyond it. */
  predicate Bounded(r: Safe, bagCount: nat, overshoot: nat) {
    && bagCount <= r.bagCount
    && (bagCount <= MAX_BAGS ==> r.bagCount <= MAX_BAGS + overshoot)
    && (bagCount > MAX_BAGS ==> r.bagCount <= bagCount + 1)
    && r.examined + CappedAt(bagCount) == CappedAt(r.bagCount)
  }

  function CertBagResult(codec: Codec, bag: SafeBag, index: nat, chain: nat, bagCount: nat): Safe {
    var name := FriendlyName(codec, bag.attributes);
    var nameProblems := if name.Err? then [BadName(index, name.why)] else [];
    var kept := if name.Err? then Unnamed else name.value;
    match CertificateBag(bag.value)
    case Err(why) => Safe([], nameProblems + [BadCertBag(index, why)], chain + 1, bagCount, 0, 1)
    case Ok(der) =>
      if codec.accepts(der) then Safe([Certificate(der, kept, chain, false)], nameProblems, chain + 1, bagCount, 0, 1)
      else Safe([], nameProblems + [BadX509(index)], chain + 1, bagCount, 0, 1)
  }

  function OneBag(codec: Codec, encoded: Tlv, index: nat, depth: nat, chain: nat, bagCount: nat): (r: Safe)
    requires depth <= MAX_SAFE_CONTENTS_DEPTH && 1 <= bagCount <= MAX_BAGS
    ensures bagCount <= r.bagCount <= MAX_BAGS + (MAX_SAFE_CONTENTS_DEPTH - depth)
    ensures r.examined + (bagCount - 1) == CappedAt(r.bagCount)
    decreases 17 - depth, 0, 0
  {
    match ParseSafeBag(encoded)
    case Err(why) => Safe([], [BadBag(index, why)], chain, bagCount, 0, 1)
    case Ok(bag) =>
      match Kind(bag.id)
      case KeyBag => Safe([], [], chain, bagCount, 1, 1)
      case CertBag => CertBagResult(codec, bag, index, chain, bagCount)
      case SafeContentsBag => Within(SafeContents(codec, bag.value.content, depth + 1, chain, bagCount), index)
      case OtherBag => Safe([], [], chain, bagCount, 0, 1)
  }

  /** The bags of a nested SafeContents, seen from the bag that holds it. */
  function Within(inside: Safe, index: nat): Safe {
    inside.(problems := if inside.problems == [] then [] else [Nested(index, inside.problems)],
            examined := inside.examined + 1)
  }

  function Bags(codec: Codec, bags: seq<Tlv>, index: nat, depth: nat, chain: nat, bagCount: nat): (r: Safe)
    requires depth <= MAX_SAFE_CONTENTS_DEPTH && index <= |bags|
    ensures Bounded(r, bagCount, 17 - depth)
    decreases 17 - depth, 1, |bags| - index
  {
    if index == |bags| then NoBags(chain, bagCount)
    else if bagCount + 1 > MAX_BAGS then Safe([], [TooManyBags], chain, bagCount + 1, 0, 0)
    else
      var one := OneBag(codec, bags[index], index, depth, chain, bagCount + 1);
      Then(one, Bags(codec, bags, index + 1, depth, one.chain, one.bagCount))
  }

  lemma BagsStep(codec: Codec, bags: seq<Tlv>, index: nat, depth: nat, chain: nat, bagCount: nat)
    requires depth <= MAX_SAFE_CONTENTS_DEPTH && index < |bags| && bagCount < MAX_BAGS
    ensures Bags(codec, bags, index, depth, chain, bagCount) ==
            var one := OneBag(codec, bags[index], index, depth, chain, bagCount + 1);
            Then(one, Bags(codec, bags, index + 1, depth, one.chain, one.bagCount))
  {
  }

  /** `parseSafeContents`. */
  function SafeContents(codec: Codec, encoded: Bytes, depth: nat, chain: nat, bagCount: nat): (r: Safe)
    requires depth <= 17
    ensures Bounded(r, bagCount, 17 - depth)
    decreases 17 - depth, 2, 0
  {
    if depth > MAX_SAFE_CONTENTS_DEPTH then NoBags(chain, bagCount).(problems := [DepthExceeded])
    else
      match SequenceElements(encoded, MAX_BAGS + 1)
      case Broken(what) => NoBags(chain, bagCount).(problems := [BagList(what)])
      case Fields(bags) => Bags(codec, bags, 0, depth, chain, bagCount)
  }

  // ------------------------------------------------------------ encrypted content

  function EncryptedInfo(items: seq<Tlv>, index: nat): Result<EncryptedContent> {
    if |items| < 2 then Err(FieldCount(|items|))
    else
      match RawOid(items[0])
      case Err(why) => Err(why)
      case Ok(kind) =>
        if kind != OID_DATA then Err(Unsupported(kind))
        else if |items| == 3 && !(items[2].class_ == 2 && items[2].tag == 0) then Err(NotExplicit)
        else
          match SequenceElements(items[1].full, 2)
          case Broken(what) => Err(Structure(what))
          case Fields(algorithm) =>
            if |algorithm| < 1 then Err(FieldCount(|algorithm|))
            else
              match RawOid(algorithm[0])
              case Err(why) => Err(why)
              case Ok(oid) => Ok(EncryptedContent(index, oid))
  }

  /** `parseEncryptedContent`. */
  function ParseEncrypted(value: Tlv, index: nat): Result<EncryptedContent> {
    match SequenceElements(value.content, 3)
    case Broken(what) => Err(Structure(what))
    case Fields(items) =>
      if |items| < 2 then Err(FieldCount(|items|))
      else
        match RawInteger(items[0])
        case Err(why) => Err(why)
        case Ok(version) =>
          if version != 0 then Err(UnsupportedVersion(version))
          else
            match SequenceElements(items[1].full, 3)
            case Broken(what) => Err(Structure(what))
            case Fields(info) => EncryptedInfo(info, index)
  }

  // ------------------------------------------------------------------------- PFX

  /** What the contents of the authenticated safe contributed. */
  datatype Run = Run(
    certificates: seq<Certificate>, encrypted: seq<EncryptedContent>, problems: seq<Problem>, bagCount: nat,
    keyBags: nat,
    examined: nat)

  function NextRun(first: Run, rest: Run): Run {
    Run(first.certificates + rest.certificates, first.encrypted + rest.encrypted, first.problems + rest.problems,
        rest.bagCount, first.keyBags + rest.keyBags, first.examined + rest.examined)
  }

  function OneContent(codec: Codec, encoded: Tlv, index: nat, bagCount: nat): (r: Run)
    ensures r.bagCount <= MAX_BAGS + 17 || r.bagCount <= bagCount + 1
    ensures bagCount <= r.bagCount && (bagCount > MAX_BAGS ==> r.bagCount <= bagCount + 1)
    ensures r.examined + CappedAt(bagCount) == CappedAt(r.bagCount)
  {
    match ParseContentInfo(encoded)
    case Err(why) => Run([], [], [InContent(index, why)], bagCount, 0, 0)
    case Ok((kind, value)) =>
      if kind == OID_DATA then
        match OctetString(value.content)
        case Err(why) => Run([], [], [InContent(index, why)], bagCount, 0, 0)
        case Ok(safe) =>
          var inside := SafeContents(codec, safe, 0, 0, bagCount);
          Run(inside.certificates, [], if inside.problems == [] then [] else [InSafeContents(index, inside.problems)],
              inside.bagCount, inside.keyBags, inside.examined)
      else if kind == OID_ENCRYPTED_DATA then
        match ParseEncrypted(value, index)
        case Err(why) => Run([], [], [InContent(index, why)], bagCount, 0, 0)
        case Ok(finding) => Run([], [finding], [], bagCount, 0, 0)
      else Run([], [], [InContent(index, Unsupported(kind))], bagCount, 0, 0)
  }

  /** The loop over the contents. The counter passes the cap by at most one for each
      of the 17 levels open in the content that hits it, and by one more for each
      later content; never more than the cap of bags are looked into. */
  function ContentsFrom(codec: Codec, contents: seq<Tlv>, index: nat, bagCount: nat): (r: Run)
    requires index <= |contents|
    ensures bagCount <= MAX_BAGS ==>
              r.bagCount <= MAX_BAGS + if index == |contents| then 0 else 17 + (|contents| - index - 1)
    ensures bagCount > MAX_BAGS ==> r.bagCount <= bagCount + (|contents| - index)
    ensures r.examined + CappedAt(bagCount) == CappedAt(r.bagCount)
    decreases |contents| - index
  {
    if index == |contents| then Run([], [], [], bagCount, 0, 0)
    else
      var one := OneContent(codec, contents[index], index, bagCount);
      NextRun(one, ContentsFrom(codec, contents, index + 1, one.bagCount))
  }

  /** The checks that lead to the list of contents. */
  function OpenPfx(data: Bytes): (r: Result<seq<Tlv>>)
    ensures r.Ok? ==> |r.value| <= MAX_CONTENT_INFOS
  {
    match SequenceElements(data, 3)
    case Broken(what) => Err(Structure(what))
    case Fields(outer) =>
      if |outer| < 2 then Err(FieldCount(|outer|))
      else
        match RawInteger(outer[0])
        case Err(why) => Err(why)
        case Ok(version) =>
          if version != PFX_VERSION then Err(UnsupportedVersion(version))
          else
            match ParseContentInfo(outer[1])
            case Err(why) => Err(why)
            case Ok((kind, value)) =>
              if kind != OID_DATA then Err(Unsupported(kind))
              else
                match OctetString(value.content)
                case Err(why) => Err(why)
                case Ok(safe) => ContentList(safe)
  }

  function ContentList(safe: Bytes): (r: Result<seq<Tlv>>)
    ensures r.Ok? ==> |r.value| <= MAX_CONTENT_INFOS
  {
    match SequenceElements(safe, MAX_CONTENT_INFOS)
    case Broken(what) => Err(Structure(what))
    case Fields(contents) =>
      ElementsAreBounded(safe, MAX_CONTENT_INFOS);
      Ok(contents)
  }

  lemma ElementsAreBounded(encoded: Bytes, maximum: nat)
    requires SequenceElements(encoded, maximum).Fields?
    ensures |SequenceElements(encoded, maximum).items| <= maximum
  {
    SequenceWasWritten(encoded, maximum);
  }

  function Mark(certificates: seq<Certificate>, truststore: bool): (r: seq<Certificate>)
    ensures |r| == |certificates|
  {
    seq(|certificates|, i requires 0 <= i < |certificates| => certificates[i].(truststore := truststore))
  }

  function Conclude(run: Run): Parsed {
    Parsed(Mark(run.certificates, run.certificates != [] && run.keyBags == 0 && run.encrypted == []),
           run.encrypted, run.problems)
  }

  /** `parsePKCS12`. */
  function Parse(codec: Codec, data: Bytes): Parsed {
    match OpenPfx(data)
    case Err(why) => Parsed([], [], [Refused(why)])
    case Ok(contents) => Conclude(ContentsFrom(codec, contents, 0, 0))
  }

  // ------------------------------------------------------------------- detection

  /** `detectPKCS12`: a version 3 PFX whose authSafe is data or signedData. */
  function Detect(data: Bytes): bool {
    var outer := ReadHeader(data, 0, MAX_INT64);
    outer.Some? && outer.value.tag == 0x30 && DetectVersion(data, outer.value)
  }

  function DetectVersion(data: Bytes, outer: Header): bool {
    var version := ReadHeader(data, outer.content, outer.end);
    && version.Some? && version.value.tag == 0x02 && version.value.end <= |data|
    && version.value.end - version.value.content == 1 && data[version.value.content] as int == PFX_VERSION
    && var authSafe := ReadHeader(data, version.value.end, outer.end);
       authSafe.Some? && authSafe.value.tag == 0x30 && DetectAuthSafe(data, authSafe.value)
  }

  function DetectAuthSafe(data: Bytes, authSafe: Header): bool {
    var contentType := ReadHeader(data, authSafe.content, authSafe.end);
    && contentType.Some? && contentType.value.tag == 0x06 && contentType.value.end <= |data|
    && authSafe.content <= contentType.value.end
    && IsPfxType(data[authSafe.content..contentType.value.end])
    && var content := ReadHeader(data, contentType.value.end, authSafe.end);
       content.Some? && content.value.tag == 0xA0
  }

  /** `unmarshalExact` into an object identifier, compared with the two known ones. */
  predicate IsPfxType(encoded: Bytes) {
    var t := ReadWhole(encoded);
    t.Some? && RawOid(t.value).Ok? && (t.value.content == OID_DATA || t.value.content == OID_SIGNED_DATA)
  }
}
