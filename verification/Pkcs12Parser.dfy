/** The parser object of `internal/scanner/pkcs12.go`, whose counters and results its
    methods update, tied to the functions of module Pkcs12. */
module Pkcs12Parsing {
  import opened Common
  import opened Der
  import opened Pkcs12

  /** The loop of `parseFriendlyName`. */
  method ParseFriendlyName(codec: Codec, attributes: Option<Tlv>) returns (name: Result<Name>)
    ensures name == FriendlyName(codec, attributes)
  {
    if attributes.None? {
      return Ok(Unnamed);
    }
    var rest, index := attributes.value.content, 0;
    while rest != []
      invariant FriendlyName(codec, attributes) == NameFrom(codec, rest, index)
      decreases |rest|
    {
      if index >= MAX_BAG_ATTRIBUTES {
        return Err(TooManyAttributes);
      }
      var attribute := ReadTlv(rest);
      if attribute.None? {
        return Err(BadAttribute(index));
      }
      var fields := AttributeFields(attribute.value, index);
      match fields
      case Err(why) => return Err(why);
      case Ok((oid, values)) =>
        if oid == OID_FRIENDLY_NAME {
          return NameValue(codec, values);
        }
        rest, index := rest[|attribute.value.full|..], index + 1;
    }
    return Ok(Unnamed);
  }

  class Pkcs12Parser {
    const codec: Codec
    var certificates: seq<Certificate>
    var encrypted: seq<EncryptedContent>
    var problems: seq<Problem>
    var bagCount: nat
    var keyBagCount: nat

    constructor (codec: Codec)
      ensures this.codec == codec
      ensures certificates == [] && encrypted == [] && problems == [] && bagCount == 0 && keyBagCount == 0
    {
      this.codec := codec;
      certificates, encrypted, problems, bagCount, keyBagCount := [], [], [], 0, 0;
    }

    /** The parser and a method's results show what `r` says was added. */
    ghost predicate Shows(
      r: Safe, certificatesBefore: seq<Certificate>, keyBagsBefore: nat, found: seq<BagProblem>, next: nat)
      reads this
    {
      && certificates == certificatesBefore + r.certificates && bagCount == r.bagCount
      && keyBagCount == keyBagsBefore + r.keyBags && found == r.problems && next == r.chain
    }

    /** `parseSafeContents`: everything it adds is what SafeContents says. */
    method ParseSafeContents(encoded: Bytes, depth: nat, chain: nat) returns (found: seq<BagProblem>, next: nat)
      requires depth <= 17
      modifies this`certificates, this`bagCount, this`keyBagCount
      ensures Shows(SafeContents(codec, encoded, depth, chain, old(bagCount)), old(certificates), old(keyBagCount),
                    found, next)
      decreases 17 - depth, 2
    {
      if depth > MAX_SAFE_CONTENTS_DEPTH {
        return [DepthExceeded], chain;
      }
      var fields := RawSequenceElements(encoded, MAX_BAGS + 1);
      if fields.Broken? {
        return [BagList(fields.why)], chain;
      }
      found, next := ParseBags(fields.items, depth, chain);
    }

    /** The bag loop. */
    method ParseBags(bags: seq<Tlv>, depth: nat, chain: nat) returns (found: seq<BagProblem>, next: nat)
      requires depth <= MAX_SAFE_CONTENTS_DEPTH
      modifies this`certificates, this`bagCount, this`keyBagCount
      ensures Shows(Bags(codec, bags, 0, depth, chain, old(bagCount)), old(certificates), old(keyBagCount), found, next)
      decreases 17 - depth, 1
    {
      hide OneBag;
      found, next := [], chain;
      ghost var all := Bags(codec, bags, 0, depth, chain, bagCount);
      ghost var done := NoBags(chain, bagCount);
      ThenNothing(all, chain, bagCount);
      var index := 0;
      while index < |bags|
        invariant index <= |bags|
        invariant Shows(done, old(certificates), old(keyBagCount), found, next)
        invariant all == Then(done, Bags(codec, bags, index, depth, next, bagCount))
      {
        ghost var before := bagCount;
        bagCount := bagCount + 1;
        if bagCount > MAX_BAGS {
          found := found + [TooManyBags];
          return;
        }
        ghost var one := OneBag(codec, bags[index], index, depth, next, bagCount);
        ghost var rest := Bags(codec, bags, index + 1, depth, one.chain, one.bagCount);
        var more, after := ParseBag(bags[index], index, depth, next);
        assert old(certificates) + (done.certificates + one.certificates)
            == old(certificates) + done.certificates + one.certificates;
        BagsStep(codec, bags, index, depth, next, before);
        ThenFurther(done, one, rest);
        done := Then(done, one);
        found, next := found + more, after;
        index := index + 1;
      }
      assert done.certificates + [] == done.certificates && done.problems + [] == done.problems;
    }

    /** The body of the bag loop. */
    method ParseBag(encoded: Tlv, index: nat, depth: nat, chain: nat) returns (found: seq<BagProblem>, next: nat)
      requires depth <= MAX_SAFE_CONTENTS_DEPTH && 1 <= bagCount <= MAX_BAGS
      modifies this`certificates, this`bagCount, this`keyBagCount
      ensures Shows(OneBag(codec, encoded, index, depth, chain, old(bagCount)), old(certificates), old(keyBagCount),
                    found, next)
      decreases 17 - depth, 0
    {
      hide ParseSafeBag, CertBagResult, Kind;
      found, next := [], chain;
      var bag := ParseSafeBag(encoded);
      if bag.Err? {
        return [BadBag(index, bag.why)], chain;
      }
      match Kind(bag.value.id)
      case KeyBag => keyBagCount := keyBagCount + 1;
      case CertBag => found, next := ParseCertBag(bag.value, index, chain);
      case SafeContentsBag =>
        found, next := ParseSafeContents(bag.value.value.content, depth + 1, chain);
        found := if found == [] then [] else [Nested(index, found)];
      case OtherBag =>
    }

    method ParseCertBag(bag: SafeBag, index: nat, chain: nat) returns (found: seq<BagProblem>, next: nat)
      modifies this`certificates
      ensures Shows(CertBagResult(codec, bag, index, chain, bagCount), old(certificates), keyBagCount, found, next)
    {
      found, next := [], chain + 1;
      var name := ParseFriendlyName(codec, bag.attributes);
      var kept := Unnamed;
      if name.Err? {
        found := [BadName(index, name.why)];
      } else {
        kept := name.value;
      }
      var der := CertificateBag(bag.value);
      if der.Err? {
        found := found + [BadCertBag(index, der.why)];
        return;
      }
      if !codec.accepts(der.value) {
        found := found + [BadX509(index)];
        return;
      }
      certificates := certificates + [Certificate(der.value, kept, chain, false)];
    }

    /** The parser shows what a run over contents added to an empty one. */
    ghost predicate ShowsRun(r: Run)
      reads this
    {
      && certificates == r.certificates && encrypted == r.encrypted && problems == r.problems
      && bagCount == r.bagCount && keyBagCount == r.keyBags
    }

    /** The body of the content loop of `parsePKCS12`. */
    method ParseContent(encodedInfo: Tlv, index: nat)
      modifies this
      ensures
        var r := OneContent(codec, encodedInfo, index, old(bagCount));
        && certificates == old(certificates) + r.certificates && encrypted == old(encrypted) + r.encrypted
        && problems == old(problems) + r.problems && bagCount == r.bagCount
        && keyBagCount == old(keyBagCount) + r.keyBags
    {
      hide ParseContentInfo, ParseEncrypted, OctetString;
      var info := ParseContentInfo(encodedInfo);
      if info.Err? {
        problems := problems + [InContent(index, info.why)];
        return;
      }
      var (kind, value) := info.value;
      if kind == OID_DATA {
        var safe := OctetString(value.content);
        if safe.Err? {
          problems := problems + [InContent(index, safe.why)];
          return;
        }
        var inside, next := ParseSafeContents(safe.value, 0, 0);
        if inside != [] {
          problems := problems + [InSafeContents(index, inside)];
        }
      } else if kind == OID_ENCRYPTED_DATA {
        var finding := ParseEncrypted(value, index);
        if finding.Err? {
          problems := problems + [InContent(index, finding.why)];
          return;
        }
        encrypted := encrypted + [finding.value];
      } else {
        problems := problems + [InContent(index, Unsupported(kind))];
      }
    }
  }

  lemma ThenNothing(rest: Safe, chain: nat, bagCount: nat)
    ensures Then(NoBags(chain, bagCount), rest) == rest
  {
  }

  lemma ThenFurther(a: Safe, b: Safe, c: Safe)
    ensures Then(a, Then(b, c)) == Then(Then(a, b), c)
  {
  }

  lemma NextRunFurther(a: Run, b: Run, c: Run)
    ensures NextRun(a, NextRun(b, c)) == NextRun(NextRun(a, b), c)
  {
  }

  lemma NextRunNothing(rest: Run)
    ensures NextRun(Run([], [], [], 0, 0, 0), rest) == rest
  {
  }

  /** `parsePKCS12`. */
  method ParsePkcs12(codec: Codec, data: Bytes) returns (parsed: Parsed)
    ensures parsed == Parse(codec, data)
  {
    var contents := OpenPfx(data);
    if contents.Err? {
      return Parsed([], [], [Refused(contents.why)]);
    }
    var parser := ParseContents(codec, contents.value);
    var truststore := parser.certificates != [] && parser.keyBagCount == 0 && parser.encrypted == [];
    var marked := SetTruststore(parser.certificates, truststore);
    return Parsed(marked, parser.encrypted, parser.problems);
  }

  /** The content loop of `parsePKCS12`. */
  method ParseContents(codec: Codec, contents: seq<Tlv>) returns (parser: Pkcs12Parser)
    ensures parser.ShowsRun(ContentsFrom(codec, contents, 0, 0))
  {
    parser := new Pkcs12Parser(codec);
    ghost var all := ContentsFrom(codec, contents, 0, 0);
    ghost var done := Run([], [], [], 0, 0, 0);
    NextRunNothing(all);
    var index := 0;
    while index < |contents|
      invariant index <= |contents| && fresh(parser) && parser.codec == codec
      invariant parser.ShowsRun(done)
      invariant all == NextRun(done, ContentsFrom(codec, contents, index, parser.bagCount))
    {
      ghost var one := OneContent(codec, contents[index], index, parser.bagCount);
      NextRunFurther(done, one, ContentsFrom(codec, contents, index + 1, one.bagCount));
      parser.ParseContent(contents[index], index);
      done := NextRun(done, one);
      index := index + 1;
    }
    assert done.certificates + [] == done.certificates && done.encrypted + [] == done.encrypted
           && done.problems + [] == done.problems;
  }

  /** The final loop, which sets the truststore flag of every certificate. */
  method SetTruststore(unmarked: seq<Certificate>, truststore: bool) returns (certificates: seq<Certificate>)
    ensures certificates == Mark(unmarked, truststore)
  {
    certificates := unmarked;
    var index := 0;
    while index < |certificates|
      invariant index <= |certificates| == |unmarked|
      invariant forall i :: 0 <= i < index ==> certificates[i] == unmarked[i].(truststore := truststore)
      invariant forall i :: index <= i < |certificates| ==> certificates[i] == unmarked[i]
    {
      certificates := certificates[index := certificates[index].(truststore := truststore)];
      index := index + 1;
    }
  }

  /** `detectPKCS12`, header by header. */
  method DetectPkcs12(data: Bytes) returns (detected: bool)
    ensures detected == Detect(data)
  {
    var outer := ReadDerElementHeader(data, 0, MAX_INT64);
    if outer.None? || outer.value.tag != 0x30 {
      return false;
    }
    var version := ReadDerElementHeader(data, outer.value.content, outer.value.end);
    if version.None? || version.value.tag != 0x02 || version.value.end > |data|
       || version.value.end - version.value.content != 1 || data[version.value.content] as int != PFX_VERSION {
      return false;
    }
    var authSafe := ReadDerElementHeader(data, version.value.end, outer.value.end);
    if authSafe.None? || authSafe.value.tag != 0x30 {
      return false;
    }
    var contentType := ReadDerElementHeader(data, authSafe.value.content, authSafe.value.end);
    if contentType.None? || contentType.value.tag != 0x06 || contentType.value.end > |data| {
      return false;
    }
    if !IsPfxType(data[authSafe.value.content..contentType.value.end]) {
      return false;
    }
    var content := ReadDerElementHeader(data, contentType.value.end, authSafe.value.end);
    return content.Some? && content.value.tag == 0xA0;
  }
}
