/** The object identifiers of RFC 7292 and PKCS#9 by their arcs, and which bags hold key
    material (section 4.2 of RFC 7292). */
module Pkcs12Identifiers {
  import opened Common
  import opened Der
  import opened Pkcs12

  /** An arc in base 128, all octets but the last with the high bit set (section 8.19 of
      ITU-T X.690). */
  function ArcHigh(n: nat): Bytes {
    if n == 0 then [] else ArcHigh(n / 0x80) + [0x80 + n % 0x80]
  }

  function Arc(n: nat): Bytes {
    ArcHigh(n / 0x80) + [n % 0x80]
  }

  function Arcs(arcs: seq<nat>): Bytes {
    if arcs == [] then [] else Arc(arcs[0]) + Arcs(arcs[1..])
  }

  /** The first two arcs share an octet. */
  function Identifier(arcs: seq<nat>): Bytes
    requires |arcs| >= 2
  {
    Arc(40 * arcs[0] + arcs[1]) + Arcs(arcs[2..])
  }

  const RSA: seq<nat> := [1, 2, 840, 113549, 1]

  /** pkcs-12 10 1: the bag types. */
  function BagIdentifier(n: nat): Bytes {
    Identifier(RSA + [12, 10, 1, n])
  }

  /** The bags with key material, by the names RFC 7292 gives them. */
  datatype KeyKind = PlainKey | ShroudedKey | Secret

  function KeyIdentifier(kind: KeyKind): Bytes {
    match kind
    case PlainKey => BagIdentifier(1)
    case ShroudedKey => BagIdentifier(2)
    case Secret => BagIdentifier(5)
  }

  predicate IsKeyIdentifier(id: Bytes) {
    id == BagIdentifier(1) || id == BagIdentifier(2) || id == BagIdentifier(5)
  }

  /** None of the bag types the parser knows. */
  predicate IsUnknownIdentifier(id: Bytes) {
    !IsKeyIdentifier(id) && id != BagIdentifier(3) && id != BagIdentifier(6)
  }

  lemma SmallArc(n: nat)
    requires n < 0x80
    ensures Arc(n) == [n]
  {
  }

  lemma ArcsStart(a: nat, rest: seq<nat>)
    ensures Arcs([a] + rest) == Arc(a) + Arcs(rest)
  {
    assert ([a] + rest)[1..] == rest;
  }

  lemma {:induction false} SmallArcsAre(arcs: seq<nat>)
    requires forall i :: 0 <= i < |arcs| ==> arcs[i] < 0x80
    ensures Arcs(arcs) == seq(|arcs|, i requires 0 <= i < |arcs| => arcs[i] as byte)
  {
    if arcs != [] {
      SmallArc(arcs[0]);
      SmallArcsAre(arcs[1..]);
      assert arcs == [arcs[0]] + arcs[1..];
    }
  }

  lemma RsaArcs()
    ensures Arc(42) == [0x2A] && Arc(840) == [0x86, 0x48] && Arc(113549) == [0x86, 0xF7, 0x0D]
  {
    assert ArcHigh(0) == [];
    assert ArcHigh(6) == ArcHigh(0) + [0x86];
    assert ArcHigh(887) == ArcHigh(6) + [0xF7];
  }

  /** An identifier under 1.2.840.113549.1 by its further arcs, none above 127. */
  lemma UnderRsa(rest: seq<nat>)
    requires forall i :: 0 <= i < |rest| ==> rest[i] < 0x80
    ensures Identifier(RSA + rest) ==
            [0x2A, 0x86, 0x48, 0x86, 0xF7, 0x0D, 0x01] + seq(|rest|, i requires 0 <= i < |rest| => rest[i] as byte)
  {
    hide Arc;
    RsaArcs();
    SmallArc(1);
    SmallArcsAre(rest);
    assert (RSA + rest)[2..] == [840] + ([113549] + ([1] + rest));
    ArcsStart(840, [113549] + ([1] + rest));
    ArcsStart(113549, [1] + rest);
    ArcsStart(1, rest);
    assert [0x2A] + ([0x86, 0x48] + ([0x86, 0xF7, 0x0D] + ([0x01] + Arcs(rest))))
        == [0x2A, 0x86, 0x48, 0x86, 0xF7, 0x0D, 0x01] + Arcs(rest);
  }

  lemma BagIdentifierIs(n: nat)
    requires n < 0x80
    ensures BagIdentifier(n) == [0x2A, 0x86, 0x48, 0x86, 0xF7, 0x0D, 0x01, 0x0C, 0x0A, 0x01, n]
  {
    UnderRsa([12, 10, 1, n]);
    assert seq(4, i requires 0 <= i < 4 => [12, 10, 1, n][i] as byte) == [0x0C, 0x0A, 0x01, n];
  }

  lemma IdentifierUnder(rest: seq<nat>, octets: Bytes)
    requires |rest| == |octets| && forall i :: 0 <= i < |rest| ==> rest[i] == octets[i] as int < 0x80
    ensures Identifier(RSA + rest) == [0x2A, 0x86, 0x48, 0x86, 0xF7, 0x0D, 0x01] + octets
  {
    UnderRsa(rest);
    assert seq(|rest|, i requires 0 <= i < |rest| => rest[i] as byte) == octets;
  }

  /** The identifiers the parser compares with are those of pkcs-7, pkcs-9 and pkcs-12. */
  lemma IdentifiersAreTheirArcs()
    ensures OID_DATA == Identifier(RSA + [7, 1]) && OID_SIGNED_DATA == Identifier(RSA + [7, 2])
    ensures OID_ENCRYPTED_DATA == Identifier(RSA + [7, 6])
    ensures OID_X509_CERTIFICATE == Identifier(RSA + [9, 22, 1]) && OID_FRIENDLY_NAME == Identifier(RSA + [9, 20])
    ensures OID_CERT_BAG == BagIdentifier(3) && OID_SAFE_CONTENTS_BAG == BagIdentifier(6)
  {
    hide Identifier;
    IdentifierUnder([7, 1], [7, 1]);
    IdentifierUnder([7, 2], [7, 2]);
    IdentifierUnder([7, 6], [7, 6]);
    IdentifierUnder([9, 22, 1], [9, 22, 1]);
    IdentifierUnder([9, 20], [9, 20]);
    BagIdentifierIs(3);
    BagIdentifierIs(6);
  }

  /** Which bags count as keys, which are certBags and which are opened. */
  lemma KindsAreTheirArcs(id: Bytes)
    ensures Kind(id) == KeyBag <==> IsKeyIdentifier(id)
    ensures Kind(id) == CertBag <==> id == BagIdentifier(3)
    ensures Kind(id) == SafeContentsBag <==> id == BagIdentifier(6)
    ensures Kind(id) == OtherBag <==> IsUnknownIdentifier(id)
  {
    hide BagIdentifier;
    BagIdentifierIs(1);
    BagIdentifierIs(2);
    BagIdentifierIs(3);
    BagIdentifierIs(5);
    BagIdentifierIs(6);
  }
}
