/** The distinguished encoding of a SHA-256 DigestInfo (section 9.2 and appendix A.2.4 of RFC 3447). */
module Der {
  import opened Words
  import opened Rsa

  const SEQUENCE: Byte := 0x30
  const OBJECT_IDENTIFIER: Byte := 0x06
  const NULL: Byte := 0x05
  const OCTET_STRING: Byte := 0x04

  /** Type, length and contents, for short contents. */
  function Encoded(kind: Byte, contents: seq<Byte>): seq<Byte>
    requires |contents| < 0x80
  {
    [kind, |contents|] + contents
  }

  /** A number in base 128, with the top bit set in all bytes but the last. */
  function Base128(n: nat): seq<Byte> { Leading(n / 0x80) + [n % 0x80] }

  function Leading(n: nat): seq<Byte> { if n == 0 then [] else Leading(n / 0x80) + [0x80 + n % 0x80] }

  function Arcs(arcs: seq<nat>): seq<Byte> {
    if arcs == [] then [] else Base128(arcs[0]) + Arcs(arcs[1..])
  }

  /** The contents of an object identifier: its first two arcs share a number. */
  function Identifier(first: nat, second: nat, arcs: seq<nat>): seq<Byte> { Arcs([40 * first + second] + arcs) }

  /** The identifier of SHA-256, 2.16.840.1.101.3.4.2.1. */
  function Sha256Identifier(): seq<Byte> { Identifier(2, 16, [840, 1, 101, 3, 4, 2, 1]) }

  lemma {:induction false} ArcsStep(a: nat, arcs: seq<nat>)
    ensures Arcs([a] + arcs) == Base128(a) + Arcs(arcs)
  {
    assert ([a] + arcs)[1..] == arcs;
  }

  lemma {:induction false} SmallArc(a: nat)
    requires a < 0x80
    ensures Base128(a) == [a]
  {
  }

  lemma {:induction false} TwoByteArc(a: nat)
    requires 0x80 <= a < 0x4000
    ensures Base128(a) == [0x80 + a / 0x80, a % 0x80]
  {
    assert a / 0x80 / 0x80 == 0 && a / 0x80 % 0x80 == a / 0x80;
    assert Leading(a / 0x80 / 0x80) == [];
  }

  lemma {:induction false} SmallArcs(arcs: seq<nat>)
    requires forall k :: 0 <= k < |arcs| ==> arcs[k] < 0x80
    ensures |Arcs(arcs)| == |arcs| && forall k :: 0 <= k < |arcs| ==> Arcs(arcs)[k] == arcs[k]
  {
    if arcs != [] {
      SmallArc(arcs[0]);
      SmallArcs(arcs[1..]);
    }
  }

  lemma {:induction false} Sha256IdentifierBytes()
    ensures Sha256Identifier() == [0x60, 0x86, 0x48, 0x01, 0x65, 0x03, 0x04, 0x02, 0x01]
  {
    var rest: seq<nat> := [1, 101, 3, 4, 2, 1];
    SmallArcs(rest);
    SmallArc(96);
    TwoByteArc(840);
    ArcsStep(840, rest);
    ArcsStep(96, [840] + rest);
    assert [840, 1, 101, 3, 4, 2, 1] == [840] + rest;
  }

  /** An encoded message is 00 01, at least eight octets ff, 00, and the DigestInfo. */
  lemma EncodedMessageOctets(digest: seq<Byte>, len: nat)
    requires |digest| == SHA256_DIGEST_SIZE && len >= |DigestInfo(digest)| + 11
    ensures var em, ps := EmsaPkcs1(digest, len), len - 51 - 3;
            && |em| == len && ps >= 8 && em[0] == 0x00 && em[1] == 0x01
            && (forall k :: 2 <= k < 2 + ps ==> em[k] == 0xff) && em[2 + ps] == 0x00
            && em[3 + ps..] == DigestInfo(digest)
  {
  }

  /** What the signature encodes is a sequence of the algorithm, SHA-256 without parameters, and the digest. */
  lemma DigestInfoIsDer(digest: seq<Byte>)
    requires |digest| == SHA256_DIGEST_SIZE
    ensures |Sha256Identifier()| == 9
    ensures var algorithm := Encoded(OBJECT_IDENTIFIER, Sha256Identifier()) + Encoded(NULL, []);
            DigestInfo(digest) == Encoded(SEQUENCE, Encoded(SEQUENCE, algorithm) + Encoded(OCTET_STRING, digest))
  {
    Sha256IdentifierBytes();
  }
}
