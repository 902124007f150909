/** The FINGERPRINT value (RFC 5389 section 15.5) computed with the CRC-32 engine. */
module Fingerprint {
  import opened Bytes
  import opened Words
  import opened CrcSpec
  import opened CrcEngine
  import StunMessage

  const FINGERPRINT_XOR := 0x5354554e

  /** boost::crc_32_type. */
  function Crc32(): Params {
    Params(Word(0x04C11DB7, 32), Word(0xFFFFFFFF, 32), Word(0xFFFFFFFF, 32), true, true)
  }

  function Octets(s: seq<byte>): (r: seq<Octet>)
    ensures |r| == |s|
    ensures forall i :: 0 <= i < |s| ==> r[i] == Word(s[i], 8)
  {
    seq(|s|, i requires 0 <= i < |s| => Word(s[i], 8))
  }

  /** The checksum as a number, exclusive-ored with the constant. */
  function FingerprintNumber(s: seq<byte>): (n: nat)
    ensures n < Pow2(32)
  {
    Value(Xor(Checksum(Crc32(), Octets(s)), Word(FINGERPRINT_XOR, 32)))
  }

  function FingerprintOf(s: seq<byte>): StunMessage.Checksum {
    Be32(FingerprintNumber(s))
  }

  /** The checksum function of this setting is the CRC-32 that the code computes. */
  ghost predicate UsesCrc(c: StunMessage.Crypto) {
    forall s {:trigger FingerprintOf(s)} :: c.fingerprint(s) == FingerprintOf(s)
  }

  type CrcCrypto = c: StunMessage.Crypto | UsesCrc(c)
    ghost witness StunMessage.Crypto((k, s) => Zeros(20), s => Zeros(16), s => FingerprintOf(s))

  method ComputeNumber(s: seq<byte>) returns (n: nat)
    ensures n == FingerprintNumber(s)
  {
    var p := Crc32();
    var lookup := new CrcTable(p.poly, p.reflectIn);
    var sum := OptimalCrc(p, lookup, Octets(s));
    n := Value(Xor(sum, Word(FINGERPRINT_XOR, 32)));
  }

  /** The number whose bytes, the high one first, are the fingerprint. */
  method ComputeFingerprint(ghost c: CrcCrypto, s: seq<byte>) returns (n: nat)
    ensures n < 0x1_0000_0000 && Be32(n) == c.fingerprint(s)
  {
    n := ComputeNumber(s);
    Pow32();
    assert Be32(n) == FingerprintOf(s);
  }

  lemma Pow32()
    ensures Pow2(32) == 0x1_0000_0000
  {
    assert Pow2(8) == 0x100;
    assert Pow2(16) == 0x1_0000;
    assert Pow2(24) == 0x100_0000;
  }

  /** The comparison of the reader: of the two as numbers. */
  method SameFingerprint(ghost c: CrcCrypto, v: seq<byte>, s: seq<byte>) returns (same: bool)
    requires |v| == 4
    ensures same <==> v == c.fingerprint(s)
  {
    var computedValue := ComputeFingerprint(c, s);
    CompareNumbers(v, computedValue);
    same := U32(v, 0) == computedValue;
  }

  /** Comparing the number read is comparing the bytes. */
  lemma CompareNumbers(v: seq<byte>, n: nat)
    requires |v| == 4 && n < 0x1_0000_0000
    ensures U32(v, 0) == n <==> v == Be32(n)
  {
    U32Be32(n);
    Be32U32(v, 0);
    assert v[0..4] == v;
  }
}
