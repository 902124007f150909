/** The bytes on the wire, independently of who reads them: the padding of the two formats,
    the error code, the masking, and the sample response of section 2.2 of RFC 5769.
 */
module WireFormat {
  import opened Bytes
  import opened StunFormat
  import opened StunMessage
  import opened SocketAddress
  import opened HandlerSpec
  import StunBuilder
  import W = Words
  import C = CrcSpec
  import F = Fingerprint
  import P = HandlerProofs
  import I = Integrity

  /** In the older format the announced length counts the padding, and so is a multiple of
      four; apart from the length field the attribute is the same in both formats. */
  lemma PaddingOfFormats(t: nat, data: seq<byte>)
    ensures WireValue(false, data) == data
    ensures var v := WireValue(true, data);
      |v| % 4 == 0 && |data| <= |v| < |data| + 4 && v[..|data|] == data && v[|data|..] == Zeros(|v| - |data|)
    ensures var older, newer := AttrBytes(Attr(t, WireValue(true, data))), AttrBytes(Attr(t, WireValue(false, data)));
      |older| == |newer| && older[..2] == newer[..2] && older[4..] == newer[4..]
  {
    var v := WireValue(true, data);
    I.WholeWords(Attr(t, v));
    var head := Be16(t);
    assert AttrBytes(Attr(t, v))[4..] == v;
    assert AttrBytes(Attr(t, data))[4..] == data + Zeros(Padding(|data|));
  }

  /** The value of an error code attribute: the hundreds in the third byte, the rest in the
      fourth, and then the reason. */
  lemma ErrorValueIs(code: nat, reason: seq<byte>)
    requires 300 <= code <= 600
    ensures var v := StunBuilder.ErrorValue(code, reason);
      && |v| == 4 + |reason| && v[0] == v[1] == 0 && v[4..] == reason
      && 3 <= v[2] <= 6 && v[3] < 100 && 100 * v[2] as int + v[3] as int == code
  {}

  // ---- masking ---------------------------------------------------------------------------

  /** Bit by bit the mask changes just where it is one. */
  lemma XorByteIs(a: byte, b: byte, i: nat)
    requires i < 8
    ensures W.Word(XorByte(a, b), 8)[i] == (W.Word(a, 8)[i] != W.Word(b, 8)[i])
  {
    W.WordOfValue(W.Xor(W.Word(a, 8), W.Word(b, 8)));
  }

  /** A byte from the bits of its two hexadecimal digits. */
  lemma WordIs(a: byte, w: W.Bits)
    requires |w| == 8 && a == 16 * Digit(w, 0) + Digit(w, 4)
    ensures W.Word(a, 8) == w && W.Value(w) == a
  {
    ByteOfBits(w);
    W.WordOfValue(w);
  }

  function Bit(a: W.Bits, i: nat): nat
    requires i < |a|
  {
    if a[i] then 1 else 0
  }

  function Digit(a: W.Bits, i: nat): nat
    requires i + 4 <= |a|
  {
    Bit(a, i) * 8 + Bit(a, i + 1) * 4 + Bit(a, i + 2) * 2 + Bit(a, i + 3)
  }

  lemma ByteOfBits(a: W.Bits)
    requires |a| == 8
    ensures W.Value(a) == 16 * Digit(a, 0) + Digit(a, 4)
  {
    ValueOfFour(a, 0);
    ValueOfFour(a, 4);
    assert a[..8] == a && a[..0] == [];
  }

  lemma ValueOfFour(a: W.Bits, n: nat)
    requires n + 4 <= |a|
    ensures W.Value(a[..n + 4]) == 16 * W.Value(a[..n]) + Digit(a, n)
  {
    ValueOfNext(a, n);
    ValueOfNext(a, n + 1);
    ValueOfNext(a, n + 2);
    ValueOfNext(a, n + 3);
  }

  lemma ValueOfNext(a: W.Bits, n: nat)
    requires n < |a|
    ensures W.Value(a[..n + 1]) == 2 * W.Value(a[..n]) + Bit(a, n)
  {
    assert a[..n + 1][..n] == a[..n];
  }

  lemma Masks(a: byte, b: byte, r: byte, x: W.Bits, y: W.Bits)
    requires W.Word(a, 8) == x && W.Word(b, 8) == y && W.Value(W.Xor(x, y)) == r
    ensures XorByte(a, b) == r
  {}

  // ---- the fingerprint ---------------------------------------------------------------------

  /** One more byte of a word. */
  lemma ValueOfByte(w: W.Bits, n: nat)
    requires n + 8 <= |w|
    ensures W.Value(w[..n + 8]) == 256 * W.Value(w[..n]) + W.Value(w[n..n + 8])
    ensures W.Value(w[n..n + 8]) < 256
  {
    ValueOfFour(w, n);
    ValueOfFour(w, n + 4);
    var x := w[n..n + 8];
    ByteOfBits(x);
    assert Digit(x, 0) == Digit(w, n) && Digit(x, 4) == Digit(w, n + 4);
  }

  /** The bytes of a word of 32 bits, the high one first. */
  lemma BytesOfWord(w: W.Bits)
    requires |w| == 32
    ensures Be32(W.Value(w)) == [W.Value(w[0..8]), W.Value(w[8..16]), W.Value(w[16..24]), W.Value(w[24..32])]
  {
    ValueOfBytes(w);
    FourBytes(W.Value(w), W.Value(w[0..8]), W.Value(w[8..16]), W.Value(w[16..24]), W.Value(w[24..32]));
  }

  lemma ValueOfBytes(w: W.Bits)
    requires |w| == 32
    ensures W.Value(w[0..8]) < 256 && W.Value(w[8..16]) < 256 && W.Value(w[16..24]) < 256 && W.Value(w[24..32]) < 256
    ensures W.Value(w)
         == 256 * (256 * (256 * W.Value(w[0..8]) + W.Value(w[8..16])) + W.Value(w[16..24])) + W.Value(w[24..32])
  {
    FourSlices(w);
    ValueOfFourBytes(w[0..8], w[8..16], w[16..24], w[24..32]);
  }

  lemma ValueOfFourBytes(a: W.Bits, b: W.Bits, c: W.Bits, d: W.Bits)
    requires |a| == |b| == |c| == |d| == 8
    ensures W.Value(a) < 256 && W.Value(b) < 256 && W.Value(c) < 256 && W.Value(d) < 256
    ensures W.Value(a + b + c + d) == 256 * (256 * (256 * W.Value(a) + W.Value(b)) + W.Value(c)) + W.Value(d)
  {
    assert W.Pow2(8) == 256;
    ValueJoin(a, b);
    ValueJoin(a + b, c);
    ValueJoin(a + b + c, d);
  }

  lemma ValueJoin(a: W.Bits, x: W.Bits)
    requires |x| == 8
    ensures W.Value(a + x) == 256 * W.Value(a) + W.Value(x)
  {
    var w := a + x;
    ValueOfByte(w, |a|);
    assert w[..|a| + 8] == w && w[..|a|] == a && w[|a|..|a| + 8] == x;
  }

  lemma FourBytes(n: nat, a: nat, b: nat, c: nat, d: nat)
    requires a < 256 && b < 256 && c < 256 && d < 256 && n == 256 * (256 * (256 * a + b) + c) + d
    ensures Be32(n) == [a, b, c, d]
  {
    LowHalf(256 * a + b, 256 * c + d);
    U16Bytes(a, b);
    U16Bytes(c, d);
  }

  lemma U16Bytes(a: nat, b: nat)
    requires a < 256 && b < 256
    ensures Be16(256 * a + b) == [a, b]
  {}

  /** The four bytes of a number are the bytes of its word. */
  lemma WordOfBytes(n: nat, a: byte, b: byte, c: byte, d: byte)
    requires n < 0x1_0000_0000 && Be32(n) == [a, b, c, d]
    ensures W.Word(n, 32) == W.Word(a, 8) + W.Word(b, 8) + W.Word(c, 8) + W.Word(d, 8)
  {
    var w := W.Word(n, 32);
    F.Pow32();
    W.ValueOfWord(n, 32);
    BytesOfWord(w);
    W.WordOfValue(w[0..8]);
    W.WordOfValue(w[8..16]);
    W.WordOfValue(w[16..24]);
    W.WordOfValue(w[24..32]);
    FourSlices(w);
  }

  lemma FourSlices(w: W.Bits)
    requires |w| == 32
    ensures w == w[0..8] + w[8..16] + w[16..24] + w[24..32]
  {}

  /** The generator of CRC-32 is that of IEEE 802.3: x^32 + x^26 + x^23 + x^22 + x^16 + x^12
      + x^11 + x^10 + x^8 + x^7 + x^5 + x^4 + x^2 + x + 1, here from x^31 down. */
  lemma CrcGenerator()
    ensures F.Crc32().poly
         == [false, false, false, false, false, true, false, false]
          + [true, true, false, false, false, false, false, true]
          + [false, false, false, true, true, true, false, true]
          + [true, false, true, true, false, true, true, true]
  {
    var a: W.Bits := [false, false, false, false, false, true, false, false];
    var b: W.Bits := [true, true, false, false, false, false, false, true];
    var c: W.Bits := [false, false, false, true, true, true, false, true];
    var d: W.Bits := [true, false, true, true, false, true, true, true];
    WordIs(0x04, a);
    WordIs(0xC1, b);
    WordIs(0x1D, c);
    WordIs(0xB7, d);
    PolyIs(a, b, c, d);
  }

  lemma PolyIs(a: W.Bits, b: W.Bits, c: W.Bits, d: W.Bits)
    requires W.Word(0x04, 8) == a && W.Word(0xC1, 8) == b && W.Word(0x1D, 8) == c && W.Word(0xB7, 8) == d
    ensures F.Crc32().poly == a + b + c + d
  {
    assert Be32(0x04C11DB7) == [0x04, 0xC1, 0x1D, 0xB7];
    WordOfBytes(0x04C11DB7, 0x04, 0xC1, 0x1D, 0xB7);
  }

  /** Register and sum are complemented: both masks are all ones, and bits are reflected. */
  lemma CrcComplements()
    ensures forall k :: 0 <= k < 32 ==> F.Crc32().init[k] && F.Crc32().final[k]
    ensures F.Crc32().reflectIn && F.Crc32().reflectRem
  {
    var ones := [true, true, true, true, true, true, true, true];
    WordIs(0xFF, ones);
    assert Be32(0xFFFFFFFF) == [0xFF, 0xFF, 0xFF, 0xFF];
    WordOfBytes(0xFFFFFFFF, 0xFF, 0xFF, 0xFF, 0xFF);
  }

  lemma SliceXor(a: W.Bits, b: W.Bits, i: nat, j: nat)
    requires |a| == |b| && i <= j <= |a|
    ensures W.Xor(a, b)[i..j] == W.Xor(a[i..j], b[i..j])
  {}

  lemma UnmaskByte(x: W.Bits, y: W.Bits)
    requires |x| == |y| == 8
    ensures W.Value(x) < 256 && W.Value(y) < 256 && W.Value(W.Xor(x, y)) < 256
    ensures XorByte(W.Value(W.Xor(x, y)), W.Value(y)) == W.Value(x)
  {
    assert W.Pow2(8) == 256;
    W.WordOfValue(W.Xor(x, y));
    W.WordOfValue(y);
    W.XorAssoc(x, y, y);
    W.XorSelf(y);
    W.XorSelf(x);
  }

  /** The fingerprint is the CRC-32 of the message, masked with the letters STUN. */
  lemma FingerprintUnmasked(s: seq<byte>)
    ensures XorBytes(F.FingerprintOf(s), [0x53, 0x54, 0x55, 0x4e])
         == Be32(W.Value(C.Checksum(F.Crc32(), F.Octets(s))))
  {
    var sum, mask := C.Checksum(F.Crc32(), F.Octets(s)), W.Word(0x5354554e, 32);
    MaskBytes(mask);
    UnmaskWord(sum, mask);
  }

  lemma MaskBytes(mask: W.Bits)
    requires mask == W.Word(0x5354554e, 32)
    ensures Be32(W.Value(mask)) == [0x53, 0x54, 0x55, 0x4e]
  {
    F.Pow32();
    W.ValueOfWord(0x5354554e, 32);
  }

  lemma UnmaskWord(x: W.Bits, y: W.Bits)
    requires |x| == |y| == 32
    ensures XorBytes(Be32(W.Value(W.Xor(x, y))), Be32(W.Value(y))) == Be32(W.Value(x))
  {
    BytesOfWord(x);
    BytesOfWord(y);
    BytesOfWord(W.Xor(x, y));
    SliceXor(x, y, 0, 8);
    SliceXor(x, y, 8, 16);
    SliceXor(x, y, 16, 24);
    SliceXor(x, y, 24, 32);
    UnmaskByte(x[0..8], y[0..8]);
    UnmaskByte(x[8..16], y[8..16]);
    UnmaskByte(x[16..24], y[16..24]);
    UnmaskByte(x[24..32], y[24..32]);
  }

  // ---- a sample ----------------------------------------------------------------------------

  const SAMPLE_ID: seq<byte> :=
    [0x21, 0x12, 0xa4, 0x42, 0xb7, 0xe7, 0xa7, 0x01, 0xbc, 0x34, 0xd6, 0x86, 0xfa, 0x87, 0xdf, 0xae]

  /** Port 32853 at 192.0.2.1. */
  const SAMPLE_ADDRESS := Address(IPv4, [0x80, 0x55], [192, 0, 2, 1])

  lemma SampleMasked()
    ensures SAMPLE_ADDRESS.GetPort() == 32853
    ensures AddressValue(SAMPLE_ADDRESS.XorMap(SAMPLE_ID)) == [0x00, 0x01, 0xa1, 0x47, 0xe1, 0x12, 0xa6, 0x43]
    ensures SAMPLE_ADDRESS.XorMap(SAMPLE_ID).Valid()
  {
    PortHigh();
    PortLow();
    IpFirst();
    IpSecond();
    IpThird();
    IpFourth();
    var a := SAMPLE_ADDRESS.XorMap(SAMPLE_ID);
    assert a.port == [0xa1, 0x47];
    assert a.ip == [0xe1, 0x12, 0xa6, 0x43];
  }

  lemma PortHigh()
    ensures XorByte(0x80, 0x21) == 0xa1
  {
    var x := [true, false, false, false, false, false, false, false];
    var y := [false, false, true, false, false, false, false, true];
    var z := [true, false, true, false, false, false, false, true];
    WordIs(0x80, x);
    WordIs(0x21, y);
    WordIs(0xa1, z);
    assert W.Xor(x, y) == z;
    Masks(0x80, 0x21, 0xa1, x, y);
  }

  lemma PortLow()
    ensures XorByte(0x55, 0x12) == 0x47
  {
    var x := [false, true, false, true, false, true, false, true];
    var y := [false, false, false, true, false, false, true, false];
    var z := [false, true, false, false, false, true, true, true];
    WordIs(0x55, x);
    WordIs(0x12, y);
    WordIs(0x47, z);
    assert W.Xor(x, y) == z;
    Masks(0x55, 0x12, 0x47, x, y);
  }

  lemma IpFirst()
    ensures XorByte(192, 0x21) == 0xe1
  {
    var x := [true, true, false, false, false, false, false, false];
    var y := [false, false, true, false, false, false, false, true];
    var z := [true, true, true, false, false, false, false, true];
    WordIs(192, x);
    WordIs(0x21, y);
    WordIs(0xe1, z);
    assert W.Xor(x, y) == z;
    Masks(192, 0x21, 0xe1, x, y);
  }

  lemma IpSecond()
    ensures XorByte(0, 0x12) == 0x12
  {
    var x := [false, false, false, false, false, false, false, false];
    var y := [false, false, false, true, false, false, true, false];
    var z := [false, false, false, true, false, false, true, false];
    WordIs(0, x);
    WordIs(0x12, y);
    WordIs(0x12, z);
    assert W.Xor(x, y) == z;
    Masks(0, 0x12, 0x12, x, y);
  }

  lemma IpThird()
    ensures XorByte(2, 0xa4) == 0xa6
  {
    var x := [false, false, false, false, false, false, true, false];
    var y := [true, false, true, false, false, true, false, false];
    var z := [true, false, true, false, false, true, true, false];
    WordIs(2, x);
    WordIs(0xa4, y);
    WordIs(0xa6, z);
    assert W.Xor(x, y) == z;
    Masks(2, 0xa4, 0xa6, x, y);
  }

  lemma IpFourth()
    ensures XorByte(1, 0x42) == 0x43
  {
    var x := [false, false, false, false, false, false, false, true];
    var y := [false, true, false, false, false, false, true, false];
    var z := [false, true, false, false, false, false, true, true];
    WordIs(1, x);
    WordIs(0x42, y);
    WordIs(0x43, z);
    assert W.Xor(x, y) == z;
    Masks(1, 0x42, 0x43, x, y);
  }

  /** The sample response as far as the address: header, transaction id, masked address. */
  lemma SampleResponse()
    ensures SAMPLE_ADDRESS.XorMap(SAMPLE_ID).Valid()
    ensures Finished(Message(1, 2, SAMPLE_ID, [Attr(XORMAPPEDADDRESS, AddressValue(SAMPLE_ADDRESS.XorMap(SAMPLE_ID)))]))
         == [0x01, 0x01, 0x00, 0x0c] + SAMPLE_ID
            + [0x00, 0x20, 0x00, 0x08, 0x00, 0x01, 0xa1, 0x47, 0xe1, 0x12, 0xa6, 0x43]
  {
    SampleMasked();
    var v := AddressValue(SAMPLE_ADDRESS.XorMap(SAMPLE_ID));
    var m := Message(1, 2, SAMPLE_ID, [Attr(XORMAPPEDADDRESS, v)]);
    P.BodyOne(m.attrs[0]);
    I.WholeWords(m.attrs[0]);
    assert Be16(XORMAPPEDADDRESS) == [0x00, 0x20] && Be16(8) == [0x00, 0x08];
    assert AttrBytes(m.attrs[0]) == [0x00, 0x20, 0x00, 0x08, 0x00, 0x01, 0xa1, 0x47, 0xe1, 0x12, 0xa6, 0x43];
    assert TypeField(1, 2) == 0x0101;
    assert Be16(0x0101) + Be16(12) == [0x01, 0x01, 0x00, 0x0c];
  }
}
