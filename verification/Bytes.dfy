/** Bytes and the big-endian integers made of them. */
module Bytes {
  import W = Words

  type byte = x: int | 0 <= x < 256

  function Zeros(n: nat): (r: seq<byte>)
    ensures |r| == n && forall i :: 0 <= i < n ==> r[i] == 0
  {
    seq(n, _ => 0)
  }

  /** htons: the high byte first; the argument is truncated to sixteen bits. */
  function Be16(n: nat): (r: seq<byte>)
    ensures |r| == 2
  {
    [n / 0x100 % 0x100, n % 0x100]
  }

  /** ntohs of the two bytes at a position. */
  function U16(s: seq<byte>, i: nat): (n: nat)
    requires i + 2 <= |s|
    ensures n < 0x1_0000
  {
    s[i] as int * 0x100 + s[i + 1]
  }

  function Be32(n: nat): (r: seq<byte>)
    ensures |r| == 4
  {
    Be16(n / 0x1_0000) + Be16(n)
  }

  function U32(s: seq<byte>, i: nat): (n: nat)
    requires i + 4 <= |s|
    ensures n < 0x1_0000_0000
  {
    U16(s, i) * 0x1_0000 + U16(s, i + 2)
  }

  lemma U16Be16(n: nat)
    requires n < 0x1_0000
    ensures U16(Be16(n), 0) == n
  {}

  lemma Be16U16(s: seq<byte>, i: nat)
    requires i + 2 <= |s|
    ensures Be16(U16(s, i)) == s[i..i + 2]
  {}

  lemma U32Be32(n: nat)
    requires n < 0x1_0000_0000
    ensures U32(Be32(n), 0) == n
  {
    U16Be16(n / 0x1_0000);
    U16Be16(n % 0x1_0000);
    assert n / 0x100 % 0x100 == n % 0x1_0000 / 0x100;
    assert U16(Be32(n), 2) == n % 0x1_0000;
  }

  /** The two halves of a 32-bit number. */
  lemma LowHalf(h: nat, l: nat)
    requires l < 0x1_0000
    ensures (h * 0x1_0000 + l) / 0x1_0000 == h
    ensures Be16(h * 0x1_0000 + l) == Be16(l)
  {
    var n, a, b := h * 0x1_0000 + l, l / 0x100, l % 0x100;
    assert n == (h * 0x100 + a) * 0x100 + b;
    assert n / 0x100 == h * 0x100 + a;
  }

  lemma Be32U32(s: seq<byte>, i: nat)
    requires i + 4 <= |s|
    ensures Be32(U32(s, i)) == s[i..i + 4]
  {
    Be16U16(s, i);
    Be16U16(s, i + 2);
    LowHalf(U16(s, i), U16(s, i + 2));
    assert s[i..i + 4] == s[i..i + 2] + s[i + 2..i + 4];
  }

  /** Reading at a position sees only the two bytes there. */
  lemma U16At(a: seq<byte>, i: nat, b: seq<byte>, j: nat)
    requires i + 2 <= |a| && j + 2 <= |b|
    requires a[i..i + 2] == b[j..j + 2]
    ensures U16(a, i) == U16(b, j)
  {
    assert a[i] == a[i..i + 2][0] && a[i + 1] == a[i..i + 2][1];
    assert b[j] == b[j..j + 2][0] && b[j + 1] == b[j..j + 2][1];
  }

  lemma SliceOfSlice(s: seq<byte>, a: nat, b: nat, i: nat, j: nat)
    requires a <= b <= |s| && i <= j <= b - a
    ensures s[a..b][i..j] == s[a + i..a + j]
  {
    forall k | 0 <= k < j - i ensures s[a..b][i..j][k] == s[a + i..a + j][k] {
      assert s[a..b][i + k] == s[a + i + k];
    }
  }

  /** Where two runs of bytes are one after the other, each of them is. */
  lemma Halves(s: seq<byte>, at: nat, a: seq<byte>, b: seq<byte>)
    requires at + |a + b| <= |s| && s[at..at + |a + b|] == a + b
    ensures s[at..at + |a|] == a && s[at + |a|..at + |a| + |b|] == b
  {
    SliceOfSlice(s, at, at + |a + b|, 0, |a|);
    SliceOfSlice(s, at, at + |a + b|, |a|, |a + b|);
  }

  /** The exclusive or of two bytes. */
  function XorByte(a: byte, b: byte): byte {
    assert W.Pow2(8) == 256;
    W.Value(W.Xor(W.Word(a, 8), W.Word(b, 8)))
  }

  lemma XorByteTwice(a: byte, b: byte)
    ensures XorByte(XorByte(a, b), b) == a
  {
    assert W.Pow2(8) == 256;
    var x, y := W.Word(a, 8), W.Word(b, 8);
    W.WordOfValue(W.Xor(x, y));
    W.XorAssoc(x, y, y);
    W.XorSelf(y);
    W.XorSelf(x);
    W.ValueOfWord(a, 8);
  }

  /** Exclusive or with the leading bytes of a mask. */
  function XorBytes(s: seq<byte>, mask: seq<byte>): (r: seq<byte>)
    requires |s| <= |mask|
    ensures |r| == |s|
  {
    seq(|s|, i requires 0 <= i < |s| => XorByte(s[i], mask[i]))
  }

  lemma XorBytesTwice(s: seq<byte>, mask: seq<byte>)
    requires |s| <= |mask|
    ensures XorBytes(XorBytes(s, mask), mask) == s
  {
    forall i | 0 <= i < |s| ensures XorByte(XorByte(s[i], mask[i]), mask[i]) == s[i] {
      XorByteTwice(s[i], mask[i]);
    }
  }
}
