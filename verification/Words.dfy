/** Machine words as their bits, most significant bit first.
    A word of any width is a sequence of booleans; the C++ operators `^`, `<<`, `>>`
    and the reflection routine act on it position by position.
 */
module Words {

  type Bits = seq<bool>

  function Zero(n: nat): (r: Bits)
    ensures |r| == n
  {
    seq(n, _ => false)
  }

  function Xor(a: Bits, b: Bits): (r: Bits)
    requires |a| == |b|
    ensures |r| == |a|
  {
    seq(|a|, i requires 0 <= i < |a| => a[i] != b[i])
  }

  function ShiftLeft(a: Bits, k: nat): (r: Bits)
    requires k <= |a|
  {
    a[k..] + Zero(k)
  }

  function ShiftRight(a: Bits, k: nat): (r: Bits)
    requires k <= |a|
  {
    Zero(k) + a[..|a| - k]
  }

  /** Bit i of the result is bit |a|-1-i of the argument. */
  function Reverse(a: Bits): (r: Bits)
    ensures |r| == |a|
  {
    seq(|a|, i requires 0 <= i < |a| => a[|a| - 1 - i])
  }

  /** The unsigned value of a word. */
  function Value(a: Bits): (n: nat)
    ensures n < Pow2(|a|)
  {
    if a == [] then 0
    else 2 * Value(a[..|a| - 1]) + (if a[|a| - 1] then 1 else 0)
  }

  function Pow2(n: nat): (r: nat)
    ensures r > 0
  {
    if n == 0 then 1 else 2 * Pow2(n - 1)
  }

  /** The word of a given width holding n modulo 2 to the width. */
  function Word(n: nat, width: nat): (r: Bits)
    ensures |r| == width
  {
    seq(width, i requires 0 <= i < width => n / Pow2(width - 1 - i) % 2 == 1)
  }

  lemma WordNext(n: nat, width: nat)
    requires width > 0
    ensures Word(n, width) == Word(n / 2, width - 1) + [n % 2 == 1]
  {
    var w := Word(n, width);
    forall i | 0 <= i < width - 1 ensures w[i] == Word(n / 2, width - 1)[i] {
      Halves(n, Pow2(width - 2 - i));
      assert Pow2(width - 1 - i) == 2 * Pow2(width - 2 - i);
    }
    assert Pow2(width - 1 - (width - 1)) == 1;
    QuotientIs(n, 1, n, 0);
  }

  lemma Halves(n: nat, k: nat)
    requires k > 0
    ensures n / (2 * k) == n / 2 / k
  {
    var q, r := n / 2 / k, n / 2 % k;
    assert n / 2 == q * k + r;
    QuotientIs(n, 2 * k, q, 2 * r + n % 2);
  }

  lemma QuotientIs(n: nat, d: nat, q: nat, r: nat)
    requires n == q * d + r && r < d
    ensures n / d == q
  {
    var p, s := n / d, n % d;
    assert (q - p) * d == s - r;
    if q > p {
      Multiple(q - p, d);
    } else if p > q {
      Multiple(p - q, d);
    }
  }

  lemma Multiple(a: nat, d: nat)
    requires a > 0
    ensures a * d >= d
  {}

  lemma {:induction false} WordOfValue(a: Bits)
    ensures Word(Value(a), |a|) == a
  {
    if a != [] {
      var init := a[..|a| - 1];
      WordOfValue(init);
      WordNext(Value(a), |a|);
      assert a == init + [a[|a| - 1]];
    }
  }

  lemma {:induction false} ValueOfWord(n: nat, width: nat)
    requires n < Pow2(width)
    ensures Value(Word(n, width)) == n
  {
    if width != 0 {
      ValueOfWord(n / 2, width - 1);
      WordNext(n, width);
      assert Word(n, width)[..width - 1] == Word(n / 2, width - 1);
    }
  }

  // ---- xor is the addition of a vector space ------------------------------------

  lemma XorAssoc(a: Bits, b: Bits, c: Bits)
    requires |a| == |b| == |c|
    ensures Xor(Xor(a, b), c) == Xor(a, Xor(b, c))
  {}

  lemma XorSelf(a: Bits)
    ensures Xor(a, a) == Zero(|a|)
    ensures Xor(a, Zero(|a|)) == a
    ensures Xor(Zero(|a|), a) == a
  {}

  lemma XorCancel(a: Bits, b: Bits)
    requires |a| == |b|
    ensures Xor(b, Xor(a, b)) == a
    ensures Xor(a, b) == Zero(|a|) <==> a == b
  {
    if Xor(a, b) == Zero(|a|) {
      forall i | 0 <= i < |a| ensures a[i] == b[i] {
        assert !Xor(a, b)[i];
      }
    } else if a == b {
      XorSelf(a);
    }
  }

  lemma XorRotate(a: Bits, b: Bits, c: Bits)
    requires |a| == |b| == |c|
    ensures Xor(Xor(a, b), c) == Xor(Xor(a, c), b)
  {}

  lemma ZeroSum(a: nat, b: nat)
    ensures Zero(a) + Zero(b) == Zero(a + b)
  {}

  /** Shifting left and adding bits below is dropping bits above and appending. */
  lemma EnterBelow(a: Bits, x: Bits)
    requires |x| <= |a|
    ensures Xor(ShiftLeft(a, |x|), Zero(|a| - |x|) + x) == a[|x|..] + x
  {}

  lemma XorSwap(a: Bits, b: Bits, c: Bits, d: Bits)
    requires |a| == |b| == |c| == |d|
    ensures Xor(Xor(a, b), Xor(c, d)) == Xor(Xor(a, c), Xor(b, d))
  {}

  lemma XorShiftLeft(a: Bits, b: Bits, k: nat)
    requires |a| == |b| && k <= |a|
    ensures ShiftLeft(Xor(a, b), k) == Xor(ShiftLeft(a, k), ShiftLeft(b, k))
  {}

  lemma ReverseReverse(a: Bits)
    ensures Reverse(Reverse(a)) == a
  {}

  lemma ReverseXor(a: Bits, b: Bits)
    requires |a| == |b|
    ensures Reverse(Xor(a, b)) == Xor(Reverse(a), Reverse(b))
  {}

  lemma ReverseShift(a: Bits, k: nat)
    requires k <= |a|
    ensures Reverse(ShiftLeft(a, k)) == ShiftRight(Reverse(a), k)
  {}
}
