/** What a cyclic redundancy check computes: the bit-serial register, its algebra, the
    byte-at-a-time recurrences, and the polynomial remainder all of them agree on.
 */
module CrcSpec {
  import opened Words

  type Octet = b: Bits | |b| == 8 witness Zero(8)

  datatype Params = Params(poly: Bits, init: Bits, final: Bits, reflectIn: bool, reflectRem: bool)
  {
    ghost predicate Valid() {
      |poly| == |init| == |final| && |poly| >= 8
    }
  }

  // ---- the bit-serial register ---------------------------------------------------

  /** One division step: the new bit meets the top bit, which is then shifted out. */
  function Step(poly: Bits, rem: Bits, bit: bool): (r: Bits)
    requires |poly| == |rem| > 0
    ensures |r| == |rem|
  {
    Divide(poly, Xor(rem, [bit] + Zero(|rem| - 1)))
  }

  function Feed(poly: Bits, rem: Bits, bits: Bits): (r: Bits)
    requires |poly| == |rem| > 0
    ensures |r| == |rem|
  {
    if bits == [] then rem
    else Step(poly, Feed(poly, rem, bits[..|bits| - 1]), bits[|bits| - 1])
  }

  /** The order in which the bits of a message enter the register. */
  function MessageBits(reflectIn: bool, msg: seq<Octet>): Bits {
    if msg == [] then []
    else MessageBits(reflectIn, msg[..|msg| - 1]) + MaybeReverse(reflectIn, msg[|msg| - 1])
  }

  function MaybeReverse(reflect: bool, a: Bits): (r: Bits)
    ensures |r| == |a|
  {
    if reflect then Reverse(a) else a
  }

  /** The checksum of a message. */
  function Checksum(p: Params, msg: seq<Octet>): (r: Bits)
    requires p.Valid()
    ensures |r| == |p.poly|
  {
    Xor(MaybeReverse(p.reflectRem, Feed(p.poly, p.init, MessageBits(p.reflectIn, msg))), p.final)
  }

  lemma {:induction false} FeedConcat(poly: Bits, rem: Bits, a: Bits, b: Bits)
    requires |poly| == |rem| > 0
    ensures Feed(poly, rem, a + b) == Feed(poly, Feed(poly, rem, a), b)
    decreases |b|
  {
    if b == [] {
      assert a + b == a;
    } else {
      var init := b[..|b| - 1];
      assert (a + b)[..|a + b| - 1] == a + init;
      FeedConcat(poly, rem, a, init);
    }
  }

  // ---- linearity -----------------------------------------------------------------

  lemma StepLinear(poly: Bits, r: Bits, s: Bits, a: bool, b: bool)
    requires |poly| == |r| == |s| > 0
    ensures Step(poly, Xor(r, s), a != b) == Xor(Step(poly, r, a), Step(poly, s, b))
  {
    var n := |r| - 1;
    var u, v := [a] + Zero(n), [b] + Zero(n);
    assert [a != b] + Zero(n) == Xor(u, v);
    XorSwap(r, s, u, v);
    DivideLinear(poly, Xor(r, u), Xor(s, v));
  }

  /** The step after the new bit has been added in. */
  function Divide(poly: Bits, t: Bits): (r: Bits)
    requires |poly| == |t| > 0
    ensures |r| == |t|
  {
    if t[0] then Xor(ShiftLeft(t, 1), poly) else ShiftLeft(t, 1)
  }

  lemma DivideLinear(poly: Bits, s: Bits, t: Bits)
    requires |poly| == |s| == |t| > 0
    ensures Divide(poly, Xor(s, t)) == Xor(Divide(poly, s), Divide(poly, t))
  {
    var a, b, zero := ShiftLeft(s, 1), ShiftLeft(t, 1), Zero(|poly|);
    XorShiftLeft(s, t, 1);
    XorSwap(a, b, if s[0] then poly else zero, if t[0] then poly else zero);
    XorSelf(a);
    XorSelf(b);
    XorSelf(poly);
    XorSelf(Xor(a, b));
    XorSelf(zero);
  }

  lemma {:induction false} FeedLinear(poly: Bits, r: Bits, s: Bits, a: Bits, b: Bits)
    requires |poly| == |r| == |s| > 0
    requires |a| == |b|
    ensures Feed(poly, Xor(r, s), Xor(a, b)) == Xor(Feed(poly, r, a), Feed(poly, s, b))
    decreases |a|
  {
    if a != [] {
      var n := |a| - 1;
      assert Xor(a, b)[..n] == Xor(a[..n], b[..n]);
      FeedLinear(poly, r, s, a[..n], b[..n]);
      StepLinear(poly, Feed(poly, r, a[..n]), Feed(poly, s, b[..n]), a[n], b[n]);
    }
  }

  /** Feeding a register its own leading bits cancels them: it is only shifted. */
  lemma {:induction false} FeedOwnBits(poly: Bits, rem: Bits, k: nat)
    requires |poly| == |rem| > 0
    requires k <= |rem|
    ensures Feed(poly, rem, rem[..k]) == ShiftLeft(rem, k)
    decreases k
  {
    if k == 0 {
      assert ShiftLeft(rem, 0) == rem;
    } else {
      assert rem[..k][..k - 1] == rem[..k - 1];
      FeedOwnBits(poly, rem, k - 1);
      StepOwnBit(poly, rem, k - 1);
    }
  }

  lemma StepOwnBit(poly: Bits, rem: Bits, k: nat)
    requires |poly| == |rem| > k
    ensures Step(poly, ShiftLeft(rem, k), rem[k]) == ShiftLeft(rem, k + 1)
  {
    var s := ShiftLeft(rem, k);
    var t := Xor(s, [rem[k]] + Zero(|rem| - 1));
    assert !t[0];
    var a, b := ShiftLeft(t, 1), ShiftLeft(rem, k + 1);
    forall i | 0 <= i < |rem| ensures a[i] == b[i] {
      if i + 1 < |rem| {
        assert a[i] == t[i + 1] == s[i + 1];
      }
    }
  }

  /** The byte-at-a-time recurrence: k bits at once are one shift and one table lookup. */
  lemma FeedBlock(poly: Bits, rem: Bits, a: Bits)
    requires |poly| == |rem| > 0
    requires |a| <= |rem|
    ensures Feed(poly, rem, a) == Xor(ShiftLeft(rem, |a|), Feed(poly, Zero(|rem|), Xor(a, rem[..|a|])))
  {
    var zero, top := Zero(|rem|), rem[..|a|];
    FeedOwnBits(poly, rem, |a|);
    FeedLinear(poly, rem, zero, top, Xor(a, top));
    XorSelf(rem);
    XorCancel(a, top);
  }

  // ---- the table-driven register ---------------------------------------------------

  /** The entry of the lookup table for one dividend byte. */
  function TableEntry(poly: Bits, reflect: bool, index: Octet): (r: Bits)
    requires |poly| > 0
    ensures |r| == |poly|
  {
    MaybeReverse(reflect, Feed(poly, Zero(|poly|), MaybeReverse(reflect, index)))
  }

  /** One byte of the table-driven register, in either bit order. */
  function TableStep(poly: Bits, reflect: bool, rem: Bits, x: Octet): (r: Bits)
    requires |poly| == |rem| >= 8
    ensures |r| == |rem|
  {
    if reflect then
      Xor(ShiftRight(rem, 8), TableEntry(poly, true, Xor(x, rem[|rem| - 8..])))
    else
      Xor(ShiftLeft(rem, 8), TableEntry(poly, false, Xor(x, rem[..8])))
  }

  /** The table-driven register holds the bit-serial one, reflected when input is. */
  lemma TableStepRefinesFeed(poly: Bits, reflect: bool, rem: Bits, x: Octet)
    requires |poly| == |rem| >= 8
    ensures TableStep(poly, reflect, MaybeReverse(reflect, rem), x)
         == MaybeReverse(reflect, Feed(poly, rem, MaybeReverse(reflect, x)))
  {
    FeedBlock(poly, rem, MaybeReverse(reflect, x));
    if reflect {
      ReversedIndex(rem, x);
      ReverseShift(rem, 8);
      ReverseXor(ShiftLeft(rem, 8), Feed(poly, Zero(|rem|), Xor(Reverse(x), rem[..8])));
    }
  }

  /** Reversed, the low byte of the reflected register is the top byte of the plain one. */
  lemma ReversedIndex(rem: Bits, x: Octet)
    requires |rem| >= 8
    ensures Reverse(Xor(x, Reverse(rem)[|rem| - 8..])) == Xor(Reverse(x), rem[..8])
  {
    var a, b := Reverse(Xor(x, Reverse(rem)[|rem| - 8..])), Xor(Reverse(x), rem[..8]);
    forall i | 0 <= i < 8 ensures a[i] == b[i] {
      assert Reverse(rem)[|rem| - 8..][7 - i] == rem[i];
    }
  }

  // ---- the augmented-message register ---------------------------------------------

  /** One byte of the augmented form: the byte enters below, the top byte is looked up. */
  function AugmentedStep(poly: Bits, rem: Bits, x: Octet): (r: Bits)
    requires |poly| == |rem| >= 8
    ensures |r| == |rem|
  {
    Xor(rem[8..] + x, TableEntry(poly, false, rem[..8]))
  }

  function Augmented(poly: Bits, rem: Bits, msg: seq<Octet>): (r: Bits)
    requires |poly| == |rem| >= 8
    ensures |r| == |rem|
  {
    if msg == [] then rem
    else AugmentedStep(poly, Augmented(poly, rem, msg[..|msg| - 1]), msg[|msg| - 1])
  }

  lemma {:induction false} AugmentedConcat(poly: Bits, rem: Bits, a: seq<Octet>, b: seq<Octet>)
    requires |poly| == |rem| >= 8
    ensures Augmented(poly, rem, a + b) == Augmented(poly, Augmented(poly, rem, a), b)
    decreases |b|
  {
    if b == [] {
      assert a + b == a;
    } else {
      var init := b[..|b| - 1];
      assert (a + b)[..|a + b| - 1] == a + init;
      AugmentedConcat(poly, rem, a, init);
    }
  }

  /** A byte entering below is a byte of zeros fed above, then added at the bottom. */
  lemma AugmentedStepIsFeed(poly: Bits, rem: Bits, x: Octet)
    requires |poly| == |rem| >= 8
    ensures AugmentedStep(poly, rem, x) == Xor(Feed(poly, rem, Zero(8)), Zero(|rem| - 8) + x)
  {
    var t := TableEntry(poly, false, rem[..8]);
    FeedBlock(poly, rem, Zero(8));
    XorSelf(rem[..8]);
    EnterBelow(rem, x);
    XorRotate(ShiftLeft(rem, 8), Zero(|rem| - 8) + x, t);
  }

  /** All the bits of a byte string, in order. */
  function Flatten(msg: seq<Octet>): (r: Bits)
    ensures |r| == 8 * |msg|
  {
    if msg == [] then [] else Flatten(msg[..|msg| - 1]) + msg[|msg| - 1]
  }

  /** A byte on top of k zero bytes with c below: shifting by a byte brings x in below c. */
  lemma ShiftIn(n: nat, c: Bits, x: Octet)
    requires |c| + 8 <= n
    ensures Xor(ShiftLeft(Zero(n - |c|) + c, 8), Zero(n - 8) + x) == Zero(n - |c| - 8) + (c + x)
  {
    var a, b := Xor(ShiftLeft(Zero(n - |c|) + c, 8), Zero(n - 8) + x), Zero(n - |c| - 8) + (c + x);
    assert forall i :: 0 <= i < n ==> a[i] == b[i];
  }

  /** One more byte: what was added at the bottom is carried along. */
  lemma AugmentedNext(poly: Bits, moved: Bits, low: Bits, x: Octet)
    requires |poly| == |moved| == |low| >= 8
    requires low[..8] == Zero(8)
    ensures AugmentedStep(poly, Xor(moved, low), x)
         == Xor(Feed(poly, moved, Zero(8)), Xor(ShiftLeft(low, 8), Zero(|low| - 8) + x))
  {
    AugmentedStepIsFeed(poly, Xor(moved, low), x);
    FeedCarries(poly, moved, low);
    XorAssoc(Feed(poly, moved, Zero(8)), ShiftLeft(low, 8), Zero(|low| - 8) + x);
  }

  lemma FeedCarries(poly: Bits, moved: Bits, low: Bits)
    requires |poly| == |moved| == |low| >= 8
    requires low[..8] == Zero(8)
    ensures Feed(poly, Xor(moved, low), Zero(8)) == Xor(Feed(poly, moved, Zero(8)), ShiftLeft(low, 8))
  {
    FeedLinear(poly, moved, low, Zero(8), Zero(8));
    XorSelf(Zero(8));
    FeedOwnBits(poly, low, 8);
  }

  lemma AugmentedTail(poly: Bits, moved: Bits, c: Bits, x: Octet)
    requires |poly| == |moved| >= |c| + 8
    ensures AugmentedStep(poly, Xor(moved, Zero(|poly| - |c|) + c), x)
         == Xor(Feed(poly, moved, Zero(8)), Zero(|poly| - |c| - 8) + (c + x))
  {
    LowBits(|poly|, c);
    AugmentedNext(poly, moved, Zero(|poly| - |c|) + c, x);
    ShiftIn(|poly|, c, x);
  }

  lemma LowBits(n: nat, c: Bits)
    requires |c| + 8 <= n
    ensures (Zero(n - |c|) + c)[..8] == Zero(8)
  {}

  /** Bits low into a register at least as wide: the register moves on by as many zero bits
      and low is added at its bottom, where nothing has shifted it out yet. */
  ghost predicate IsAugmentedShort(poly: Bits, rem: Bits, now: Bits, low: Bits) {
    && |poly| == |rem| > 0
    && |low| <= |rem|
    && now == Xor(Feed(poly, rem, Zero(|low|)), Zero(|rem| - |low|) + low)
  }

  lemma {:induction false} AugmentedShort(poly: Bits, rem: Bits, c: seq<Octet>)
    requires |poly| == |rem| >= 8
    requires |Flatten(c)| <= |rem|
    ensures IsAugmentedShort(poly, rem, Augmented(poly, rem, c), Flatten(c))
    decreases |c|
  {
    if c == [] {
      AugmentedShortNone(poly, rem);
    } else {
      var init, x := c[..|c| - 1], c[|c| - 1];
      AugmentedShort(poly, rem, init);
      AugmentedShortNext(poly, rem, Augmented(poly, rem, init), Flatten(init), x);
    }
  }

  lemma AugmentedShortNone(poly: Bits, rem: Bits)
    requires |poly| == |rem| > 0
    ensures IsAugmentedShort(poly, rem, rem, [])
  {
    assert Zero(|rem|) + [] == Zero(|rem|);
    XorSelf(rem);
  }

  lemma AugmentedShortNext(poly: Bits, rem: Bits, now: Bits, low: Bits, x: Octet)
    requires |rem| >= |low| + 8
    requires IsAugmentedShort(poly, rem, now, low)
    ensures IsAugmentedShort(poly, rem, AugmentedStep(poly, now, x), low + x)
  {
    AugmentedTail(poly, Feed(poly, rem, Zero(|low|)), low, x);
    FeedConcat(poly, rem, Zero(|low|), Zero(8));
    ZeroSum(|low|, 8);
  }

  /** The register after a whole register width of zero bits. */
  function Flush(poly: Bits, rem: Bits): (r: Bits)
    requires |poly| == |rem| > 0
    ensures |r| == |rem|
  {
    Feed(poly, rem, Zero(|rem|))
  }

  /** A byte at the bottom, flushed, is that byte fed from the top. */
  lemma FlushLow(poly: Bits, x: Octet)
    requires |poly| >= 8
    ensures Flush(poly, Zero(|poly| - 8) + x) == Feed(poly, Zero(|poly|), x)
  {
    var n := |poly|;
    var low, top := Zero(n - 8) + x, x + Zero(n - 8);
    FeedConcat(poly, low, Zero(n - 8), Zero(8));
    ZeroSum(n - 8, 8);
    FeedOwnBits(poly, low, n - 8);
    assert low[..n - 8] == Zero(n - 8);
    assert ShiftLeft(low, n - 8) == top;
    FeedBlock(poly, top, Zero(8));
    assert ShiftLeft(top, 8) == Zero(n);
    assert top[..8] == x;
    XorSelf(x);
    XorSelf(Feed(poly, Zero(n), x));
  }

  /** Feeding bits is feeding zeros and adding what the bits alone would leave. */
  lemma FeedSplit(poly: Bits, rem: Bits, x: Bits)
    requires |poly| == |rem| > 0
    ensures Feed(poly, rem, x) == Xor(Feed(poly, rem, Zero(|x|)), Feed(poly, Zero(|rem|), x))
  {
    FeedLinear(poly, rem, Zero(|rem|), Zero(|x|), x);
    XorSelf(rem);
    XorSelf(x);
  }

  /** Flushing turns the augmented register into the ordinary one, byte by byte. */
  lemma FlushStep(poly: Bits, rem: Bits, x: Octet)
    requires |poly| == |rem| >= 8
    ensures Flush(poly, AugmentedStep(poly, rem, x)) == Feed(poly, Flush(poly, rem), x)
  {
    var n := |rem|;
    var low := Zero(n - 8) + x;
    AugmentedStepIsFeed(poly, rem, x);
    FeedLinear(poly, Feed(poly, rem, Zero(8)), low, Zero(n), Zero(n));
    XorSelf(Zero(n));
    FlushLow(poly, x);
    FeedConcat(poly, rem, Zero(8), Zero(n));
    FeedConcat(poly, rem, Zero(n), Zero(8));
    ZeroSum(8, n);
    ZeroSum(n, 8);
    FeedSplit(poly, Flush(poly, rem), x);
  }

  lemma {:induction false} FlushAugmented(poly: Bits, rem: Bits, msg: seq<Octet>)
    requires |poly| == |rem| >= 8
    ensures Flush(poly, Augmented(poly, rem, msg)) == Feed(poly, Flush(poly, rem), MessageBits(false, msg))
    decreases |msg|
  {
    if msg != [] {
      var k := |msg| - 1;
      FlushAugmented(poly, rem, msg[..k]);
      FlushStep(poly, Augmented(poly, rem, msg[..k]), msg[k]);
      FeedConcat(poly, Flush(poly, rem), MessageBits(false, msg[..k]), msg[k]);
    }
  }

  /** A trailer of the register's width flushes the register and is added to it. */
  lemma AugmentedWhole(poly: Bits, rem: Bits, c: seq<Octet>)
    requires |poly| == |rem| == 8 * |c| >= 8
    ensures Augmented(poly, rem, c) == Xor(Flush(poly, rem), Flatten(c))
  {
    AugmentedShort(poly, rem, c);
    WholeFlushes(poly, rem, Augmented(poly, rem, c), Flatten(c));
  }

  lemma WholeFlushes(poly: Bits, rem: Bits, now: Bits, low: Bits)
    requires |low| == |rem| && IsAugmentedShort(poly, rem, now, low)
    ensures now == Xor(Flush(poly, rem), low)
  {
    assert Zero(0) + low == low;
  }

  /** A message and a trailer of the register's width: the ordinary unreflected remainder
      of the message, started from the flushed value, plus the trailer. */
  lemma AugmentedMessage(poly: Bits, rem: Bits, msg: seq<Octet>, c: seq<Octet>)
    requires |poly| == |rem| == 8 * |c| >= 8
    ensures Augmented(poly, rem, msg + c)
         == Xor(Feed(poly, Flush(poly, rem), MessageBits(false, msg)), Flatten(c))
  {
    AugmentedConcat(poly, rem, msg, c);
    AugmentedWhole(poly, Augmented(poly, rem, msg), c);
    FlushAugmented(poly, rem, msg);
  }

  /** Zero stays zero, so a zero-initialised augmented run needs no flushing. */
  lemma FlushZero(poly: Bits)
    requires |poly| > 0
    ensures Flush(poly, Zero(|poly|)) == Zero(|poly|)
  {
    var z := Zero(|poly|);
    FeedOwnBits(poly, z, |z|);
    assert z[..|z|] == z;
    assert ShiftLeft(z, |z|) == z;
  }

  /** A zero-initialised augmented run: zeros appended give the checksum of the message,
      and a message with a trailer checks to zero exactly when the trailer is that checksum. */
  lemma AugmentedCheck(poly: Bits, msg: seq<Octet>, trailer: seq<Octet>)
    requires |poly| == 8 * |trailer| >= 8
    ensures var zero := Zero(|poly|);
      var sum := Checksum(Params(poly, zero, zero, false, false), msg);
      && (Flatten(trailer) == zero ==> Augmented(poly, zero, msg + trailer) == sum)
      && (Augmented(poly, zero, msg + trailer) == zero <==> Flatten(trailer) == sum)
  {
    var zero := Zero(|poly|);
    AugmentedMessage(poly, zero, msg, trailer);
    FlushZero(poly);
    var r := Feed(poly, zero, MessageBits(false, msg));
    XorSelf(r);
    XorCancel(r, Flatten(trailer));
  }

  // ---- the remainder of a polynomial division --------------------------------------

  /** The product of the quotient q and the generator x^n + poly: |q| + n coefficients. */
  function Product(q: Bits, poly: Bits): (r: Bits)
    ensures |r| == |q| + |poly|
  {
    if q == [] then Zero(|poly|)
    else
      var k := |q| - 1;
      var shifted := Product(q[..k], poly) + [false];
      if q[k] then Xor(shifted, Zero(k) + [true] + poly) else shifted
  }

  /** The dividend: the message times x^n, with the initial register added on top. */
  function Dividend(init: Bits, bits: Bits): (r: Bits)
    ensures |r| == |bits| + |init|
  {
    Xor(bits + Zero(|init|), init + Zero(|bits|))
  }

  /** r is a remainder of the dividend, witnessed by the quotient q. */
  ghost predicate IsDivision(init: Bits, bits: Bits, poly: Bits, q: Bits, r: Bits) {
    && |init| == |poly| == |r|
    && |q| == |bits|
    && Dividend(init, bits) == Xor(Product(q, poly), Zero(|bits|) + r)
  }

  lemma DivisionStep(init: Bits, bits: Bits, poly: Bits, q: Bits, r: Bits, b: bool)
    requires |poly| > 0
    requires IsDivision(init, bits, poly, q, r)
    ensures IsDivision(init, bits + [b], poly, q + [r[0] != b], Step(poly, r, b))
  {
    var k, n := |bits|, |poly|;
    var q', r' := q + [r[0] != b], Step(poly, r, b);
    assert q'[..k] == q;
    var lhs := Dividend(init, bits + [b]);
    var rhs := Xor(Product(q', poly), Zero(k + 1) + r');
    forall i | 0 <= i < k + 1 + n ensures lhs[i] == rhs[i] {
      if i < k + n {
        assert Dividend(init, bits)[i] == Xor(Product(q, poly), Zero(k) + r)[i];
      }
    }
  }

  /** The register is the remainder of a division by x^n + poly. */
  lemma {:induction false} FeedDivides(init: Bits, bits: Bits, poly: Bits) returns (q: Bits)
    requires |poly| == |init| > 0
    ensures IsDivision(init, bits, poly, q, Feed(poly, init, bits))
    decreases |bits|
  {
    if bits == [] {
      q := [];
      assert Dividend(init, bits) == init;
      assert Xor(Product(q, poly), Zero(0) + init) == init;
    } else {
      var k := |bits| - 1;
      var q0 := FeedDivides(init, bits[..k], poly);
      DivisionStep(init, bits[..k], poly, q0, Feed(poly, init, bits[..k]), bits[k]);
      q := q0 + [Feed(poly, init, bits[..k])[0] != bits[k]];
      assert bits == bits[..k] + [bits[k]];
    }
  }

  /** A product whose leading coefficients agree with another's has the same quotient. */
  lemma {:induction false} QuotientUnique(q: Bits, s: Bits, poly: Bits)
    requires |q| == |s|
    requires forall i :: 0 <= i < |q| ==> Product(q, poly)[i] == Product(s, poly)[i]
    ensures q == s
    decreases |q|
  {
    if q != [] {
      var k := |q| - 1;
      forall i | 0 <= i < k ensures Product(q[..k], poly)[i] == Product(s[..k], poly)[i] {
        assert Product(q, poly)[i] == Product(s, poly)[i];
      }
      QuotientUnique(q[..k], s[..k], poly);
      assert Product(q, poly)[k] == Product(s, poly)[k];
      assert q == q[..k] + [q[k]] && s == s[..k] + [s[k]];
    }
  }

  /** The register is the only remainder: any division of the dividend ends in it. */
  lemma RemainderUnique(init: Bits, bits: Bits, poly: Bits, q: Bits, r: Bits)
    requires |poly| == |init| > 0
    requires IsDivision(init, bits, poly, q, r)
    ensures r == Feed(poly, init, bits)
  {
    var s := FeedDivides(init, bits, poly);
    var f, k := Feed(poly, init, bits), |bits|;
    var d := Dividend(init, bits);
    forall i | 0 <= i < k ensures Product(q, poly)[i] == Product(s, poly)[i] {
      assert d[i] == Xor(Product(q, poly), Zero(k) + r)[i];
      assert d[i] == Xor(Product(s, poly), Zero(k) + f)[i];
    }
    QuotientUnique(q, s, poly);
    forall i | 0 <= i < |poly| ensures r[i] == f[i] {
      assert d[k + i] == Xor(Product(q, poly), Zero(k) + r)[k + i];
      assert d[k + i] == Xor(Product(s, poly), Zero(k) + f)[k + i];
    }
  }
}
