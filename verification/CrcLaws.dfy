/** Laws of the checksum: the sum of nothing, and what a message closed with its own sum
    adds up to, whatever the message.
 */
module CrcLaws {
  import opened Words
  import opened CrcSpec

  /** The sum of the empty message is made of the two parameters alone. */
  lemma EmptySum(p: Params)
    requires p.Valid()
    ensures Checksum(p, []) == Xor(MaybeReverse(p.reflectRem, p.init), p.final)
  {}

  // ---- the bytes of a checksum ---------------------------------------------------------

  /** A checksum as it is sent behind its message: the byte that was divided first goes
      first, which is the low one if bits are reflected. */
  function SumOctets(reflect: bool, sum: Bits): (r: seq<Octet>)
    requires |sum| % 8 == 0
    ensures 8 * |r| == |sum|
  {
    var k := |sum| / 8;
    seq(k, i requires 0 <= i < k => SumOctet(reflect, sum, i))
  }

  function SumOctet(reflect: bool, sum: Bits, i: nat): Octet
    requires 8 * i + 8 <= |sum|
  {
    if reflect then sum[|sum| - 8 * i - 8..|sum| - 8 * i] else sum[8 * i..8 * i + 8]
  }

  lemma OctetEnters(reflect: bool, sum: Bits, i: nat)
    requires 8 * i + 8 <= |sum|
    ensures MaybeReverse(reflect, SumOctet(reflect, sum, i)) == MaybeReverse(reflect, sum)[8 * i..8 * i + 8]
  {
    var a, b := MaybeReverse(reflect, SumOctet(reflect, sum, i)), MaybeReverse(reflect, sum);
    var x := SumOctet(reflect, sum, i);
    var at := 8 * i;
    forall j | 0 <= j < 8 ensures a[j] == b[at + j] {
      if reflect {
        assert a[j] == x[7 - j] == sum[|sum| - at - 8 + (7 - j)] == b[at + j];
      } else {
        assert a[j] == x[j] == sum[at + j];
      }
    }
  }

  /** Fed to the register, these bytes are the checksum, highest coefficient first. */
  lemma {:induction false} SumEnters(reflect: bool, sum: Bits, i: nat)
    requires |sum| % 8 == 0 && 8 * i <= |sum|
    ensures MessageBits(reflect, SumOctets(reflect, sum)[..i]) == MaybeReverse(reflect, sum)[..8 * i]
    decreases i
  {
    if i > 0 {
      var all, bits := SumOctets(reflect, sum), MaybeReverse(reflect, sum);
      SumEnters(reflect, sum, i - 1);
      OctetEnters(reflect, sum, i - 1);
      PrefixGrows(all, i - 1, i);
      BitsLast(reflect, all[..i], all[..i - 1]);
      PrefixGrows(bits, 8 * (i - 1), 8 * i);
    }
  }

  lemma PrefixGrows<T>(s: seq<T>, a: nat, b: nat)
    requires a <= b <= |s|
    ensures s[..a] + s[a..b] == s[..b] && s[..b][..a] == s[..a]
  {}

  lemma BitsLast(reflect: bool, all: seq<Octet>, init: seq<Octet>)
    requires |all| == |init| + 1 && all[..|init|] == init
    ensures MessageBits(reflect, all) == MessageBits(reflect, init) + MaybeReverse(reflect, all[|init|])
  {}

  lemma {:induction false} BitsConcat(reflect: bool, a: seq<Octet>, b: seq<Octet>)
    ensures MessageBits(reflect, a + b) == MessageBits(reflect, a) + MessageBits(reflect, b)
    decreases |b|
  {
    if b == [] {
      assert a + b == a;
    } else {
      var init := b[..|b| - 1];
      BitsConcat(reflect, a, init);
      BitsLast(reflect, a + b, a + init);
      BitsLast(reflect, b, init);
      Regroup(MessageBits(reflect, a), MessageBits(reflect, init), MaybeReverse(reflect, b[|b| - 1]));
    }
  }

  lemma Regroup(a: Bits, b: Bits, c: Bits)
    ensures a + b + c == a + (b + c)
  {}

  lemma {:induction false} BitsLength(reflect: bool, msg: seq<Octet>)
    ensures |MessageBits(reflect, msg)| == 8 * |msg|
  {
    if msg != [] {
      BitsLength(reflect, msg[..|msg| - 1]);
    }
  }

  lemma {:induction false} BitsInjective(reflect: bool, a: seq<Octet>, b: seq<Octet>)
    requires |a| == |b| && MessageBits(reflect, a) == MessageBits(reflect, b)
    ensures a == b
    decreases |a|
  {
    if a != [] {
      var n := |a| - 1;
      LastInjective(reflect, a[..n], a[n], b[..n], b[n]);
      BitsLast(reflect, a, a[..n]);
      BitsLast(reflect, b, b[..n]);
      BitsInjective(reflect, a[..n], b[..n]);
      SameLists(a, b, n);
    }
  }

  lemma SameLists<T>(a: seq<T>, b: seq<T>, n: nat)
    requires |a| == |b| == n + 1 && a[..n] == b[..n] && a[n] == b[n]
    ensures a == b
  {
    assert a == a[..n] + [a[n]] && b == b[..n] + [b[n]];
  }

  lemma LastInjective(reflect: bool, a: seq<Octet>, x: Octet, b: seq<Octet>, y: Octet)
    requires |a| == |b|
    ensures MessageBits(reflect, a) + MaybeReverse(reflect, x) == MessageBits(reflect, b) + MaybeReverse(reflect, y)
      ==> MessageBits(reflect, a) == MessageBits(reflect, b) && x == y
  {
    BitsLength(reflect, a);
    BitsLength(reflect, b);
    ReverseReverse(x);
    ReverseReverse(y);
    var u, v := MessageBits(reflect, a), MessageBits(reflect, b);
    if u + MaybeReverse(reflect, x) == v + MaybeReverse(reflect, y) {
      Ends(u, MaybeReverse(reflect, x), v, MaybeReverse(reflect, y));
    }
  }

  lemma Ends(a: Bits, x: Bits, b: Bits, y: Bits)
    requires |a| == |b| && |x| == |y| && a + x == b + y
    ensures a == b && x == y
  {
    assert (a + x)[..|a|] == a && (b + y)[..|b|] == b;
    assert (a + x)[|a|..] == x && (b + y)[|b|..] == y;
  }

  // ---- a register full of bits ----------------------------------------------------------

  /** Bits of the register's width are as good as added to it and flushed. */
  lemma FeedWidth(poly: Bits, rem: Bits, x: Bits)
    requires |poly| == |rem| == |x| > 0
    ensures Feed(poly, rem, x) == Flush(poly, Xor(rem, x))
  {
    FeedLinear(poly, rem, x, x, x);
    XorSelf(x);
    FeedOwnBits(poly, x, |x|);
    assert x[..|x|] == x && ShiftLeft(x, |x|) == Zero(|x|);
    XorSelf(Feed(poly, rem, x));
  }

  /** Dividing loses nothing if the generator has a constant term. */
  lemma DivideInjective(poly: Bits, s: Bits, t: Bits)
    requires |poly| == |s| == |t| > 0 && poly[|poly| - 1]
    requires Divide(poly, s) == Divide(poly, t)
    ensures s == t
  {
    var n := |poly|;
    LowBit(poly, s);
    LowBit(poly, t);
    forall i | 0 < i < n ensures s[i] == t[i] {
      NextBit(poly, s, i - 1);
      NextBit(poly, t, i - 1);
    }
  }

  lemma LowBit(poly: Bits, t: Bits)
    requires |poly| == |t| > 0
    ensures Divide(poly, t)[|t| - 1] == (t[0] && poly[|t| - 1])
  {}

  lemma NextBit(poly: Bits, t: Bits, i: nat)
    requires |poly| == |t| && i + 1 < |t|
    ensures Divide(poly, t)[i] == (t[i + 1] != (t[0] && poly[i]))
  {}

  lemma StepZero(poly: Bits, rem: Bits)
    requires |poly| == |rem| > 0
    ensures Step(poly, rem, false) == Divide(poly, rem)
  {
    assert [false] + Zero(|rem| - 1) == Zero(|rem|);
    XorSelf(rem);
  }

  lemma {:induction false} ZerosInjective(poly: Bits, s: Bits, t: Bits, k: nat)
    requires |poly| == |s| == |t| > 0 && poly[|poly| - 1]
    requires Feed(poly, s, Zero(k)) == Feed(poly, t, Zero(k))
    ensures s == t
    decreases k
  {
    if k > 0 {
      assert Zero(k)[..k - 1] == Zero(k - 1);
      StepZero(poly, Feed(poly, s, Zero(k - 1)));
      StepZero(poly, Feed(poly, t, Zero(k - 1)));
      DivideInjective(poly, Feed(poly, s, Zero(k - 1)), Feed(poly, t, Zero(k - 1)));
      ZerosInjective(poly, s, t, k - 1);
    }
  }

  // ---- the residue --------------------------------------------------------------------

  /** What a message closed with its own checksum adds up to. */
  function Residue(p: Params): Bits
    requires p.Valid()
  {
    var final := MaybeReverse(p.reflectRem, p.final);
    Xor(MaybeReverse(p.reflectRem, Feed(p.poly, Zero(|p.poly|), final)), p.final)
  }

  /** A parameter set whose sums can be sent behind a message. */
  ghost predicate Closing(p: Params) {
    p.Valid() && p.reflectIn == p.reflectRem && |p.poly| % 8 == 0
  }

  /** The sum of a message with bytes of the register's width behind it is that of one sum
      of that width, flushed. */
  lemma SumBehind(p: Params, msg: seq<Octet>, t: seq<Octet>)
    requires Closing(p) && 8 * |t| == |p.poly|
    ensures |MessageBits(p.reflectIn, t)| == |p.poly|
    ensures var rem := Feed(p.poly, p.init, MessageBits(p.reflectIn, msg));
      Checksum(p, msg + t)
        == Xor(MaybeReverse(p.reflectRem, Flush(p.poly, Xor(rem, MessageBits(p.reflectIn, t)))), p.final)
  {
    BitsLength(p.reflectIn, t);
    BitsConcat(p.reflectIn, msg, t);
    FeedConcat(p.poly, p.init, MessageBits(p.reflectIn, msg), MessageBits(p.reflectIn, t));
    FeedWidth(p.poly, Feed(p.poly, p.init, MessageBits(p.reflectIn, msg)), MessageBits(p.reflectIn, t));
  }

  lemma ResidueIs(p: Params)
    requires p.Valid()
    ensures Residue(p)
         == Xor(MaybeReverse(p.reflectRem, Flush(p.poly, MaybeReverse(p.reflectRem, p.final))), p.final)
  {
    FeedWidth(p.poly, Zero(|p.poly|), MaybeReverse(p.reflectRem, p.final));
    XorSelf(MaybeReverse(p.reflectRem, p.final));
  }

  /** The bytes of the checksum are what the register lacks to the final value. */
  lemma OwnSum(p: Params, msg: seq<Octet>)
    requires Closing(p)
    ensures var rem := Feed(p.poly, p.init, MessageBits(p.reflectIn, msg));
      MessageBits(p.reflectIn, SumOctets(p.reflectRem, Checksum(p, msg)))
        == Xor(rem, MaybeReverse(p.reflectRem, p.final))
  {
    var rem := Feed(p.poly, p.init, MessageBits(p.reflectIn, msg));
    var sum := Checksum(p, msg);
    var all := SumOctets(p.reflectRem, sum);
    SumEnters(p.reflectRem, sum, |all|);
    assert all[..|all|] == all;
    var bits := MaybeReverse(p.reflectRem, sum);
    assert bits[..8 * |all|] == bits;
    ReverseXor(MaybeReverse(p.reflectRem, rem), p.final);
    ReverseReverse(rem);
  }

  /** A message and its own checksum behind it: the sum does not depend on the message. */
  lemma SumOfClosed(p: Params, msg: seq<Octet>)
    requires Closing(p)
    ensures Checksum(p, msg + SumOctets(p.reflectRem, Checksum(p, msg))) == Residue(p)
  {
    var rem, final := Feed(p.poly, p.init, MessageBits(p.reflectIn, msg)), MaybeReverse(p.reflectRem, p.final);
    SumBehind(p, msg, SumOctets(p.reflectRem, Checksum(p, msg)));
    OwnSum(p, msg);
    XorTwice(rem, final);
    ResidueIs(p);
  }

  lemma XorTwice(a: Bits, b: Bits)
    requires |a| == |b|
    ensures Xor(a, Xor(a, b)) == b
  {}

  /** And it is the only trailer of its length that does so, for a generator with a
      constant term. */
  lemma ClosedOnlyByOwnSum(p: Params, msg: seq<Octet>, t: seq<Octet>)
    requires Closing(p) && p.poly[|p.poly| - 1] && 8 * |t| == |p.poly|
    ensures Checksum(p, msg + t) == Residue(p) <==> t == SumOctets(p.reflectRem, Checksum(p, msg))
  {
    SumOfClosed(p, msg);
    if Checksum(p, msg + t) == Residue(p) {
      TrailerBits(p, msg, t);
      OwnSum(p, msg);
      BitsInjective(p.reflectIn, t, SumOctets(p.reflectRem, Checksum(p, msg)));
    }
  }

  lemma TrailerBits(p: Params, msg: seq<Octet>, t: seq<Octet>)
    requires Closing(p) && p.poly[|p.poly| - 1] && 8 * |t| == |p.poly|
    requires Checksum(p, msg + t) == Residue(p)
    ensures MessageBits(p.reflectIn, t)
         == Xor(Feed(p.poly, p.init, MessageBits(p.reflectIn, msg)), MaybeReverse(p.reflectRem, p.final))
  {
    SumBehind(p, msg, t);
    ResidueIs(p);
    var rem, final := Feed(p.poly, p.init, MessageBits(p.reflectIn, msg)), MaybeReverse(p.reflectRem, p.final);
    FlushedSame(p, rem, MessageBits(p.reflectIn, t), final);
  }

  lemma FlushedSame(p: Params, rem: Bits, bits: Bits, final: Bits)
    requires p.Valid() && p.poly[|p.poly| - 1] && |rem| == |bits| == |final| == |p.poly|
    requires Xor(MaybeReverse(p.reflectRem, Flush(p.poly, Xor(rem, bits))), p.final)
          == Xor(MaybeReverse(p.reflectRem, Flush(p.poly, final)), p.final)
    ensures bits == Xor(rem, final)
  {
    SumInjective(p, Flush(p.poly, Xor(rem, bits)), Flush(p.poly, final));
    ZerosInjective(p.poly, Xor(rem, bits), final, |p.poly|);
    XorTwice(rem, bits);
  }

  lemma SumInjective(p: Params, a: Bits, b: Bits)
    requires p.Valid() && |a| == |b| == |p.poly|
    requires Xor(MaybeReverse(p.reflectRem, a), p.final) == Xor(MaybeReverse(p.reflectRem, b), p.final)
    ensures a == b
  {
    XorCancel(MaybeReverse(p.reflectRem, a), p.final);
    XorCancel(MaybeReverse(p.reflectRem, b), p.final);
    ReverseReverse(a);
    ReverseReverse(b);
  }

  /** Without a constant term another trailer always does. */
  lemma EvenGeneratorMisses(p: Params, msg: seq<Octet>) returns (t: seq<Octet>)
    requires Closing(p) && !p.poly[|p.poly| - 1]
    ensures 8 * |t| == |p.poly|
    ensures Checksum(p, msg + t) == Residue(p) && t != SumOctets(p.reflectRem, Checksum(p, msg))
  {
    var rem, final := Feed(p.poly, p.init, MessageBits(p.reflectIn, msg)), MaybeReverse(p.reflectRem, p.final);
    var lost := [true] + p.poly[..|p.poly| - 1];
    LostBits(p.poly, lost);
    t := TrailerOf(p, Xor(Xor(rem, final), lost));
    SumBehind(p, msg, t);
    LostFlush(p.poly, rem, final, lost);
    ResidueIs(p);
    OwnSum(p, msg);
  }

  /** The bytes that enter the register as these bits. */
  lemma TrailerOf(p: Params, bits: Bits) returns (t: seq<Octet>)
    requires Closing(p) && |bits| == |p.poly|
    ensures 8 * |t| == |bits| && MessageBits(p.reflectIn, t) == bits
  {
    t := SumOctets(p.reflectRem, MaybeReverse(p.reflectRem, bits));
    SumEnters(p.reflectRem, MaybeReverse(p.reflectRem, bits), |t|);
    ReverseReverse(bits);
    assert t[..|t|] == t && bits[..|bits|] == bits;
  }

  lemma LostFlush(poly: Bits, rem: Bits, final: Bits, lost: Bits)
    requires |poly| == |rem| == |final| == |lost| > 0 && lost[0] && Flush(poly, lost) == Zero(|poly|)
    ensures Flush(poly, Xor(rem, Xor(Xor(rem, final), lost))) == Flush(poly, final)
    ensures Xor(Xor(rem, final), lost) != Xor(rem, final)
  {
    XorAssoc(rem, final, lost);
    XorTwice(rem, Xor(final, lost));
    FlushLinear(poly, final, lost);
    XorSelf(Flush(poly, final));
    assert Xor(Xor(rem, final), lost)[0] != Xor(rem, final)[0];
  }

  lemma FlushLinear(poly: Bits, a: Bits, b: Bits)
    requires |poly| == |a| == |b| > 0
    ensures Flush(poly, Xor(a, b)) == Xor(Flush(poly, a), Flush(poly, b))
  {
    FeedLinear(poly, a, b, Zero(|a|), Zero(|a|));
    XorSelf(Zero(|a|));
  }

  lemma LostBits(poly: Bits, lost: Bits)
    requires |poly| > 0 && !poly[|poly| - 1] && lost == [true] + poly[..|poly| - 1]
    ensures Flush(poly, lost) == Zero(|poly|)
  {
    var n := |poly|;
    assert Divide(poly, lost) == Zero(n) by {
      LowBit(poly, lost);
      forall i | 0 <= i < n - 1 ensures !Divide(poly, lost)[i] {
        NextBit(poly, lost, i);
      }
    }
    ZeroSum(1, n - 1);
    FeedConcat(poly, lost, Zero(1), Zero(n - 1));
    assert Zero(1)[..0] == [];
    StepZero(poly, lost);
    FeedZeros(poly, n - 1);
  }

  lemma {:induction false} FeedZeros(poly: Bits, k: nat)
    requires |poly| > 0
    ensures Feed(poly, Zero(|poly|), Zero(k)) == Zero(|poly|)
    decreases k
  {
    if k > 0 {
      assert Zero(k)[..k - 1] == Zero(k - 1);
      FeedZeros(poly, k - 1);
      StepZero(poly, Zero(|poly|));
      assert Divide(poly, Zero(|poly|)) == Zero(|poly|);
    }
  }
}
