/** The three checksum machines of boost/crc.hpp, proved against CrcSpec for every
    register width of at least eight bits, every polynomial, initial and final value
    and every choice of input and output reflection.
 */
module CrcEngine {
  import opened Words
  import opened CrcSpec

  /** reflector<Bits>::reflect: test the low bit, set the mirrored one, shift down. */
  method Reflect(x0: Bits) returns (reflection: Bits)
    ensures reflection == Reverse(x0)
  {
    var x := x0;
    var n := |x|;
    reflection := Zero(n);
    for i := 0 to n
      invariant |reflection| == n
      invariant x == ShiftRight(x0, i)
      invariant forall j :: 0 <= j < n ==> reflection[j] == (j < i && x0[n - 1 - j])
    {
      if x[n - 1] {
        reflection := reflection[i := true];
      }
      x := ShiftRight(x, 1);
      assert x == ShiftRight(x0, i + 1);
    }
  }

  method ReflectIf(doReflect: bool, x: Bits) returns (r: Bits)
    ensures r == MaybeReverse(doReflect, x)
  {
    if doReflect {
      r := Reflect(x);
    } else {
      r := x;
    }
  }

  /** What is left in the byte is what is still wanted, before and after one shift. */
  lemma ShiftOut(bits: Bits, i: nat, wanted: Bits, k: nat)
    requires 0 < i <= |bits| && k + i == |wanted|
    requires bits[..i] == wanted[k..]
    ensures wanted[..k + 1] == wanted[..k] + [bits[0]]
    ensures wanted[..k + 1][..k] == wanted[..k]
    ensures ShiftLeft(bits, 1)[..i - 1] == wanted[k + 1..]
  {
    assert bits[0] == bits[..i][0] == wanted[k];
    forall j | 0 <= j < i - 1 ensures ShiftLeft(bits, 1)[j] == wanted[k + 1..][j] {
      assert bits[j + 1] == bits[..i][j + 1] == wanted[k..][j + 1];
    }
  }

  /** Meeting the top bit, as the machines write it: flip it if the new bit is set. */
  lemma FlipTop(rem: Bits, bit: bool)
    requires |rem| > 0
    ensures (if bit then rem[0 := !rem[0]] else rem) == Xor(rem, [bit] + Zero(|rem| - 1))
  {}

  /** crc_basic: the bit-at-a-time machine. */
  class CrcBasic {
    const p: Params
    var rem: Bits

    ghost predicate Valid()
      reads this
    {
      p.Valid() && |rem| == |p.poly|
    }

    constructor (p: Params)
      requires p.Valid()
      ensures Valid() && this.p == p && rem == p.init
    {
      this.p := p;
      rem := p.init;
    }

    method ProcessBit(bit: bool)
      requires Valid()
      modifies this
      ensures Valid() && rem == Step(p.poly, old(rem), bit)
    {
      if bit {
        rem := rem[0 := !rem[0]];
      }
      FlipTop(old(rem), bit);
      var doPolyDiv := rem[0];
      rem := ShiftLeft(rem, 1);
      if doPolyDiv {
        rem := Xor(rem, p.poly);
      }
    }

    /** The low bitCount bits of a byte, highest first. */
    method ProcessBits(bits0: Octet, bitCount: nat)
      requires Valid() && bitCount <= 8
      modifies this
      ensures Valid() && rem == Feed(p.poly, old(rem), bits0[8 - bitCount..])
    {
      var bits: Bits := ShiftLeft(bits0, 8 - bitCount);
      ghost var wanted := bits0[8 - bitCount..];
      ghost var rem0 := rem;
      var i := bitCount;
      assert bits[..i] == wanted;
      while i > 0
        invariant Valid() && 0 <= i <= bitCount && |bits| == 8
        invariant bits[..i] == wanted[bitCount - i..]
        invariant rem == Feed(p.poly, rem0, wanted[..bitCount - i])
      {
        ghost var k := bitCount - i;
        ShiftOut(bits, i, wanted, k);
        ProcessBit(bits[0]);
        bits := ShiftLeft(bits, 1);
        i := i - 1;
      }
      assert wanted[..bitCount] == wanted;
    }

    method ProcessByte(byte: Octet)
      requires Valid()
      modifies this
      ensures Valid() && rem == Feed(p.poly, old(rem), MaybeReverse(p.reflectIn, byte))
    {
      var b := ReflectIf(p.reflectIn, byte);
      ProcessBits(b, 8);
      assert b[8 - 8..] == b;
    }

    method ProcessBytes(msg: seq<Octet>)
      requires Valid()
      modifies this
      ensures Valid() && rem == Feed(p.poly, old(rem), MessageBits(p.reflectIn, msg))
    {
      ghost var rem0 := rem;
      for i := 0 to |msg|
        invariant Valid() && rem == Feed(p.poly, rem0, MessageBits(p.reflectIn, msg[..i]))
      {
        assert msg[..i + 1][..i] == msg[..i];
        FeedConcat(p.poly, rem0, MessageBits(p.reflectIn, msg[..i]), MaybeReverse(p.reflectIn, msg[i]));
        ProcessByte(msg[i]);
      }
      assert msg[..|msg|] == msg;
    }

    method GetChecksum() returns (sum: Bits)
      requires Valid()
      ensures sum == Xor(MaybeReverse(p.reflectRem, rem), p.final)
    {
      sum := ReflectIf(p.reflectRem, rem);
      sum := Xor(sum, p.final);
    }
  }

  /** Where init_table puts the entry of a dividend, and which dividend a slot is for. */
  function Slot(reflect: bool, dividend: nat): (r: nat)
    requires dividend < 256
    ensures r < 256
  {
    assert Pow2(8) == 256;
    Value(MaybeReverse(reflect, Word(dividend, 8)))
  }

  lemma SlotInvolution(reflect: bool, d: nat)
    requires d < 256
    ensures Slot(reflect, Slot(reflect, d)) == d
    ensures MaybeReverse(reflect, Word(Slot(reflect, d), 8)) == Word(d, 8)
  {
    assert Pow2(8) == 256;
    var w := MaybeReverse(reflect, Word(d, 8));
    WordOfValue(w);
    ReverseReverse(Word(d, 8));
    ValueOfWord(d, 8);
  }

  /** crc_table_t: the lookup table, computed on the first use only. */
  class CrcTable {
    const poly: Bits
    const reflect: bool
    const table: array<Bits>
    var didInit: bool

    ghost predicate Valid()
      reads this, table
    {
      && |poly| >= 8
      && table.Length == 256
      && (didInit ==> Filled())
    }

    ghost predicate Filled()
      requires |poly| >= 8 && table.Length == 256
      reads table
    {
      forall v :: 0 <= v < 256 ==> table[v] == TableEntry(poly, reflect, Word(v, 8))
    }

    constructor (poly: Bits, reflect: bool)
      requires |poly| >= 8
      ensures Valid() && this.poly == poly && this.reflect == reflect && !didInit && fresh(table)
    {
      this.poly, this.reflect := poly, reflect;
      table := new Bits[256](_ => Zero(|poly|));
      didInit := false;
    }

    /** One dividend byte divided by the polynomial. */
    method DivideByte(dividend: Octet) returns (remainder: Bits)
      requires |poly| >= 8
      ensures remainder == Feed(poly, Zero(|poly|), dividend)
    {
      remainder := Zero(|poly|);
      for mask := 0 to 8
        invariant |remainder| == |poly|
        invariant remainder == Feed(poly, Zero(|poly|), dividend[..mask])
      {
        assert dividend[..mask + 1][..mask] == dividend[..mask];
        remainder := DivideBit(remainder, dividend[mask]);
      }
      assert dividend[..8] == dividend;
    }

    /** One bit of the dividend. */
    method DivideBit(remainder0: Bits, bit: bool) returns (remainder: Bits)
      requires |poly| == |remainder0| > 0
      ensures remainder == Step(poly, remainder0, bit)
    {
      remainder := remainder0;
      if bit {
        remainder := remainder[0 := !remainder[0]];
      }
      FlipTop(remainder0, bit);
      if remainder[0] {
        remainder := ShiftLeft(remainder, 1);
        remainder := Xor(remainder, poly);
      } else {
        remainder := ShiftLeft(remainder, 1);
      }
    }

    /** The slots of all dividends below n hold their entries. */
    ghost predicate FilledBelow(n: nat)
      requires |poly| >= 8 && table.Length == 256
      reads table
    {
      forall v :: 0 <= v < 256 && Slot(reflect, v) < n ==> table[v] == TableEntry(poly, reflect, Word(v, 8))
    }

    method FillSlot(dividend: nat)
      requires |poly| >= 8 && table.Length == 256
      requires dividend < 256 && FilledBelow(dividend)
      modifies table
      ensures FilledBelow(dividend + 1)
    {
      var d := Word(dividend, 8);
      var remainder := DivideByte(d);
      var entry := ReflectIf(reflect, remainder);
      var slot := ReflectIf(reflect, d);
      SlotInvolution(reflect, dividend);
      var s := Value(slot);
      WordOfValue(slot);
      ReverseReverse(d);
      table[s] := entry;
      forall v | 0 <= v < 256 && Slot(reflect, v) < dividend + 1
        ensures table[v] == TableEntry(poly, reflect, Word(v, 8))
      {
        SlotInvolution(reflect, v);
      }
    }

    method InitTable()
      requires Valid()
      modifies this`didInit, table
      ensures Valid() && didInit && Filled()
    {
      if didInit {
        return;
      }
      var dividend := 0;
      while true
        invariant 0 <= dividend < 256 && FilledBelow(dividend)
        decreases 256 - dividend
      {
        FillSlot(dividend);
        if dividend == 255 {
          break;
        }
        dividend := (dividend + 1) % 256;
      }
      didInit := true;
    }

    method Entry(index: Octet) returns (e: Bits)
      requires Valid() && didInit
      ensures e == TableEntry(poly, reflect, index)
    {
      assert Pow2(8) == 256;
      WordOfValue(index);
      e := table[Value(index)];
    }
  }

  /** crc_optimal: the table-driven machine. */
  class CrcOptimal {
    const p: Params
    const lookup: CrcTable
    var rem: Bits

    ghost predicate Valid()
      reads this, lookup, lookup.table
    {
      && p.Valid() && |rem| == |p.poly|
      && lookup.Valid() && lookup.didInit
      && lookup.poly == p.poly && lookup.reflect == p.reflectIn
    }

    constructor (p: Params, lookup: CrcTable)
      requires p.Valid() && lookup.Valid()
      requires lookup.poly == p.poly && lookup.reflect == p.reflectIn
      modifies lookup`didInit, lookup.table
      ensures Valid() && this.p == p && this.lookup == lookup
      ensures rem == MaybeReverse(p.reflectIn, p.init)
    {
      this.p, this.lookup := p, lookup;
      rem := p.init;
      new;
      rem := ReflectIf(p.reflectIn, p.init);
      lookup.InitTable();
    }

    /** One turn of process_block: look up the outgoing byte, shift, add the entry. */
    method ProcessByte(x: Octet)
      requires Valid()
      modifies this`rem
      ensures Valid() && rem == TableStep(p.poly, p.reflectIn, old(rem), x)
    {
      var n := |rem|;
      var byteIndex := Xor(x, if p.reflectIn then rem[n - 8..] else rem[..8]);
      rem := if p.reflectIn then ShiftRight(rem, 8) else ShiftLeft(rem, 8);
      var entry := lookup.Entry(byteIndex);
      rem := Xor(rem, entry);
    }

    /** The loop keeps the register equal to the reflected bit-serial one. */
    method ProcessBlock(msg: seq<Octet>, ghost basic: Bits)
      requires Valid() && |basic| == |p.poly|
      requires rem == MaybeReverse(p.reflectIn, basic)
      modifies this`rem
      ensures Valid()
      ensures rem == MaybeReverse(p.reflectIn, Feed(p.poly, basic, MessageBits(p.reflectIn, msg)))
    {
      for i := 0 to |msg|
        invariant Valid()
        invariant rem == MaybeReverse(p.reflectIn, Feed(p.poly, basic, MessageBits(p.reflectIn, msg[..i])))
      {
        assert msg[..i + 1][..i] == msg[..i];
        ghost var bits := MessageBits(p.reflectIn, msg[..i]);
        FeedConcat(p.poly, basic, bits, MaybeReverse(p.reflectIn, msg[i]));
        TableStepRefinesFeed(p.poly, p.reflectIn, Feed(p.poly, basic, bits), msg[i]);
        ProcessByte(msg[i]);
      }
      assert msg[..|msg|] == msg;
    }

    method GetChecksum() returns (sum: Bits)
      requires Valid()
      ensures sum == Xor(MaybeReverse(p.reflectRem != p.reflectIn, rem), p.final)
    {
      sum := ReflectIf(p.reflectRem != p.reflectIn, rem);
      sum := Xor(sum, p.final);
    }
  }

  /** boost::crc: the table-driven machine run over one buffer gives CrcSpec.Checksum. */
  method OptimalCrc(p: Params, lookup: CrcTable, msg: seq<Octet>) returns (sum: Bits)
    requires p.Valid() && lookup.Valid()
    requires lookup.poly == p.poly && lookup.reflect == p.reflectIn
    modifies lookup`didInit, lookup.table
    ensures lookup.Valid()
    ensures sum == Checksum(p, msg)
  {
    var computer := new CrcOptimal(p, lookup);
    computer.ProcessBlock(msg, p.init);
    ReverseReverse(Feed(p.poly, p.init, MessageBits(p.reflectIn, msg)));
    sum := computer.GetChecksum();
  }

  /** The bit-at-a-time machine over one buffer gives the same CrcSpec.Checksum. */
  method BasicCrc(p: Params, msg: seq<Octet>) returns (sum: Bits)
    requires p.Valid()
    ensures sum == Checksum(p, msg)
  {
    var computer := new CrcBasic(p);
    computer.ProcessBytes(msg);
    sum := computer.GetChecksum();
  }

  /** augmented_crc: the checksum bytes are part of the message. */
  method AugmentedCrc(lookup: CrcTable, initial: Bits, msg: seq<Octet>) returns (rem: Bits)
    requires lookup.Valid() && !lookup.reflect
    requires |initial| == |lookup.poly|
    modifies lookup`didInit, lookup.table
    ensures lookup.Valid()
    ensures rem == Augmented(lookup.poly, initial, msg)
  {
    rem := initial;
    lookup.InitTable();
    for i := 0 to |msg|
      invariant lookup.Valid() && lookup.didInit
      invariant |rem| == |initial|
      invariant rem == Augmented(lookup.poly, initial, msg[..i])
    {
      assert msg[..i + 1][..i] == msg[..i];
      var byteIndex := rem[..8];
      rem := ShiftLeft(rem, 8);
      rem := rem[..|rem| - 8] + msg[i];
      assert rem == Augmented(lookup.poly, initial, msg[..i])[8..] + msg[i];
      var entry := lookup.Entry(byteIndex);
      rem := Xor(rem, entry);
    }
    assert msg[..|msg|] == msg;
  }
}
