/** What the reader accepts is exactly what the builder can write: the converse of the round
    trip. Only the padding of a message may differ, which the reader does not look at.
 */
module Acceptance {
  import opened Bytes
  import opened StunFormat
  import opened StunMessage
  import opened StunQuery
  import I = Integrity

  /** The message that these bytes are, read with these attributes. */
  function MessageOf(s: seq<byte>, attrs: seq<StunAttribute>): (m: Message)
    requires Within(s, attrs)
    ensures |m.tid| == TRANSACTION_ID_LENGTH && |m.attrs| == |attrs|
  {
    Message(NormalizedType(s), ClassOf(s), s[4..HEADER_SIZE], Values(s, attrs))
  }

  function Values(s: seq<byte>, attrs: seq<StunAttribute>): (r: seq<Attr>)
    requires Within(s, attrs)
    ensures |r| == |attrs|
    ensures forall i :: 0 <= i < |r| ==> r[i] == Attr(attrs[i].attributeType, ValueOf(s, attrs[i]))
  {
    seq(|attrs|, i requires 0 <= i < |attrs| => Attr(attrs[i].attributeType, ValueOf(s, attrs[i])))
  }

  /** Byte k is padding behind the value of attribute i. */
  predicate PaddingOf(attrs: seq<StunAttribute>, i: nat, k: nat)
    requires i < |attrs|
  {
    attrs[i].offset + attrs[i].size <= k < Start(attrs, i + 1)
  }

  predicate InPadding(attrs: seq<StunAttribute>, k: nat) {
    exists i :: 0 <= i < |attrs| && PaddingOf(attrs, i, k)
  }

  /** Two messages that differ at most in the padding of these attributes. */
  predicate SameButPadding(s: seq<byte>, t: seq<byte>, attrs: seq<StunAttribute>) {
    |s| == |t| && forall k :: 0 <= k < |s| && s[k] != t[k] ==> InPadding(attrs, k)
  }

  predicate ZeroPadded(s: seq<byte>, attrs: seq<StunAttribute>) {
    forall k :: 0 <= k < |s| && InPadding(attrs, k) ==> s[k] == 0
  }

  /** r is s with zeros in the padding. */
  ghost predicate Cleared(s: seq<byte>, r: seq<byte>, attrs: seq<StunAttribute>) {
    SameButPadding(s, r, attrs) && ZeroPadded(r, attrs) && (ZeroPadded(s, attrs) <==> s == r)
  }

  // ---- from bytes to a message ------------------------------------------------------------

  /** A type field without the two top bits is spread from its type and class. */
  lemma FieldComesBack(s: seq<byte>)
    requires |s| >= 2 && U16(s, 0) < 0x4000
    ensures NormalizedType(s) < 0x1000 && ClassOf(s) < 4
    ensures TypeField(NormalizedType(s), ClassOf(s)) == U16(s, 0)
  {
    SpreadAgain(U16(s, 0), NormalizedType(s), ClassOf(s));
  }

  lemma SpreadAgain(f: nat, t: nat, cls: nat)
    requires f < 0x4000
    requires t == f % 0x10 + f / 0x20 % 8 * 0x10 + f / 0x200 % 0x20 * 0x80
    requires cls == f / 0x100 % 2 * 2 + f / 0x10 % 2
    ensures t < 0x1000 && cls < 4 && TypeField(t, cls) == f
  {
    FieldSplits(f);
    PartsBack(t, f / 0x200, f / 0x20 % 8, f % 0x10);
    ClassBack(cls, f / 0x100 % 2, f / 0x10 % 2);
  }

  lemma ClassBack(cls: nat, c1: nat, c0: nat)
    requires cls == 2 * c1 + c0 && c1 < 2 && c0 < 2
    ensures cls / 2 % 2 == c1 && cls % 2 == c0
  {}

  lemma FieldSplits(f: nat)
    requires f < 0x4000
    ensures var a, c1, b, c0, d := f / 0x200, f / 0x100 % 2, f / 0x20 % 8, f / 0x10 % 2, f % 0x10;
      f == 0x200 * a + 0x100 * c1 + 0x20 * b + 0x10 * c0 + d && a < 0x20
  {
    var u, v, w := f / 0x10, f / 0x20, f / 0x100;
    assert u / 2 == v && v / 8 == w && w / 2 == f / 0x200;
  }

  lemma PartsBack(t: nat, a: nat, b: nat, d: nat)
    requires t == 0x80 * a + 0x10 * b + d && a < 0x20 && b < 8 && d < 0x10
    ensures t / 0x80 % 0x20 == a && t / 0x10 % 8 == b && t % 0x10 == d
  {}

  lemma HeaderComesBack(s: seq<byte>)
    requires |s| >= HEADER_SIZE && U16(s, 0) < 0x4000
    ensures Be16(TypeField(NormalizedType(s), ClassOf(s))) + Be16(U16(s, 2)) + s[4..HEADER_SIZE] == s[..HEADER_SIZE]
  {
    FieldComesBack(s);
    Be16U16(s, 0);
    Be16U16(s, 2);
    Pieces(s, 2, 4, HEADER_SIZE);
  }

  lemma Pieces(s: seq<byte>, a: nat, b: nat, c: nat)
    requires a <= b <= c <= |s|
    ensures s[0..a] + s[a..b] + s[b..c] == s[..c]
  {}

  /** The first i attributes are those of the first i values, and their bytes agree with the
      message except in the padding. */
  lemma {:induction false} BodyComesBack(s: seq<byte>, attrs: seq<StunAttribute>, i: nat)
    requires Tiles(s, attrs, |s|) && Within(s, attrs) && i <= |attrs|
    ensures var v := Values(s, attrs)[..i];
      && Start(attrs, i) == HEADER_SIZE + |Body(v)| <= |s|
      && Placement(v) == attrs[..i]
      && Agrees(s, attrs, Body(v))
    decreases i
  {
    if i > 0 {
      BodyComesBack(s, attrs, i - 1);
      PrefixOfPrefix(Values(s, attrs), i - 1);
      assert Placed(s, attrs, i - 1);
      NextComesBack(s, attrs, i - 1, Values(s, attrs)[..i - 1], Values(s, attrs)[..i]);
    }
  }

  /** These bytes are those behind the header, except in the padding, and there they are zero. */
  ghost predicate Agrees(s: seq<byte>, attrs: seq<StunAttribute>, body: seq<byte>) {
    && HEADER_SIZE + |body| <= |s|
    && forall k :: 0 <= k < |body| ==> AgreesAt(s, attrs, HEADER_SIZE + k, body[k])
  }

  predicate AgreesAt(s: seq<byte>, attrs: seq<StunAttribute>, k: nat, b: byte)
    requires k < |s|
  {
    b == if InPadding(attrs, k) then 0 else s[k]
  }

  lemma AgreesMore(s: seq<byte>, attrs: seq<StunAttribute>, body: seq<byte>, more: seq<byte>)
    requires Agrees(s, attrs, body) && HEADER_SIZE + |body| + |more| <= |s|
    requires forall k :: 0 <= k < |more| ==> AgreesAt(s, attrs, HEADER_SIZE + |body| + k, more[k])
    ensures Agrees(s, attrs, body + more)
  {
    var all := body + more;
    forall k | 0 <= k < |all| ensures AgreesAt(s, attrs, HEADER_SIZE + k, all[k]) {
      if k >= |body| {
        assert AgreesAt(s, attrs, HEADER_SIZE + |body| + (k - |body|), more[k - |body|]);
      }
    }
  }

  lemma NextComesBack(s: seq<byte>, attrs: seq<StunAttribute>, i: nat, init: seq<Attr>, all: seq<Attr>)
    requires Tiles(s, attrs, |s|) && Within(s, attrs) && i < |attrs| && Placed(s, attrs, i)
    requires |all| == |init| + 1 == i + 1 && all[..i] == init
    requires all[i] == Attr(attrs[i].attributeType, ValueOf(s, attrs[i]))
    requires Start(attrs, i) == HEADER_SIZE + |Body(init)| && Placement(init) == attrs[..i]
    requires Agrees(s, attrs, Body(init))
    ensures Start(attrs, i + 1) == HEADER_SIZE + |Body(all)| <= |s|
    ensures Placement(all) == attrs[..i + 1]
    ensures Agrees(s, attrs, Body(all))
  {
    BodyLast(all, init);
    NextPlaced(s, attrs, i, init, all);
    NextAgrees(s, attrs, i, Body(init), AttrBytes(all[i]));
  }

  lemma NextPlaced(s: seq<byte>, attrs: seq<StunAttribute>, i: nat, init: seq<Attr>, all: seq<Attr>)
    requires i < |attrs| && Placed(s, attrs, i) && attrs[i].offset + attrs[i].size <= |s|
    requires |all| == |init| + 1 == i + 1 && all[..i] == init
    requires all[i] == Attr(attrs[i].attributeType, ValueOf(s, attrs[i]))
    requires Start(attrs, i) == HEADER_SIZE + |Body(init)| && Placement(init) == attrs[..i]
    ensures Placement(all) == attrs[..i + 1]
  {
    I.PlacementLast(all, init);
    PrefixNext(attrs, i);
  }

  lemma NextAgrees(s: seq<byte>, attrs: seq<StunAttribute>, i: nat, body: seq<byte>, w: seq<byte>)
    requires Tiles(s, attrs, |s|) && Within(s, attrs) && i < |attrs| && Placed(s, attrs, i)
    requires w == AttrBytes(Attr(attrs[i].attributeType, ValueOf(s, attrs[i])))
    requires Start(attrs, i) == HEADER_SIZE + |body| && Agrees(s, attrs, body)
    ensures Start(attrs, i + 1) == HEADER_SIZE + |body + w| <= |s|
    ensures Agrees(s, attrs, body + w)
  {
    AttrAgrees(s, attrs, i, w);
    AgreesMore(s, attrs, body, w);
  }

  lemma PrefixOfPrefix<T>(s: seq<T>, i: nat)
    requires i < |s|
    ensures s[..i + 1][..i] == s[..i] && s[..i + 1][i] == s[i]
  {}

  lemma PrefixNext<T>(s: seq<T>, i: nat)
    requires i < |s|
    ensures s[..i + 1] == s[..i] + [s[i]]
  {}

  lemma AttrAgrees(s: seq<byte>, attrs: seq<StunAttribute>, i: nat, w: seq<byte>)
    requires Tiles(s, attrs, |s|) && Within(s, attrs) && i < |attrs| && Placed(s, attrs, i)
    requires w == AttrBytes(Attr(attrs[i].attributeType, ValueOf(s, attrs[i])))
    ensures Start(attrs, i) + |w| == Start(attrs, i + 1) <= |s|
    ensures forall k :: 0 <= k < |w| ==> AgreesAt(s, attrs, Start(attrs, i) + k, w[k])
  {
    AttrComesBack(s, attrs, i, 0);
    forall k | 0 <= k < |w| ensures AgreesAt(s, attrs, Start(attrs, i) + k, w[k]) {
      AttrComesBack(s, attrs, i, k);
    }
  }

  /** One attribute, byte by byte. */
  lemma AttrComesBack(s: seq<byte>, attrs: seq<StunAttribute>, i: nat, k: nat)
    requires Tiles(s, attrs, |s|) && Within(s, attrs) && i < |attrs| && Placed(s, attrs, i)
    requires var w := AttrBytes(Attr(attrs[i].attributeType, ValueOf(s, attrs[i]))); k < |w|
    ensures var w := AttrBytes(Attr(attrs[i].attributeType, ValueOf(s, attrs[i])));
      var at := Start(attrs, i);
      && at + |w| == Start(attrs, i + 1) <= |s|
      && (InPadding(attrs, at + k) <==> k >= 4 + attrs[i].size)
      && w[k] == if k >= 4 + attrs[i].size then 0 else s[at + k]
  {
    var at, a := Start(attrs, i), attrs[i];
    Be16U16(s, at);
    Be16U16(s, at + 2);
    OnlyOwnPadding(s, attrs, i, at + k);
    assert PaddingOf(attrs, i, at + k) <==> k >= 4 + a.size;
    AttrByte(Attr(a.attributeType, ValueOf(s, a)), s, at, k);
  }

  lemma AttrByte(a: Attr, s: seq<byte>, at: nat, k: nat)
    requires at + 4 + |a.value| <= |s| && k < |AttrBytes(a)|
    requires Be16(a.atype) == s[at..at + 2] && Be16(|a.value|) == s[at + 2..at + 4]
    requires a.value == s[at + 4..at + 4 + |a.value|]
    ensures AttrBytes(a)[k] == if k >= 4 + |a.value| then 0 else s[at + k]
  {
    var w := AttrBytes(a);
    assert w[..2] == Be16(a.atype) && w[2..4] == Be16(|a.value|) && w[4..4 + |a.value|] == a.value;
    if k < 2 {
      assert w[k] == w[..2][k] == s[at..at + 2][k];
    } else if k < 4 {
      assert w[k] == w[2..4][k - 2] == s[at + 2..at + 4][k - 2];
    } else if k < 4 + |a.value| {
      assert w[k] == w[4..4 + |a.value|][k - 4] == a.value[k - 4];
    }
  }

  /** Between the start of an attribute and the next, only its own padding is padding. */
  lemma OnlyOwnPadding(s: seq<byte>, attrs: seq<StunAttribute>, i: nat, k: nat)
    requires Tiles(s, attrs, |s|) && i < |attrs| && Start(attrs, i) <= k < Start(attrs, i + 1)
    ensures InPadding(attrs, k) <==> PaddingOf(attrs, i, k)
  {
    if j :| 0 <= j < |attrs| && PaddingOf(attrs, j, k) {
      assert Placed(s, attrs, j);
      if j < i {
        BytesBehind(s, attrs, |s|, j + 1, i);
      } else if j > i {
        BytesBehind(s, attrs, |s|, i + 1, j);
      }
    }
  }

  /** Every message the reader accepts is one that the builder writes, but for the padding. */
  lemma AcceptedIsWritten(allowLegacy: bool, s: seq<byte>, attrs: seq<StunAttribute>) returns (m: Message)
    requires Grammar(allowLegacy, s, attrs)
    ensures m.Fits() && (allowLegacy || U32(m.tid, 0) == COOKIE) && Placement(m.attrs) == attrs
    ensures SameButPadding(s, Finished(m), attrs) && ZeroPadded(Finished(m), attrs)
    ensures ZeroPadded(s, attrs) <==> s == Finished(m)
  {
    GrammarWithin(allowLegacy, s, attrs);
    m := MessageOf(s, attrs);
    var all := Values(s, attrs);
    assert all[..|attrs|] == all && attrs[..|attrs|] == attrs;
    BodyComesBack(s, attrs, |attrs|);
    FieldComesBack(s);
    IdComesBack(s);
    forall i | 0 <= i < |attrs| ensures all[i].atype < 0x1_0000 && |all[i].value| <= MAX_ATTRIBUTE_SIZE {
      assert Placed(s, attrs, i);
    }
    WholeComesBack(s, attrs, m);
  }

  lemma IdComesBack(s: seq<byte>)
    requires |s| >= HEADER_SIZE
    ensures U32(s[4..HEADER_SIZE], 0) == U32(s, 4)
  {}

  lemma WholeComesBack(s: seq<byte>, attrs: seq<StunAttribute>, m: Message)
    requires |s| >= HEADER_SIZE && U16(s, 0) < 0x4000 && U16(s, 2) == |s| - HEADER_SIZE == |Body(m.attrs)|
    requires m.mtype == NormalizedType(s) && m.cls == ClassOf(s) && m.tid == s[4..HEADER_SIZE]
    requires Tiles(s, attrs, |s|) && Agrees(s, attrs, Body(m.attrs))
    ensures Cleared(s, Finished(m), attrs)
  {
    HeaderUnpadded(s, attrs);
    HeadOf(s, m);
    AgreesAll(s, attrs, s[..HEADER_SIZE], Body(m.attrs));
  }

  lemma HeadOf(s: seq<byte>, m: Message)
    requires |s| >= HEADER_SIZE && U16(s, 0) < 0x4000 && U16(s, 2) == |Body(m.attrs)|
    requires m.mtype == NormalizedType(s) && m.cls == ClassOf(s) && m.tid == s[4..HEADER_SIZE]
    ensures Finished(m) == s[..HEADER_SIZE] + Body(m.attrs)
  {
    HeaderComesBack(s);
    FinishedIs(m);
  }

  lemma HeaderUnpadded(s: seq<byte>, attrs: seq<StunAttribute>)
    requires Tiles(s, attrs, |s|)
    ensures forall k :: 0 <= k < HEADER_SIZE ==> !InPadding(attrs, k)
  {
    forall k | 0 <= k < HEADER_SIZE ensures !InPadding(attrs, k) {
      HeaderIsNoPadding(s, attrs, k);
    }
  }

  lemma FinishedIs(m: Message)
    requires |m.tid| == TRANSACTION_ID_LENGTH
    ensures Finished(m) == Be16(TypeField(m.mtype, m.cls)) + Be16(|Body(m.attrs)|) + m.tid + Body(m.attrs)
  {}

  lemma AgreesAll(s: seq<byte>, attrs: seq<StunAttribute>, head: seq<byte>, body: seq<byte>)
    requires |s| == HEADER_SIZE + |body| && head == s[..HEADER_SIZE] && Agrees(s, attrs, body)
    requires forall k :: 0 <= k < HEADER_SIZE ==> !InPadding(attrs, k)
    ensures Cleared(s, head + body, attrs)
  {
    var r := head + body;
    forall k | 0 <= k < |s| ensures AgreesAt(s, attrs, k, r[k]) {
      if k >= HEADER_SIZE {
        assert AgreesAt(s, attrs, HEADER_SIZE + (k - HEADER_SIZE), body[k - HEADER_SIZE]);
      }
    }
  }

  lemma HeaderIsNoPadding(s: seq<byte>, attrs: seq<StunAttribute>, k: nat)
    requires Tiles(s, attrs, |s|) && k < HEADER_SIZE
    ensures !InPadding(attrs, k)
  {
    if j :| 0 <= j < |attrs| && PaddingOf(attrs, j, k) {
      assert Placed(s, attrs, j);
      BytesBehind(s, attrs, |s|, 0, j);
    }
  }

  // ---- and back ---------------------------------------------------------------------------

  /** What differs from an accepted message only in the padding is accepted with the same
      attributes. */
  lemma PaddingIsNotRead(allowLegacy: bool, t: seq<byte>, s: seq<byte>, attrs: seq<StunAttribute>)
    requires Grammar(allowLegacy, t, attrs) && SameButPadding(s, t, attrs)
    ensures Grammar(allowLegacy, s, attrs)
  {
    forall k | 0 <= k < HEADER_SIZE ensures s[k] == t[k] {
      HeaderIsNoPadding(t, attrs, k);
    }
    SameHeader(s, t);
    forall i | 0 <= i < |attrs| ensures Placed(s, attrs, i) {
      SamePlace(s, t, attrs, i);
    }
  }

  lemma SameHeader(s: seq<byte>, t: seq<byte>)
    requires |s| >= HEADER_SIZE && |t| >= HEADER_SIZE && forall k :: 0 <= k < HEADER_SIZE ==> s[k] == t[k]
    ensures U16(s, 0) == U16(t, 0) && U16(s, 2) == U16(t, 2) && U32(s, 4) == U32(t, 4)
  {}

  lemma SamePlace(s: seq<byte>, t: seq<byte>, attrs: seq<StunAttribute>, i: nat)
    requires Tiles(t, attrs, |t|) && SameButPadding(s, t, attrs) && i < |attrs|
    ensures Placed(s, attrs, i)
  {
    assert Placed(t, attrs, i);
    var at := Start(attrs, i);
    forall k | at <= k < at + 4 ensures s[k] == t[k] {
      OnlyOwnPadding(t, attrs, i, k);
    }
    assert U16(s, at) == U16(t, at) && U16(s, at + 2) == U16(t, at + 2);
  }

  /** So the reader accepts just the messages within its limits, as the builder writes them,
      with whatever in the padding. */
  lemma AcceptedExactly(allowLegacy: bool, s: seq<byte>, attrs: seq<StunAttribute>)
    ensures Grammar(allowLegacy, s, attrs) <==>
      exists m: Message :: m.Fits() && (allowLegacy || U32(m.tid, 0) == COOKIE)
        && Placement(m.attrs) == attrs && SameButPadding(s, Finished(m), attrs)
  {
    if Grammar(allowLegacy, s, attrs) {
      var m := AcceptedIsWritten(allowLegacy, s, attrs);
      assert m.Fits();
    }
    forall m: Message | m.Fits() && (allowLegacy || U32(m.tid, 0) == COOKIE)
        && Placement(m.attrs) == attrs && SameButPadding(s, Finished(m), attrs)
      ensures Grammar(allowLegacy, s, attrs)
    {
      RoundTrip(allowLegacy, m);
      PaddingIsNotRead(allowLegacy, Finished(m), s, attrs);
    }
  }
}
