/** Messages as the builder writes them, and the round trip through the reader's grammar. */
module StunMessage {
  import opened Bytes
  import opened StunFormat

  /** An attribute with the value its header announces. */
  datatype Attr = Attr(atype: nat, value: seq<byte>)

  datatype Message = Message(mtype: nat, cls: nat, tid: seq<byte>, attrs: seq<Attr>)
  {
    function Add(a: Attr): Message {
      this.(attrs := attrs + [a])
    }

    /** The limits of the reader. */
    ghost predicate Fits() {
      && mtype < 0x1000 && cls < 4 && |tid| == TRANSACTION_ID_LENGTH
      && |attrs| <= MAX_NUM_ATTRIBUTES
      && |Body(attrs)| <= MAX_MESSAGE_SIZE
      && forall i :: 0 <= i < |attrs| ==> attrs[i].atype < 0x1_0000 && |attrs[i].value| <= MAX_ATTRIBUTE_SIZE
    }
  }

  /** In legacy mode the padding belongs to the value; otherwise it is implied. */
  function WireValue(legacy: bool, data: seq<byte>): (r: seq<byte>)
    ensures |r| <= |data| + 3
  {
    if legacy then data + Zeros(Padding(|data|)) else data
  }

  function AttrBytes(a: Attr): (r: seq<byte>)
    ensures |r| == 4 + |a.value| + Padding(|a.value|)
  {
    Be16(a.atype) + Be16(|a.value|) + a.value + Zeros(Padding(|a.value|))
  }

  function Body(attrs: seq<Attr>): (r: seq<byte>)
    ensures |r| % 4 == 0
  {
    if attrs == [] then [] else Body(attrs[..|attrs| - 1]) + AttrBytes(attrs[|attrs| - 1])
  }

  /** The message with a given content of its length field. */
  function MessageBytes(m: Message, length: nat): (r: seq<byte>)
    requires |m.tid| == TRANSACTION_ID_LENGTH
    ensures |r| == HEADER_SIZE + |Body(m.attrs)|
  {
    Be16(TypeField(m.mtype, m.cls)) + Be16(length) + m.tid + Body(m.attrs)
  }

  /** The finished message. */
  function Finished(m: Message): (r: seq<byte>)
    requires |m.tid| == TRANSACTION_ID_LENGTH
  {
    MessageBytes(m, |Body(m.attrs)|)
  }

  /** FixLengthField: the length field, patched in place. */
  function Patch(s: seq<byte>): (r: seq<byte>)
    requires |s| >= HEADER_SIZE
    ensures |r| == |s|
  {
    s[..2] + Be16(|s| - HEADER_SIZE) + s[4..]
  }

  lemma BodyAdd(attrs: seq<Attr>, a: Attr)
    ensures Body(attrs + [a]) == Body(attrs) + AttrBytes(a)
  {
    BodyLast(attrs + [a], attrs);
  }

  lemma BodyLast(all: seq<Attr>, init: seq<Attr>)
    requires |all| == |init| + 1 && all[..|init|] == init
    ensures Body(all) == Body(init) + AttrBytes(all[|init|])
  {}

  lemma MessageAdd(m: Message, length: nat, a: Attr)
    requires |m.tid| == TRANSACTION_ID_LENGTH
    ensures MessageBytes(m, length) + AttrBytes(a) == MessageBytes(m.Add(a), length)
  {
    BodyAdd(m.attrs, a);
  }

  lemma PatchFinishes(m: Message, length: nat)
    requires |m.tid| == TRANSACTION_ID_LENGTH
    ensures Patch(MessageBytes(m, length)) == Finished(m)
  {}

  // ---- the round trip ----------------------------------------------------------------

  /** What the reader records for these attributes. */
  function Placement(attrs: seq<Attr>): (r: seq<StunAttribute>)
    ensures |r| == |attrs|
    ensures forall i :: 0 <= i < |r| ==> r[i].attributeType == attrs[i].atype && r[i].size == |attrs[i].value|
  {
    if attrs == [] then []
    else
      var n := |attrs| - 1;
      var a := attrs[n];
      Placement(attrs[..n]) + [StunAttribute(a.atype, |a.value|, HEADER_SIZE + |Body(attrs[..n])| + 4)]
  }

  /** The recorded attribute lies within the message and has this value. */
  predicate Holds(s: seq<byte>, p: StunAttribute, value: seq<byte>) {
    p.offset + p.size <= |s| && ValueOf(s, p) == value
  }

  lemma {:induction false} PlacementTiles(s: seq<byte>, attrs: seq<Attr>)
    requires HEADER_SIZE + |Body(attrs)| <= |s|
    requires s[HEADER_SIZE..HEADER_SIZE + |Body(attrs)|] == Body(attrs)
    requires forall i :: 0 <= i < |attrs| ==> attrs[i].atype < 0x1_0000 && |attrs[i].value| <= MAX_ATTRIBUTE_SIZE
    ensures Tiles(s, Placement(attrs), HEADER_SIZE + |Body(attrs)|)
    decreases |attrs|
  {
    if attrs != [] {
      var n := |attrs| - 1;
      Halves(s, HEADER_SIZE, Body(attrs[..n]), AttrBytes(attrs[n]));
      PlacementTiles(s, attrs[..n]);
      PlacementNext(s, Placement(attrs[..n]), HEADER_SIZE + |Body(attrs[..n])|, attrs[n]);
    }
  }

  lemma {:induction false} PlacementHolds(s: seq<byte>, attrs: seq<Attr>)
    requires HEADER_SIZE + |Body(attrs)| <= |s|
    requires s[HEADER_SIZE..HEADER_SIZE + |Body(attrs)|] == Body(attrs)
    requires forall i :: 0 <= i < |attrs| ==> attrs[i].atype < 0x1_0000 && |attrs[i].value| <= MAX_ATTRIBUTE_SIZE
    ensures forall i :: 0 <= i < |attrs| ==> Holds(s, Placement(attrs)[i], attrs[i].value)
    decreases |attrs|
  {
    if attrs != [] {
      var n := |attrs| - 1;
      Halves(s, HEADER_SIZE, Body(attrs[..n]), AttrBytes(attrs[n]));
      PlacementHolds(s, attrs[..n]);
      AttrAt(s, HEADER_SIZE + |Body(attrs[..n])|, attrs[n]);
    }
  }

  lemma PlacementNext(s: seq<byte>, p: seq<StunAttribute>, at: nat, a: Attr)
    requires Tiles(s, p, at)
    requires a.atype < 0x1_0000 && |a.value| <= MAX_ATTRIBUTE_SIZE
    requires at + |AttrBytes(a)| <= |s| && s[at..at + |AttrBytes(a)|] == AttrBytes(a)
    ensures var next := StunAttribute(a.atype, |a.value|, at + 4);
      Tiles(s, p + [next], at + |AttrBytes(a)|)
  {
    AttrAt(s, at, a);
    TilesAdd(s, p, at, StunAttribute(a.atype, |a.value|, at + 4));
  }

  lemma AttrAt(s: seq<byte>, at: nat, a: Attr)
    requires a.atype < 0x1_0000 && |a.value| < 0x1_0000
    requires at + |AttrBytes(a)| <= |s| && s[at..at + |AttrBytes(a)|] == AttrBytes(a)
    ensures U16(s, at) == a.atype && U16(s, at + 2) == |a.value|
    ensures s[at + 4..at + 4 + |a.value|] == a.value
  {
    var r, n := AttrBytes(a), |a.value|;
    SliceOfSlice(s, at, at + |r|, 0, 2);
    SliceOfSlice(s, at, at + |r|, 2, 4);
    SliceOfSlice(s, at, at + |r|, 4, 4 + n);
    assert r[0..2] == Be16(a.atype) && r[2..4] == Be16(n) && r[4..4 + n] == a.value;
    U16Be16(a.atype);
    U16Be16(|a.value|);
    assert Be16(a.atype)[0..2] == Be16(a.atype) && Be16(|a.value|)[0..2] == Be16(|a.value|);
    U16At(s, at, Be16(a.atype), 0);
    U16At(s, at + 2, Be16(|a.value|), 0);
  }

  /** Every message within the limits is accepted, and everything in it comes back. */
  lemma RoundTrip(allowLegacy: bool, m: Message)
    requires m.Fits()
    requires allowLegacy || U32(m.tid, 0) == COOKIE
    ensures var s, p := Finished(m), Placement(m.attrs);
      && Grammar(allowLegacy, s, p)
      && StateAfter(allowLegacy, s) == BodyValidated
      && NormalizedType(s) == m.mtype && ClassOf(s) == m.cls
      && s[4..HEADER_SIZE] == m.tid
      && forall i :: 0 <= i < |m.attrs| ==>
        p[i].attributeType == m.attrs[i].atype && Holds(s, p[i], m.attrs[i].value)
  {
    var s, body := Finished(m), Body(m.attrs);
    HeaderRoundTrip(m, |body|);
    assert s[HEADER_SIZE..HEADER_SIZE + |body|] == body;
    PlacementTiles(s, m.attrs);
    PlacementHolds(s, m.attrs);
    assert Grammar(allowLegacy, s, Placement(m.attrs));
  }

  lemma HeaderRoundTrip(m: Message, length: nat)
    requires m.mtype < 0x1000 && m.cls < 4 && |m.tid| == TRANSACTION_ID_LENGTH && length < 0x1_0000
    ensures var s := MessageBytes(m, length);
      && U16(s, 0) < 0x4000 && U16(s, 2) == length
      && NormalizedType(s) == m.mtype && ClassOf(s) == m.cls
      && s[4..HEADER_SIZE] == m.tid && U32(s, 4) == U32(m.tid, 0)
  {
    var s := MessageBytes(m, length);
    var f := TypeField(m.mtype, m.cls);
    HeaderParts(Be16(f), Be16(length), m.tid, Body(m.attrs));
    U16Be16(f);
    U16Be16(length);
    TypeFieldRoundTrip(m.mtype, m.cls, s);
  }

  lemma HeaderParts(t: seq<byte>, l: seq<byte>, id: seq<byte>, rest: seq<byte>)
    requires |t| == |l| == 2 && |id| == TRANSACTION_ID_LENGTH
    ensures var s := t + l + id + rest;
      && U16(s, 0) == U16(t, 0) && U16(s, 2) == U16(l, 0)
      && s[4..HEADER_SIZE] == id && U32(s, 4) == U32(id, 0)
  {
    var s := t + l + id + rest;
    assert s[4..HEADER_SIZE] == id;
    U16At(s, 4, id, 0);
    U16At(s, 6, id, 2);
  }

  // ---- message integrity and fingerprint ------------------------------------------------

  type Digest = s: seq<byte> | |s| == 20 witness Zeros(20)
  type KeyHash = s: seq<byte> | |s| == 16 witness Zeros(16)

  type Checksum = s: seq<byte> | |s| == 4 witness Zeros(4)

  /** HMAC-SHA1, MD5 and the fingerprint checksum: here, any functions of these lengths. */
  datatype Crypto = Crypto(
    hmac: (seq<byte>, seq<byte>) -> Digest,
    md5: seq<byte> -> KeyHash,
    fingerprint: seq<byte> -> Checksum)

  function IntegrityAttr(mac: Digest): Attr {
    Attr(MESSAGEINTEGRITY, mac)
  }

  function FingerprintAttr(value: Checksum): Attr {
    Attr(FINGERPRINT, value)
  }

  /** AddMessageIntegrityImpl: append a zero digest, patch the length, then hash all that
      precedes the attribute into it. */
  function AddIntegrity(c: Crypto, s: seq<byte>, key: seq<byte>): seq<byte> {
    var p := Patch(s + AttrBytes(IntegrityAttr(Zeros(20))));
    p[..|p| - 20] + c.hmac(key, p[..|p| - 24])
  }

  /** AddFingerprintAttribute: append a zero value, patch the length, then put the
      checksum of all that precedes the attribute into it. */
  function AddFingerprint(c: Crypto, s: seq<byte>): seq<byte>
    requires |s| + 8 >= HEADER_SIZE
  {
    FillFingerprint(c, Patch(s + AttrBytes(FingerprintAttr(Zeros(4)))))
  }

  /** The checksum of all but the last eight bytes takes the place of the last four. */
  function FillFingerprint(c: Crypto, p: seq<byte>): seq<byte>
    requires |p| >= 8
  {
    p[..|p| - 4] + c.fingerprint(p[..|p| - 8])
  }

  /** Replacing a zero value at the end of the message by another of its size. */
  lemma FillLast(m: Message, length: nat, t: nat, value: seq<byte>)
    requires |m.tid| == TRANSACTION_ID_LENGTH && |value| % 4 == 0
    ensures var p, n := MessageBytes(m.Add(Attr(t, Zeros(|value|))), length), |value|;
      && |p| == HEADER_SIZE + |Body(m.attrs)| + 4 + n
      && p[..|p| - n - 4] == MessageBytes(m, length)
      && p[..|p| - n] + value == MessageBytes(m.Add(Attr(t, value)), length)
  {
    MessageAdd(m, length, Attr(t, Zeros(|value|)));
    MessageAdd(m, length, Attr(t, value));
    var head, n := MessageBytes(m, length), |value|;
    assert AttrBytes(Attr(t, value)) == Be16(t) + Be16(n) + value;
    assert AttrBytes(Attr(t, Zeros(n))) == Be16(t) + Be16(n) + Zeros(n);
    var p := head + (Be16(t) + Be16(n) + Zeros(n));
    assert p[..|p| - n] == head + (Be16(t) + Be16(n));
  }

  /** The message the builder has after adding a message integrity attribute. */
  function WithIntegrity(c: Crypto, m: Message, key: seq<byte>): Message
    requires |m.tid| == TRANSACTION_ID_LENGTH
  {
    m.Add(IntegrityAttr(c.hmac(key, MessageBytes(m, |Body(m.attrs)| + 24))))
  }

  function WithFingerprint(c: Crypto, m: Message): Message
    requires |m.tid| == TRANSACTION_ID_LENGTH
  {
    m.Add(FingerprintAttr(c.fingerprint(MessageBytes(m, |Body(m.attrs)| + 8))))
  }

  lemma AddIntegrityIs(c: Crypto, m: Message, length: nat, key: seq<byte>)
    requires |m.tid| == TRANSACTION_ID_LENGTH
    ensures AddIntegrity(c, MessageBytes(m, length), key) == Finished(WithIntegrity(c, m, key))
  {
    var n := |Body(m.attrs)| + 24;
    var zero := m.Add(IntegrityAttr(Zeros(20)));
    MessageAdd(m, length, IntegrityAttr(Zeros(20)));
    BodyAdd(m.attrs, IntegrityAttr(Zeros(20)));
    PatchFinishes(zero, length);
    var mac := c.hmac(key, MessageBytes(m, n));
    FillLast(m, n, MESSAGEINTEGRITY, mac);
    BodyAdd(m.attrs, IntegrityAttr(mac));
  }

  lemma AddFingerprintIs(c: Crypto, m: Message, length: nat)
    requires |m.tid| == TRANSACTION_ID_LENGTH
    ensures AddFingerprint(c, MessageBytes(m, length)) == Finished(WithFingerprint(c, m))
  {
    var n := |Body(m.attrs)| + 8;
    var zero := m.Add(FingerprintAttr(Zeros(4)));
    MessageAdd(m, length, FingerprintAttr(Zeros(4)));
    BodyAdd(m.attrs, FingerprintAttr(Zeros(4)));
    PatchFinishes(zero, length);
    var value := c.fingerprint(MessageBytes(m, n));
    FillLast(m, n, FINGERPRINT, value);
    BodyAdd(m.attrs, FingerprintAttr(value));
  }
}
