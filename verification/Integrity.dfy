/** The reader's two trailer checks, and why what the builder appends passes them although
    the length field changes after the digest has been taken.
 */
module Integrity {
  import opened Bytes
  import opened AssocList
  import opened StunFormat
  import opened StunMessage

  /** The attribute table: one entry per attribute, keyed by type, in message order. */
  function Table(attrs: seq<StunAttribute>): (r: seq<(nat, StunAttribute)>)
    ensures |r| == |attrs|
    ensures forall i :: 0 <= i < |r| ==> r[i] == (attrs[i].attributeType, attrs[i])
  {
    seq(|attrs|, i requires 0 <= i < |attrs| => (attrs[i].attributeType, attrs[i]))
  }

  /** The last attribute of a type, or -1. */
  function Find(attrs: seq<StunAttribute>, t: nat): (i: int)
    ensures -1 <= i < |attrs|
    ensures i >= 0 ==> attrs[i].attributeType == t
    ensures forall j :: i < j < |attrs| ==> attrs[j].attributeType != t
  {
    LastIndex(Table(attrs), t)
  }

  lemma FindIs(attrs: seq<StunAttribute>, t: nat, i: int)
    requires -1 <= i < |attrs|
    requires i >= 0 ==> attrs[i].attributeType == t
    requires forall j :: i < j < |attrs| ==> attrs[j].attributeType != t
    ensures Find(attrs, t) == i
  {
    LastIndexIs(Table(attrs), t, i);
  }

  /** What the digest covers: everything before the attribute, with the length field as it
      was when the digest was taken, that is without a fingerprint that came later. */
  function Covered(s: seq<byte>, offset: nat, beforeFingerprint: bool): seq<byte>
    requires HEADER_SIZE + 4 <= offset <= |s|
  {
    var length := if beforeFingerprint then (U16(s, 2) - 8) % 0x1_0000 else U16(s, 2);
    s[..2] + Be16(length) + s[4..offset - 4]
  }

  /** ValidateMessageIntegrity, on a message with these attributes. */
  predicate IntegrityValid(c: Crypto, s: seq<byte>, attrs: seq<StunAttribute>, key: seq<byte>) {
    var mi, fp, last := Find(attrs, MESSAGEINTEGRITY), Find(attrs, FINGERPRINT), |attrs| - 1;
    && mi != -1
    && key != []
    && attrs[mi].size == 20
    && (mi == last || (mi == last - 1 && fp == last))
    && HEADER_SIZE + 4 <= attrs[mi].offset && attrs[mi].offset + 20 <= |s|
    && ValueOf(s, attrs[mi]) == c.hmac(key, Covered(s, attrs[mi].offset, mi == last - 1))
  }

  /** IsFingerprintAttributeValid, on a message with these attributes. */
  predicate FingerprintValid(c: Crypto, s: seq<byte>, attrs: seq<StunAttribute>) {
    var fp := Find(attrs, FINGERPRINT);
    && fp != -1
    && attrs[fp].size == 4
    && HEADER_SIZE <= attrs[fp].offset && attrs[fp].offset + 4 <= |s|
    && ValueOf(s, attrs[fp]) == c.fingerprint(s[..|s| - 8])
  }

  lemma PlacementAdd(attrs: seq<Attr>, a: Attr)
    ensures Placement(attrs + [a])
         == Placement(attrs) + [StunAttribute(a.atype, |a.value|, HEADER_SIZE + |Body(attrs)| + 4)]
  {
    PlacementLast(attrs + [a], attrs);
  }

  lemma PlacementLast(all: seq<Attr>, init: seq<Attr>)
    requires |all| == |init| + 1 && all[..|init|] == init
    ensures var a := all[|init|];
      Placement(all) == Placement(init) + [StunAttribute(a.atype, |a.value|, HEADER_SIZE + |Body(init)| + 4)]
  {}

  /** The last attribute is listed last and found by its type. */
  lemma LastListed(attrs: seq<Attr>, a: Attr)
    ensures var p := Placement(attrs + [a]);
      && |p| == |attrs| + 1
      && Find(p, a.atype) == |attrs|
      && p[..|attrs|] == Placement(attrs)
      && p[|attrs|] == StunAttribute(a.atype, |a.value|, HEADER_SIZE + |Body(attrs)| + 4)
  {
    PlacementAdd(attrs, a);
    FindIs(Placement(attrs + [a]), a.atype, |attrs|);
  }

  /** An attribute of whole words ends the message, preceded by the rest of it. */
  lemma LastBytes(m: Message, a: Attr)
    requires |m.tid| == TRANSACTION_ID_LENGTH && |a.value| % 4 == 0
    ensures var s, n := Finished(m.Add(a)), |a.value|;
      && |s| == HEADER_SIZE + |Body(m.attrs)| + 4 + n
      && s[|s| - n..] == a.value
      && s[..|s| - n - 4] == MessageBytes(m, |Body(m.attrs)| + 4 + n)
  {
    BodyAdd(m.attrs, a);
    WholeWords(a);
    var head := MessageBytes(m, |Body(m.attrs)| + 4 + |a.value|);
    MessageAdd(m, |Body(m.attrs)| + 4 + |a.value|, a);
    Ends(head, Be16(a.atype) + Be16(|a.value|), a.value);
  }

  /** An attribute of whole words has no padding. */
  lemma WholeWords(a: Attr)
    requires |a.value| % 4 == 0
    ensures |AttrBytes(a)| == 4 + |a.value|
    ensures AttrBytes(a) == Be16(a.atype) + Be16(|a.value|) + a.value
  {
    assert Padding(|a.value|) == 0;
  }

  lemma Ends(head: seq<byte>, mid: seq<byte>, value: seq<byte>)
    ensures var s := head + (mid + value);
      s[..|head|] == head && s[|head| + |mid|..] == value
  {}

  /** The fingerprint the builder appends is the one the reader computes. */
  lemma FingerprintAccepted(c: Crypto, m: Message)
    requires |m.tid| == TRANSACTION_ID_LENGTH
    ensures var r := WithFingerprint(c, m);
      FingerprintValid(c, Finished(r), Placement(r.attrs))
  {
    var value := c.fingerprint(MessageBytes(m, |Body(m.attrs)| + 8));
    assert |value| == 4;
    var a := FingerprintAttr(value);
    LastListed(m.attrs, a);
    LastBytes(m, a);
    LastFingerprintIs(c, Finished(m.Add(a)), Placement(m.attrs + [a]));
  }

  lemma LastFingerprintIs(c: Crypto, s: seq<byte>, attrs: seq<StunAttribute>)
    requires attrs != [] && Find(attrs, FINGERPRINT) == |attrs| - 1
    requires var a := attrs[|attrs| - 1]; a.size == 4 && HEADER_SIZE <= a.offset && a.offset + 4 == |s|
    requires |s| >= 8 && s[|s| - 4..] == c.fingerprint(s[..|s| - 8])
    ensures FingerprintValid(c, s, attrs)
  {}

  /** The digest the builder appends is the one the reader computes over what precedes it. */
  lemma IntegrityAccepted(c: Crypto, m: Message, key: seq<byte>)
    requires |m.tid| == TRANSACTION_ID_LENGTH && key != []
    requires |Body(m.attrs)| + 32 < 0x1_0000 && m.mtype < 0x1000 && m.cls < 4
    ensures var r := WithIntegrity(c, m, key);
      IntegrityValid(c, Finished(r), Placement(r.attrs), key)
  {
    DigestAccepted(c, m, key, c.hmac(key, MessageBytes(m, |Body(m.attrs)| + 24)));
  }

  lemma DigestAccepted(c: Crypto, m: Message, key: seq<byte>, mac: Digest)
    requires |m.tid| == TRANSACTION_ID_LENGTH && key != []
    requires |Body(m.attrs)| + 32 < 0x1_0000 && m.mtype < 0x1000 && m.cls < 4
    requires mac == c.hmac(key, MessageBytes(m, |Body(m.attrs)| + 24))
    ensures var r := m.Add(IntegrityAttr(mac)); IntegrityValid(c, Finished(r), Placement(r.attrs), key)
  {
    var a := IntegrityAttr(mac);
    LastListed(m.attrs, a);
    LastDigest(m, mac, |Body(m.attrs)| + 24, Finished(m.Add(a)));
    LastIntegrityIs(c, Finished(m.Add(a)), Placement(m.attrs + [a]), key);
  }

  lemma LastIntegrityIs(c: Crypto, s: seq<byte>, attrs: seq<StunAttribute>, key: seq<byte>)
    requires key != [] && attrs != [] && Find(attrs, MESSAGEINTEGRITY) == |attrs| - 1
    requires var a := attrs[|attrs| - 1]; a.size == 20 && HEADER_SIZE + 4 <= a.offset && a.offset + 20 == |s|
    requires s[|s| - 20..|s|] == c.hmac(key, Covered(s, |s| - 20, false))
    ensures IntegrityValid(c, s, attrs, key)
  {}

  lemma LastDigest(m: Message, mac: Digest, n: nat, s: seq<byte>)
    requires |m.tid| == TRANSACTION_ID_LENGTH && n == |Body(m.attrs)| + 24
    requires n + 8 < 0x1_0000 && m.mtype < 0x1000 && m.cls < 4
    requires s == Finished(m.Add(IntegrityAttr(mac)))
    ensures |s| == n + 20 && s[|s| - 20..|s|] == mac
    ensures Covered(s, |s| - 20, false) == MessageBytes(m, n)
  {
    assert |mac| == 20;
    LastBytes(m, IntegrityAttr(mac));
    CoveredIs(m, n, s, |s| - 20, false);
  }

  /** Undoing the change a fingerprint made to the length field gives back what was hashed. */
  lemma CoveredIs(m: Message, n: nat, s: seq<byte>, offset: nat, beforeFingerprint: bool)
    requires m.mtype < 0x1000 && m.cls < 4 && |m.tid| == TRANSACTION_ID_LENGTH
    requires n + 8 < 0x1_0000
    requires HEADER_SIZE + 4 <= offset <= |s|
    requires s[..offset - 4] == MessageBytes(m, if beforeFingerprint then n + 8 else n)
    ensures Covered(s, offset, beforeFingerprint) == MessageBytes(m, n)
  {
    var k := if beforeFingerprint then n + 8 else n;
    HeaderRoundTrip(m, k);
    CoveredHead(s, offset, beforeFingerprint, n);
    SameButLength(m, k, n);
  }

  lemma CoveredHead(s: seq<byte>, offset: nat, beforeFingerprint: bool, n: nat)
    requires n + 8 < 0x1_0000
    requires HEADER_SIZE + 4 <= offset <= |s|
    requires U16(s[..offset - 4], 2) == if beforeFingerprint then n + 8 else n
    ensures var head := s[..offset - 4];
      Covered(s, offset, beforeFingerprint) == head[..2] + Be16(n) + head[4..]
  {
    var head := s[..offset - 4];
    assert U16(head, 2) == U16(s, 2);
    assert head[..2] == s[..2] && head[4..] == s[4..offset - 4];
  }

  lemma SameButLength(m: Message, k: nat, n: nat)
    requires |m.tid| == TRANSACTION_ID_LENGTH
    ensures var head := MessageBytes(m, k); head[..2] + Be16(n) + head[4..] == MessageBytes(m, n)
  {
    var head := MessageBytes(m, k);
    assert head[4..] == m.tid + Body(m.attrs);
  }

  /** A fingerprint added after the digest makes the reader subtract its eight bytes from
      the length field again, and then the digest still matches. */
  lemma IntegrityStillAccepted(c: Crypto, m: Message, key: seq<byte>, w: Message, r: Message)
    requires |m.tid| == TRANSACTION_ID_LENGTH && key != []
    requires |Body(m.attrs)| + 32 < 0x1_0000 && m.mtype < 0x1000 && m.cls < 4
    requires w == WithIntegrity(c, m, key) && r == WithFingerprint(c, w)
    ensures IntegrityValid(c, Finished(r), Placement(r.attrs), key)
  {
    var n := |Body(m.attrs)| + 24;
    var mac := c.hmac(key, MessageBytes(m, n));
    var value := c.fingerprint(MessageBytes(w, |Body(w.attrs)| + 8));
    NextToLastDigest(m, mac, value, n, Finished(r));
    NextToLastListed(m.attrs, IntegrityAttr(mac), FingerprintAttr(value));
    IntegrityIs(c, Finished(r), Placement(r.attrs), key, |m.attrs|);
  }

  /** The two trailers are listed last, and each is found by its type. */
  lemma NextToLastListed(attrs: seq<Attr>, a: Attr, b: Attr)
    requires a.atype != b.atype
    ensures var p := Placement(attrs + [a] + [b]);
      && |p| == |attrs| + 2 && Find(p, a.atype) == |attrs| && Find(p, b.atype) == |attrs| + 1
      && p[|attrs|] == StunAttribute(a.atype, |a.value|, HEADER_SIZE + |Body(attrs)| + 4)
  {
    LastListed(attrs, a);
    LastListed(attrs + [a], b);
    FindIs(Placement(attrs + [a] + [b]), a.atype, |attrs|);
  }

  lemma IntegrityIs(c: Crypto, s: seq<byte>, attrs: seq<StunAttribute>, key: seq<byte>, i: nat)
    requires key != [] && |attrs| == i + 2
    requires Find(attrs, MESSAGEINTEGRITY) == i && Find(attrs, FINGERPRINT) == i + 1
    requires attrs[i].size == 20 && HEADER_SIZE + 4 <= attrs[i].offset && attrs[i].offset + 28 == |s|
    requires s[|s| - 28..|s| - 8] == c.hmac(key, Covered(s, |s| - 28, true))
    ensures IntegrityValid(c, s, attrs, key)
  {}

  lemma NextToLastDigest(m: Message, mac: Digest, value: Checksum, n: nat, s: seq<byte>)
    requires |m.tid| == TRANSACTION_ID_LENGTH && n == |Body(m.attrs)| + 24
    requires n + 8 < 0x1_0000 && m.mtype < 0x1000 && m.cls < 4
    requires s == Finished(m.Add(IntegrityAttr(mac)).Add(FingerprintAttr(value)))
    ensures |s| == n + 28 && s[|s| - 28..|s| - 8] == mac
    ensures Covered(s, |s| - 28, true) == MessageBytes(m, n)
  {
    assert |mac| == 20 && |value| == 4;
    var a := IntegrityAttr(mac);
    BodyAdd(m.attrs, a);
    LastBytes(m.Add(a), FingerprintAttr(value));
    MiddleBytes(m, a, s, n + 8);
    CoveredIs(m, n, s, |s| - 28, true);
  }

  /** An attribute of whole words with one of four bytes behind it. */
  lemma MiddleBytes(m: Message, a: Attr, s: seq<byte>, length: nat)
    requires |m.tid| == TRANSACTION_ID_LENGTH && |a.value| == 20
    requires |s| >= 8 && s[..|s| - 8] == MessageBytes(m.Add(a), length)
    ensures |s| == HEADER_SIZE + |Body(m.attrs)| + 32
    ensures s[..|s| - 32] == MessageBytes(m, length)
    ensures s[|s| - 28..|s| - 8] == a.value
  {
    var head := MessageBytes(m, length);
    MessageAdd(m, length, a);
    assert AttrBytes(a) == Be16(a.atype) + Be16(20) + a.value;
    var t := head + (Be16(a.atype) + Be16(20) + a.value);
    assert s[..|s| - 8] == t;
    assert t[..|head|] == head && t[|head| + 4..] == a.value;
    SliceOfSlice(s, 0, |s| - 8, 0, |head|);
    SliceOfSlice(s, 0, |s| - 8, |head| + 4, |t|);
  }

  /** The whole promise: a message within the reader's limits, closed with a message
      integrity attribute and, if wanted, a fingerprint, is accepted by the reader and
      passes both checks, for any digest and checksum functions and any key. */
  lemma TrailersAccepted(c: Crypto, allowLegacy: bool, m: Message, length: nat, key: seq<byte>, fingerprint: bool)
    requires key != []
    requires |m.tid| == TRANSACTION_ID_LENGTH && (allowLegacy || U32(m.tid, 0) == COOKIE)
    requires var w := WithIntegrity(c, m, key);
      (if fingerprint then WithFingerprint(c, w) else w).Fits()
    ensures var s1 := AddIntegrity(c, MessageBytes(m, length), key);
      var s := if fingerprint then AddFingerprint(c, s1) else s1;
      exists attrs :: Grammar(allowLegacy, s, attrs)
        && IntegrityValid(c, s, attrs, key) && (fingerprint ==> FingerprintValid(c, s, attrs))
  {
    var w := WithIntegrity(c, m, key);
    AddIntegrityIs(c, m, length, key);
    BodyAdd(m.attrs, w.attrs[|m.attrs|]);
    if fingerprint {
      var r := WithFingerprint(c, w);
      AddFingerprintIs(c, w, |Body(w.attrs)|);
      BodyAdd(w.attrs, r.attrs[|w.attrs|]);
      FingerprintAccepted(c, w);
      IntegrityStillAccepted(c, m, key, w, r);
      RoundTrip(allowLegacy, r);
    } else {
      IntegrityAccepted(c, m, key);
      RoundTrip(allowLegacy, w);
    }
  }
}
