/** Where the reader accepts a fingerprint. Whatever the attribute's place, the checksum is
    taken over all of the message but its last eight bytes: these are the attribute itself
    only if it comes last.
 */
module FingerprintPlace {
  import opened Bytes
  import opened StunFormat
  import opened StunMessage
  import opened Integrity

  /** A valid message in which an attribute of four bytes is found as the fingerprint. */
  ghost predicate Fingerprinted(allowLegacy: bool, s: seq<byte>, attrs: seq<StunAttribute>) {
    Grammar(allowLegacy, s, attrs) && Find(attrs, FINGERPRINT) != -1 && attrs[Find(attrs, FINGERPRINT)].size == 4
  }

  /** What is checksummed is what precedes the attribute, if and only if it is the last one.
      One empty attribute behind it adds its own header to that, and anything more adds
      the value that is to be checked. */
  lemma FingerprintCovers(allowLegacy: bool, s: seq<byte>, attrs: seq<StunAttribute>)
    requires Fingerprinted(allowLegacy, s, attrs)
    ensures var fp := Find(attrs, FINGERPRINT);
      var at := attrs[fp].offset - 4;
      var behind := |s| - at - 8;
      && HEADER_SIZE <= at && 0 <= behind && behind % 4 == 0
      && |s| - 8 == at + behind
      && (s[..|s| - 8] == s[..at] <==> fp == |attrs| - 1)
      && (behind == 4 <==> fp == |attrs| - 2 && attrs[fp + 1].size == 0)
      && (fp < |attrs| - 1 && behind != 4 ==> at + 8 <= |s| - 8)
  {
    var fp := Find(attrs, FINGERPRINT);
    var at := attrs[fp].offset - 4;
    InBounds(s, attrs, fp);
    assert Placed(s, attrs, fp) && Start(attrs, fp + 1) == at + 8;
    BytesBehind(s, attrs, |s|, fp + 1, |attrs|);
    if fp < |attrs| - 1 {
      assert Placed(s, attrs, fp + 1);
      BytesBehind(s, attrs, |s|, fp + 2, |attrs|);
      assert |s[..|s| - 8]| != |s[..at]|;
    }
  }

  /** The reader's verdict is that of RFC 5389 section 15.5, a checksum of what precedes the
      attribute, for every checksum function, if and only if the attribute is the last one. */
  lemma VerdictExact(allowLegacy: bool, s: seq<byte>, attrs: seq<StunAttribute>)
    requires Fingerprinted(allowLegacy, s, attrs)
    ensures var a := attrs[Find(attrs, FINGERPRINT)];
      && HEADER_SIZE + 4 <= a.offset && a.offset + 4 <= |s|
      && ((forall c: Crypto :: FingerprintValid(c, s, attrs) <==> ValueOf(s, a) == c.fingerprint(s[..a.offset - 4]))
          <==> Find(attrs, FINGERPRINT) == |attrs| - 1)
  {
    FingerprintCovers(allowLegacy, s, attrs);
    var fp := Find(attrs, FINGERPRINT);
    var a := attrs[fp];
    if fp != |attrs| - 1 {
      var before := s[..a.offset - 4];
      var v: Checksum := ValueOf(s, a);
      var w: Checksum := v[0 := if v[0] == 0 then 1 else 0];
      var c := Crypto((k, x) => Zeros(20), x => Zeros(16), x => if x == before then v else w);
      assert c.fingerprint(before) == v && c.fingerprint(s[..|s| - 8]) == w;
      assert !FingerprintValid(c, s, attrs);
    }
  }

  /** A message with a fingerprint that one empty attribute follows. */
  function Followed(m: Message, value: Checksum, t: nat): Message {
    m.Add(FingerprintAttr(value)).Add(Attr(t, []))
  }

  /** Every message can be given a fingerprint that is not its last attribute and that the
      reader accepts all the same. */
  lemma EarlyFingerprintAccepted(c: Crypto, allowLegacy: bool, m: Message, t: nat) returns (value: Checksum)
    requires |m.tid| == TRANSACTION_ID_LENGTH && (allowLegacy || U32(m.tid, 0) == COOKIE)
    requires t < 0x1_0000 && t != FINGERPRINT
    requires Followed(m, Zeros(4), t).Fits()
    ensures var r := Followed(m, value, t);
      var s, attrs := Finished(r), Placement(r.attrs);
      && Grammar(allowLegacy, s, attrs) && FingerprintValid(c, s, attrs)
      && Find(attrs, FINGERPRINT) == |attrs| - 2
  {
    var n := |Body(m.attrs)| + 12;
    var covered := MessageBytes(m, n) + (Be16(FINGERPRINT) + Be16(4));
    value := c.fingerprint(covered);
    var r := Followed(m, value, t);
    FollowedFits(m, value, t);
    RoundTrip(allowLegacy, r);
    NextToLastListed(m.attrs, FingerprintAttr(value), Attr(t, []));
    FollowedBytes(m, value, t);
    FollowedIs(c, Finished(r), Placement(r.attrs));
  }

  lemma FollowedIs(c: Crypto, s: seq<byte>, attrs: seq<StunAttribute>)
    requires |attrs| >= 2 && Find(attrs, FINGERPRINT) == |attrs| - 2
    requires var a := attrs[|attrs| - 2]; a.size == 4 && HEADER_SIZE <= a.offset && a.offset + 8 == |s|
    requires s[|s| - 8..|s| - 4] == c.fingerprint(s[..|s| - 8])
    ensures FingerprintValid(c, s, attrs)
  {}

  lemma FollowedFits(m: Message, value: Checksum, t: nat)
    requires Followed(m, Zeros(4), t).Fits()
    ensures Followed(m, value, t).Fits()
  {
    FollowedBytes(m, value, t);
    FollowedBytes(m, Zeros(4), t);
  }

  lemma FollowedBytes(m: Message, value: Checksum, t: nat)
    requires |m.tid| == TRANSACTION_ID_LENGTH
    ensures var r, n := Followed(m, value, t), |Body(m.attrs)| + 12;
      && |Body(r.attrs)| == n
      && |Finished(r)| == HEADER_SIZE + n
      && Finished(r)[..|Finished(r)| - 8] == MessageBytes(m, n) + (Be16(FINGERPRINT) + Be16(4))
      && Finished(r)[|Finished(r)| - 8..|Finished(r)| - 4] == value
  {
    var a, b, n := FingerprintAttr(value), Attr(t, []), |Body(m.attrs)| + 12;
    BodyAdd(m.attrs, a);
    BodyAdd(m.attrs + [a], b);
    WholeWords(a);
    WholeWords(b);
    MessageAdd(m, n, a);
    MessageAdd(m.Add(a), n, b);
    Middle(MessageBytes(m, n), Be16(FINGERPRINT) + Be16(4), value, AttrBytes(b));
  }

  lemma Middle(a: seq<byte>, b: seq<byte>, c: seq<byte>, d: seq<byte>)
    ensures var s := a + (b + c) + d;
      && s[..|s| - |d| - |c|] == a + b && s[|s| - |d| - |c|..|s| - |d|] == c
  {
    assert a + (b + c) + d == (a + b) + (c + d);
  }
}
