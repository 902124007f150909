/** What the reader's two trailer checks reject: everything but what the builder appends. */
module TrailerChecks {
  import opened Bytes
  import opened StunFormat
  import opened StunMessage
  import opened Integrity

  // ---- message integrity --------------------------------------------------------------------

  /** At most one digest passes: of all messages that differ only in the twenty bytes of the
      attribute, one. */
  lemma OneDigestPasses(c: Crypto, s: seq<byte>, t: seq<byte>, attrs: seq<StunAttribute>, key: seq<byte>)
    requires IntegrityValid(c, s, attrs, key) && IntegrityValid(c, t, attrs, key)
    requires |s| == |t|
    requires var at := attrs[Find(attrs, MESSAGEINTEGRITY)].offset; s[..at] == t[..at] && s[at + 20..] == t[at + 20..]
    ensures s == t
  {
    var at := attrs[Find(attrs, MESSAGEINTEGRITY)].offset;
    CoversBefore(s, t, at, true);
    CoversBefore(s, t, at, false);
    ThreeParts(s, at, at + 20);
    ThreeParts(t, at, at + 20);
  }

  lemma CoversBefore(s: seq<byte>, t: seq<byte>, at: nat, beforeFingerprint: bool)
    requires HEADER_SIZE + 4 <= at <= |s| == |t| && s[..at] == t[..at]
    ensures Covered(s, at, beforeFingerprint) == Covered(t, at, beforeFingerprint)
  {
    forall k | 0 <= k < at ensures s[k] == t[k] {
      assert s[..at][k] == t[..at][k];
    }
    assert s[..2] == t[..2] && s[4..at - 4] == t[4..at - 4];
  }

  lemma ThreeParts(s: seq<byte>, a: nat, b: nat)
    requires a <= b <= |s|
    ensures s == s[..a] + s[a..b] + s[b..]
  {}

  /** A message that ends in an integrity attribute of twenty bytes, and what the builder
      makes of all before that attribute. */
  lemma BuiltAgain(c: Crypto, s: seq<byte>, key: seq<byte>)
    requires HEADER_SIZE + 24 <= |s| < 0x1_0000 && U16(s, 2) == |s| - HEADER_SIZE
    requires s[|s| - 24..|s| - 20] == Be16(MESSAGEINTEGRITY) + Be16(20)
    ensures AddIntegrity(c, s[..|s| - 24], key) == s[..|s| - 20] + c.hmac(key, s[..|s| - 24])
    ensures Covered(s, |s| - 20, false) == s[..|s| - 24]
  {
    var before := s[..|s| - 24];
    var zero := IntegrityAttr(Zeros(20));
    WholeWords(zero);
    LengthKept(s, |s| - 24);
    assert before[..2] == s[..2] && before[4..] == s[4..|s| - 24];
    PatchBehind(before, AttrBytes(zero), |s| - HEADER_SIZE);
    EndsWith(before, Be16(MESSAGEINTEGRITY) + Be16(20), Zeros(20));
    assert s[..|s| - 20] == before + s[|s| - 24..|s| - 20];
  }

  /** The length field is not changed by being written again. */
  lemma LengthKept(s: seq<byte>, n: nat)
    requires 4 <= n <= |s|
    ensures s[..2] + Be16(U16(s, 2)) + s[4..n] == s[..n]
  {
    Be16U16(s, 2);
    assert s[..n] == s[..2] + s[2..4] + s[4..n];
  }

  lemma PatchBehind(a: seq<byte>, b: seq<byte>, length: nat)
    requires |a| >= HEADER_SIZE && length == |a| + |b| - HEADER_SIZE
    ensures Patch(a + b) == a[..2] + Be16(length) + a[4..] + b
  {
    assert (a + b)[..2] == a[..2] && (a + b)[4..] == a[4..] + b;
  }

  lemma EndsWith(a: seq<byte>, b: seq<byte>, c: seq<byte>)
    ensures var s := a + (b + c);
      s[..|s| - |c|] == a + b && s[..|s| - |c| - |b|] == a
  {}

  /** The header of the i-th attribute stands before its value. */
  lemma HeaderBefore(s: seq<byte>, attrs: seq<StunAttribute>, i: nat)
    requires Tiles(s, attrs, |s|) && i < |attrs|
    ensures var a := attrs[i];
      && HEADER_SIZE + 4 <= a.offset == Start(attrs, i) + 4 && a.offset + a.size + Padding(a.size) == Start(attrs, i + 1) <= |s|
      && s[a.offset - 4..a.offset] == Be16(a.attributeType) + Be16(a.size)
  {
    InBounds(s, attrs, i);
    assert Placed(s, attrs, i);
    var at := Start(attrs, i);
    Be16U16(s, at);
    Be16U16(s, at + 2);
    assert s[at..at + 4] == s[at..at + 2] + s[at + 2..at + 4];
  }

  /** Where the integrity attribute is the last one, the check passes just if the message is
      what the builder makes of the bytes before it and the key. */
  lemma LastPassesExactly(c: Crypto, allowLegacy: bool, s: seq<byte>, attrs: seq<StunAttribute>, key: seq<byte>)
    requires Grammar(allowLegacy, s, attrs) && attrs != [] && Find(attrs, MESSAGEINTEGRITY) == |attrs| - 1
    ensures IntegrityValid(c, s, attrs, key) <==>
      && attrs[|attrs| - 1].size == 20 && key != []
      && |s| >= 24 && s == AddIntegrity(c, s[..|s| - 24], key)
  {
    var a := attrs[|attrs| - 1];
    HeaderBefore(s, attrs, |attrs| - 1);
    if a.size == 20 {
      BuiltAgain(c, s, key);
      LastTwenty(s, c.hmac(key, s[..|s| - 24]));
      assert ValueOf(s, a) == s[|s| - 20..];
    }
  }

  lemma LastTwenty(s: seq<byte>, mac: Digest)
    requires |s| >= 20
    ensures s == s[..|s| - 20] + mac <==> s[|s| - 20..] == mac
  {
    assert s == s[..|s| - 20] + s[|s| - 20..];
    if s == s[..|s| - 20] + mac {
      assert (s[..|s| - 20] + mac)[|s| - 20..] == mac;
    }
  }

  /** Where a fingerprint of one word is behind it, it passes just if the message without the
      fingerprint, and with the length it then has, is what the builder makes. */
  lemma NextToLastPassesExactly(c: Crypto, allowLegacy: bool, s: seq<byte>, attrs: seq<StunAttribute>, key: seq<byte>)
    requires Grammar(allowLegacy, s, attrs) && |attrs| >= 2
    requires Find(attrs, MESSAGEINTEGRITY) == |attrs| - 2 && Find(attrs, FINGERPRINT) == |attrs| - 1
    requires attrs[|attrs| - 1].size == 4
    ensures IntegrityValid(c, s, attrs, key) <==>
      && attrs[|attrs| - 2].size == 20 && key != []
      && |s| >= HEADER_SIZE + 32 && Patch(s[..|s| - 8]) == AddIntegrity(c, s[..|s| - 32], key)
  {
    var a := attrs[|attrs| - 2];
    HeaderBefore(s, attrs, |attrs| - 2);
    HeaderBefore(s, attrs, |attrs| - 1);
    if a.size == 20 {
      assert |s| == a.offset + 28;
      Unfingerprinted(c, s, key);
      assert ValueOf(s, a) == s[|s| - 28..|s| - 8];
      LastTwenty(Patch(s[..|s| - 8]), c.hmac(key, Covered(s, |s| - 28, true)));
    }
  }

  /** The message without its last eight bytes, as it was before they were appended. */
  lemma Unfingerprinted(c: Crypto, s: seq<byte>, key: seq<byte>)
    requires HEADER_SIZE + 32 <= |s| < 0x1_0000 && U16(s, 2) == |s| - HEADER_SIZE
    requires s[|s| - 32..|s| - 28] == Be16(MESSAGEINTEGRITY) + Be16(20)
    ensures var u := Patch(s[..|s| - 8]);
      && |u| == |s| - 8 && u[|u| - 20..] == s[|s| - 28..|s| - 8]
      && AddIntegrity(c, s[..|s| - 32], key) == u[..|u| - 20] + c.hmac(key, Covered(s, |s| - 28, true))
  {
    var u := Patch(s[..|s| - 8]);
    var n := |u| - HEADER_SIZE;
    PatchedParts(s, |s| - 8);
    U16Be16(n);
    BuiltAgain(c, u, key);
    assert u[|u| - 20..] == u[|u| - 20..|u|];
    assert u[..|u| - 24] == s[..2] + Be16(n) + s[4..|s| - 32];
    SameBuilt(c, s[..|s| - 32], u[..|u| - 24], key);
  }

  lemma PatchedParts(s: seq<byte>, n: nat)
    requires HEADER_SIZE + 24 <= n <= |s| && n < 0x1_0000
    ensures var u := Patch(s[..n]);
      && |u| == n && u[n - 20..n] == s[n - 20..n] && u[n - 24..n - 20] == s[n - 24..n - 20]
      && u[..2] == s[..2] && U16(u, 2) == n - HEADER_SIZE
      && u[..n - 24] == s[..2] + Be16(n - HEADER_SIZE) + s[4..n - 24]
  {
    var l := Be16(n - HEADER_SIZE);
    U16Be16(n - HEADER_SIZE);
    assert s[..n][..2] == s[..2] && s[..n][4..] == s[4..n];
    Replaced(s, n, l, n - 24, n - 20);
    Replaced(s, n, l, n - 20, n);
    U16At(s[..2] + l + s[4..n], 2, l, 0);
  }

  lemma Replaced(s: seq<byte>, n: nat, l: seq<byte>, i: nat, j: nat)
    requires |l| == 2 && 4 <= i <= j <= n <= |s|
    ensures var u := s[..2] + l + s[4..n];
      && |u| == n && u[..2] == s[..2] && u[2..4] == l[0..2]
      && u[i..j] == s[i..j] && u[..i] == s[..2] + l + s[4..i]
  {
    var u := s[..2] + l + s[4..n];
    forall k | 4 <= k < n ensures u[k] == s[k] {
      assert u[k] == s[4..n][k - 4];
    }
  }

  /** What the builder makes does not depend on the length field there was. */
  lemma SameBuilt(c: Crypto, s: seq<byte>, t: seq<byte>, key: seq<byte>)
    requires |s| == |t| >= HEADER_SIZE && s[..2] == t[..2] && s[4..] == t[4..]
    ensures AddIntegrity(c, s, key) == AddIntegrity(c, t, key)
  {
    var b := AttrBytes(IntegrityAttr(Zeros(20)));
    PatchBehind(s, b, |s| + |b| - HEADER_SIZE);
    PatchBehind(t, b, |s| + |b| - HEADER_SIZE);
  }

  /** Anywhere else, or without a key, nothing passes. */
  lemma ElsewhereNothingPasses(c: Crypto, s: seq<byte>, attrs: seq<StunAttribute>, key: seq<byte>)
    requires IntegrityValid(c, s, attrs, key)
    ensures var mi := Find(attrs, MESSAGEINTEGRITY);
      && key != [] && mi != -1 && attrs[mi].size == 20
      && (forall j :: mi < j < |attrs| ==> j == |attrs| - 1 && attrs[j].attributeType == FINGERPRINT)
  {}

  // ---- the fingerprint ---------------------------------------------------------------------

  /** The same for a fingerprint that is the last attribute: it passes just if the message is
      what the builder makes of the bytes before it. */
  lemma FingerprintPassesExactly(c: Crypto, allowLegacy: bool, s: seq<byte>, attrs: seq<StunAttribute>)
    requires Grammar(allowLegacy, s, attrs) && attrs != [] && Find(attrs, FINGERPRINT) == |attrs| - 1
    ensures FingerprintValid(c, s, attrs) <==>
      attrs[|attrs| - 1].size == 4 && |s| >= HEADER_SIZE + 8 && s == AddFingerprint(c, s[..|s| - 8])
  {
    var a := attrs[|attrs| - 1];
    HeaderBefore(s, attrs, |attrs| - 1);
    if a.size == 4 {
      FingerprintedAgain(c, s);
      LastFour(s, c.fingerprint(s[..|s| - 8]));
      assert ValueOf(s, a) == s[|s| - 4..];
    }
  }

  lemma FingerprintedAgain(c: Crypto, s: seq<byte>)
    requires HEADER_SIZE + 8 <= |s| < 0x1_0000 && U16(s, 2) == |s| - HEADER_SIZE
    requires s[|s| - 8..|s| - 4] == Be16(FINGERPRINT) + Be16(4)
    ensures AddFingerprint(c, s[..|s| - 8]) == s[..|s| - 4] + c.fingerprint(s[..|s| - 8])
  {
    var before := s[..|s| - 8];
    var zero := FingerprintAttr(Zeros(4));
    WholeWords(zero);
    LengthKept(s, |s| - 8);
    assert before[..2] == s[..2] && before[4..] == s[4..|s| - 8];
    PatchBehind(before, AttrBytes(zero), |s| - HEADER_SIZE);
    EndsWith(before, Be16(FINGERPRINT) + Be16(4), Zeros(4));
    assert s[..|s| - 4] == before + s[|s| - 8..|s| - 4];
  }

  lemma LastFour(s: seq<byte>, value: Checksum)
    requires |s| >= 4
    ensures s == s[..|s| - 4] + value <==> s[|s| - 4..] == value
  {
    assert s == s[..|s| - 4] + s[|s| - 4..];
    if s == s[..|s| - 4] + value {
      assert (s[..|s| - 4] + value)[|s| - 4..] == value;
    }
  }

  /** Without a fingerprint of four bytes nothing passes. */
  lemma WithoutFingerprintNothingPasses(c: Crypto, s: seq<byte>, attrs: seq<StunAttribute>)
    requires FingerprintValid(c, s, attrs)
    ensures exists a <- attrs :: a.attributeType == FINGERPRINT && a.size == 4
  {
    assert attrs[Find(attrs, FINGERPRINT)] in attrs;
  }
}
