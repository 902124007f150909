/** The STUN wire format (RFC 5389 sections 6 and 15, and RFC 3489 for legacy padding):
    what the reader accepts, stated as a grammar, and what the builder writes.
 */
module StunFormat {
  import opened Bytes

  const HEADER_SIZE := 20
  const MAX_MESSAGE_SIZE := 800
  const MAX_ATTRIBUTE_SIZE := 780
  const MAX_NUM_ATTRIBUTES := 30
  const COOKIE := 0x2112A442
  const TRANSACTION_ID_LENGTH := 16

  const MAPPEDADDRESS := 0x0001
  const CHANGEREQUEST := 0x0003
  const SOURCEADDRESS := 0x0004
  const CHANGEDADDRESS := 0x0005
  const USERNAME := 0x0006
  const LEGACY_PASSWORD := 0x0007
  const MESSAGEINTEGRITY := 0x0008
  const ERRORCODE := 0x0009
  const REALM := 0x0014
  const NONCE := 0x0015
  const XORMAPPEDADDRESS := 0x0020
  const PADDING := 0x0026
  const RESPONSE_PORT := 0x0027
  const XORMAPPEDADDRESS_OPTIONAL := 0x8020
  const FINGERPRINT := 0x8028
  const RESPONSE_ORIGIN := 0x802b
  const OTHER_ADDRESS := 0x802c

  // ---- the message type field ---------------------------------------------------------

  /** Spreads a 12-bit type around the two class bits: bits 7-11 move up by two, bits 4-6
      by one, bits 0-3 stay; class bit 1 goes to bit 8 and class bit 0 to bit 4. */
  function TypeField(t: nat, cls: nat): nat {
    t / 0x80 % 0x20 * 0x200 + t / 0x10 % 8 * 0x20 + t % 0x10 + cls / 2 % 2 * 0x100 + cls % 2 * 0x10
  }

  /** The type of the message that begins so, with the class bits squeezed out. */
  function NormalizedType(s: seq<byte>): nat
    requires |s| >= 2
  {
    var field := U16(s, 0);
    field % 0x10 + field / 0x20 % 8 * 0x10 + field / 0x200 % 0x20 * 0x80
  }

  /** Its class: 0 for a request, 1 for an indication, 2 for a success, 3 for a failure. */
  function ClassOf(s: seq<byte>): nat
    requires |s| >= 2
  {
    var field := U16(s, 0);
    field / 0x100 % 2 * 2 + field / 0x10 % 2
  }

  lemma TypeFieldRoundTrip(t: nat, cls: nat, s: seq<byte>)
    requires t < 0x1000 && cls < 4
    requires |s| >= 2 && U16(s, 0) == TypeField(t, cls)
    ensures TypeField(t, cls) < 0x4000
    ensures NormalizedType(s) == t && ClassOf(s) == cls
  {
    var a, b, d := t / 0x80, t / 0x10 % 8, t % 0x10;
    TypeParts(t);
    var c1, c0 := cls / 2, cls % 2;
    var f := TypeField(t, cls);
    assert f == 0x200 * a + 0x100 * c1 + 0x20 * b + 0x10 * c0 + d;
    FieldParts(f, a, b, d, c1, c0);
  }

  lemma TypeParts(t: nat)
    requires t < 0x1000
    ensures t == 0x80 * (t / 0x80) + 0x10 * (t / 0x10 % 8) + t % 0x10
    ensures t / 0x80 < 0x20
  {
    var h := t / 0x10;
    assert t == 0x10 * h + t % 0x10;
    assert h == 8 * (h / 8) + h % 8;
    assert h / 8 == t / 0x80;
  }

  lemma FieldParts(f: nat, a: nat, b: nat, d: nat, c1: nat, c0: nat)
    requires f == 0x200 * a + 0x100 * c1 + 0x20 * b + 0x10 * c0 + d
    requires a < 0x20 && b < 8 && d < 0x10 && c1 < 2 && c0 < 2
    ensures f < 0x4000 && f % 0x10 == d && f / 0x20 % 8 == b && f / 0x200 % 0x20 == a
    ensures f / 0x100 % 2 == c1 && f / 0x10 % 2 == c0
  {
    assert f / 0x200 == a;
    assert f / 0x100 == 2 * a + c1;
    assert f / 0x20 == 8 * (2 * a + c1) + b;
    assert f / 0x10 == 2 * (8 * (2 * a + c1) + b) + c0;
  }

  // ---- the grammar -----------------------------------------------------------------

  /** An attribute as the reader records it: where its value starts and how long it is. */
  datatype StunAttribute = StunAttribute(attributeType: nat, size: nat, offset: nat)

  /** Attribute values are followed by padding up to a multiple of four. */
  function Padding(n: nat): (p: nat)
    ensures p < 4 && (n + p) % 4 == 0
  {
    if n % 4 == 0 then 0 else 4 - n % 4
  }

  /** Where the i-th attribute begins. */
  function Start(attrs: seq<StunAttribute>, i: nat): nat
    requires i <= |attrs|
  {
    if i == 0 then HEADER_SIZE
    else attrs[i - 1].offset + attrs[i - 1].size + Padding(attrs[i - 1].size)
  }

  /** The i-th attribute starts where the one before ended and lies within the message. */
  predicate Placed(s: seq<byte>, attrs: seq<StunAttribute>, i: nat)
    requires i < |attrs|
  {
    var at := Start(attrs, i);
    && at + 4 <= Start(attrs, i + 1) <= |s|
    && attrs[i] == StunAttribute(U16(s, at), U16(s, at + 2), at + 4)
    && attrs[i].size <= MAX_ATTRIBUTE_SIZE
  }

  /** The attributes lie one after the other from the header up to `end`. */
  ghost predicate Tiles(s: seq<byte>, attrs: seq<StunAttribute>, end: nat) {
    && (forall i :: 0 <= i < |attrs| ==> Placed(s, attrs, i))
    && end == Start(attrs, |attrs|)
  }

  predicate HasCookie(s: seq<byte>)
    requires |s| >= HEADER_SIZE
  {
    U32(s, 4) == COOKIE
  }

  /** Zero top bits, a length that is a multiple of four and at most the limit, and the
      magic cookie unless messages of the older format are allowed. */
  predicate HeaderOk(allowLegacy: bool, s: seq<byte>)
    requires |s| >= HEADER_SIZE
  {
    && U16(s, 0) < 0x4000
    && U16(s, 2) % 4 == 0
    && (allowLegacy || HasCookie(s))
    && U16(s, 2) <= MAX_MESSAGE_SIZE
  }

  /** s is a well-formed message with these attributes. */
  ghost predicate Grammar(allowLegacy: bool, s: seq<byte>, attrs: seq<StunAttribute>) {
    && |s| >= HEADER_SIZE && HeaderOk(allowLegacy, s)
    && |s| == HEADER_SIZE + U16(s, 2)
    && |attrs| <= MAX_NUM_ATTRIBUTES
    && Tiles(s, attrs, |s|)
  }

  lemma TilesAdd(s: seq<byte>, attrs: seq<StunAttribute>, at: nat, a: StunAttribute)
    requires Tiles(s, attrs, at)
    requires at + 4 + a.size + Padding(a.size) <= |s| && a.size <= MAX_ATTRIBUTE_SIZE
    requires a == StunAttribute(U16(s, at), U16(s, at + 2), at + 4)
    ensures Tiles(s, attrs + [a], at + 4 + a.size + Padding(a.size))
  {
    var r := attrs + [a];
    forall i | 0 <= i < |r| ensures Placed(s, r, i) {
      assert Start(r, i) == Start(attrs, i);
      if i < |attrs| {
        assert Placed(s, attrs, i);
      }
    }
  }

  /** Whatever has been read so far is the beginning of every reading of the message. */
  lemma {:induction false} TilesPrefix(s: seq<byte>, part: seq<StunAttribute>, at: nat, attrs: seq<StunAttribute>, i: nat)
    requires Tiles(s, part, at) && at <= |s| && Tiles(s, attrs, |s|)
    requires i <= |part|
    ensures i <= |attrs| && part[..i] == attrs[..i] && Start(part, i) == Start(attrs, i)
    decreases i
  {
    if i > 0 {
      TilesPrefix(s, part, at, attrs, i - 1);
      assert Placed(s, part, i - 1);
      if i - 1 == |attrs| {
        assert false;
      }
      assert Placed(s, attrs, i - 1);
      assert part[..i] == part[..i - 1] + [part[i - 1]];
    }
  }

  /** A message can be read in one way only. */
  lemma GrammarUnique(allowLegacy: bool, s: seq<byte>, a: seq<StunAttribute>, b: seq<StunAttribute>)
    requires Grammar(allowLegacy, s, a) && Grammar(allowLegacy, s, b)
    ensures a == b
  {
    TilesPrefix(s, a, |s|, b, |a|);
    TilesPrefix(s, b, |s|, a, |b|);
    assert a[..|a|] == a && b[..|b|] == b;
  }

  /** Every reading goes on at `at`, if that is not yet the end. */
  lemma TilesNext(s: seq<byte>, part: seq<StunAttribute>, at: nat, attrs: seq<StunAttribute>)
    requires Tiles(s, part, at) && at < |s| && Tiles(s, attrs, |s|)
    ensures |part| < |attrs| && Start(attrs, |part|) == at && Placed(s, attrs, |part|)
  {
    TilesPrefix(s, part, at, attrs, |part|);
  }

  /** The value of an attribute. */
  function ValueOf(s: seq<byte>, a: StunAttribute): (r: seq<byte>)
    requires a.offset + a.size <= |s|
    ensures |r| == a.size
  {
    s[a.offset..a.offset + a.size]
  }

  lemma InBounds(s: seq<byte>, attrs: seq<StunAttribute>, i: nat)
    requires Tiles(s, attrs, |s|) && i < |attrs|
    ensures HEADER_SIZE <= Start(attrs, i)
    ensures Start(attrs, i) + 4 == attrs[i].offset && attrs[i].offset + attrs[i].size <= |s|
  {
    assert Placed(s, attrs, i);
    if i > 0 {
      InBoundsBefore(s, attrs, i);
    }
  }

  lemma {:induction false} InBoundsBefore(s: seq<byte>, attrs: seq<StunAttribute>, i: nat)
    requires Tiles(s, attrs, |s|) && i <= |attrs|
    ensures HEADER_SIZE <= Start(attrs, i)
    decreases i
  {
    if i > 0 {
      InBoundsBefore(s, attrs, i - 1);
      assert Placed(s, attrs, i - 1);
    }
  }

  /** The bytes from an attribute on are its own and those of the attributes behind it. */
  lemma {:induction false} BytesBehind(s: seq<byte>, attrs: seq<StunAttribute>, end: nat, i: nat, j: nat)
    requires Tiles(s, attrs, end) && i <= j <= |attrs|
    ensures Start(attrs, j) >= Start(attrs, i) + 4 * (j - i)
    ensures (Start(attrs, j) - Start(attrs, i)) % 4 == 0
    decreases j
  {
    if i < j {
      BytesBehind(s, attrs, end, i, j - 1);
      assert Placed(s, attrs, j - 1);
    }
  }

  // ---- the parse state ----------------------------------------------------------------

  datatype ReaderParseState = HeaderNotRead | HeaderValidated | BodyValidated | ParseError

  /** The state a reader is in after these bytes, however they were cut into pieces. */
  ghost function StateAfter(allowLegacy: bool, s: seq<byte>): ReaderParseState {
    if |s| < HEADER_SIZE then HeaderNotRead
    else if !HeaderOk(allowLegacy, s) then ParseError
    else if |s| < HEADER_SIZE + U16(s, 2) then HeaderValidated
    else if exists attrs :: Grammar(allowLegacy, s, attrs) then BodyValidated
    else ParseError
  }

  /** The header is the same once it is there, whatever follows. */
  lemma HeaderFixed(allowLegacy: bool, s: seq<byte>, t: seq<byte>)
    requires |s| >= HEADER_SIZE
    ensures HeaderOk(allowLegacy, s + t) == HeaderOk(allowLegacy, s)
    ensures U16(s + t, 0) == U16(s, 0) && U16(s + t, 2) == U16(s, 2) && HasCookie(s + t) == HasCookie(s)
  {}

  /** No bytes make a message out of a rejected string, and none may follow a message. */
  lemma ErrorSticks(allowLegacy: bool, s: seq<byte>, t: seq<byte>)
    ensures StateAfter(allowLegacy, s) == ParseError ==> StateAfter(allowLegacy, s + t) == ParseError
    ensures StateAfter(allowLegacy, s) == BodyValidated && t != [] ==> StateAfter(allowLegacy, s + t) == ParseError
  {
    if |s| >= HEADER_SIZE {
      HeaderFixed(allowLegacy, s, t);
      if t == [] {
        assert s + t == s;
      }
    }
  }

  /** How many bytes the reader asks for. */
  function BytesNeeded(allowLegacy: bool, s: seq<byte>): nat {
    if |s| < HEADER_SIZE then HEADER_SIZE - |s|
    else if HeaderOk(allowLegacy, s) && |s| < HEADER_SIZE + U16(s, 2) then HEADER_SIZE + U16(s, 2) - |s|
    else 0
  }

  /** The reason for a ParseError that a well-behaved driver never meets. */
  predicate TooManyBytes(allowLegacy: bool, s: seq<byte>) {
    |s| >= HEADER_SIZE && HeaderOk(allowLegacy, s) && |s| > HEADER_SIZE + U16(s, 2)
  }

  /** A driver that feeds no more than was asked for never feeds too much; feeding just
      that much completes the header or the body. */
  lemma DriverNeverOverfeeds(allowLegacy: bool, s: seq<byte>, t: seq<byte>)
    requires |t| <= BytesNeeded(allowLegacy, s) && !TooManyBytes(allowLegacy, s)
    ensures !TooManyBytes(allowLegacy, s + t)
    ensures |t| == BytesNeeded(allowLegacy, s) > 0 ==>
      StateAfter(allowLegacy, s + t) != StateAfter(allowLegacy, s)
    ensures BytesNeeded(allowLegacy, s) == 0 <==> StateAfter(allowLegacy, s) in {BodyValidated, ParseError}
  {
    if |s| >= HEADER_SIZE {
      HeaderFixed(allowLegacy, s, t);
    }
  }

  /** Such a driver reads a message from a longer stream without touching what follows. */
  lemma DriverStopsAtMessage(allowLegacy: bool, message: seq<byte>, n: nat)
    requires StateAfter(allowLegacy, message) == BodyValidated && n <= |message|
    ensures BytesNeeded(allowLegacy, message[..n]) <= |message| - n
    ensures BytesNeeded(allowLegacy, message[..n]) == 0 <==> n == |message|
  {
    if n >= HEADER_SIZE {
      HeaderFixed(allowLegacy, message[..n], message[n..]);
      assert message[..n] + message[n..] == message;
    }
  }
}
