/** Every reply of the handler is a message the reader accepts, and says what it should. */
module HandlerProofs {
  import opened Bytes
  import opened StunFormat
  import opened StunMessage
  import opened StunQuery
  import opened SocketAddress
  import opened HandlerSpec
  import I = Integrity
  import StunBuilder

  lemma {:induction false} BodyConcat(a: seq<Attr>, b: seq<Attr>)
    ensures Body(a + b) == Body(a) + Body(b)
    decreases |b|
  {
    if b == [] {
      assert a + b == a;
    } else {
      var init := b[..|b| - 1];
      BodyConcat(a, init);
      BodyLast(b, init);
      BodyLast(a + b, a + init);
      Regroup(Body(a), Body(init), AttrBytes(b[|b| - 1]));
    }
  }

  lemma Regroup<T>(a: seq<T>, b: seq<T>, c: seq<T>)
    ensures a + b + c == a + (b + c)
  {}

  /** A list of attributes each of at most so many bytes has a body of at most the sum. */
  lemma {:induction false} BodyBound(attrs: seq<Attr>, each: nat)
    requires forall i :: 0 <= i < |attrs| ==> |AttrBytes(attrs[i])| <= each
    ensures |Body(attrs)| <= each * |attrs|
    decreases |attrs|
  {
    if attrs != [] {
      BodyBound(attrs[..|attrs| - 1], each);
      OneMore(each, |attrs| - 1);
    }
  }

  lemma OneMore(each: nat, n: nat)
    ensures each * (n + 1) == each * n + each
  {}

  lemma NormalizedSmall(s: seq<byte>)
    requires |s| >= 2 && U16(s, 0) < 0x4000
    ensures NormalizedType(s) < 0x1000
  {}

  lemma SuccessSize(q: Request)
    requires q.Valid() && Within(q.s, q.attrs)
    ensures 2 <= |SuccessAttrs(q)| <= 4 && |Body(SuccessAttrs(q))| <= 96
    ensures SuccessMessage(q, None).Fits()
  {
    PlainSize(q);
    OneMoreFits(Message(BINDING, 2, TransactionId(q.s), PlainAttrs(q)), XorAttr(q));
  }

  lemma OneMoreFits(m: Message, a: Attr)
    requires m.mtype < 0x1000 && m.cls < 4 && |m.tid| == TRANSACTION_ID_LENGTH
    requires |m.attrs| <= 3 && |Body(m.attrs)| <= 72
    requires forall i :: 0 <= i < |m.attrs| ==> m.attrs[i].atype < 0x1_0000 && |m.attrs[i].value| <= 20
    requires a.atype < 0x1_0000 && |a.value| <= 20
    ensures m.Add(a).Fits() && |Body(m.attrs + [a])| <= 96
  {
    BodyAdd(m.attrs, a);
  }

  lemma PlainSize(q: Request)
    requires q.Valid() && Within(q.s, q.attrs)
    ensures 1 <= |PlainAttrs(q)| <= 3 && |Body(PlainAttrs(q))| <= 72
    ensures forall i :: 0 <= i < |PlainAttrs(q)| ==>
      PlainAttrs(q)[i].atype < 0x1_0000 && |PlainAttrs(q)[i].value| <= 20
  {
    BodyBound(PlainAttrs(q), 24);
  }

  lemma SuccessFits(q: Request, key: Option<seq<byte>>)
    requires q.Valid() && Within(q.s, q.attrs)
    ensures SuccessMessage(q, key).Fits() && |Body(SuccessMessage(q, key).attrs)| <= 120
  {
    SuccessSize(q);
    var m := SuccessMessage(q, None);
    if key.Some? {
      var w := WithIntegrity(q.crypto, m, key.value);
      assert |w.attrs[|m.attrs|].value| == 20;
      BodyAdd(m.attrs, w.attrs[|m.attrs|]);
    }
  }

  lemma TextSize(legacy: bool, t: nat, v: seq<byte>)
    requires |v| <= MAX_AUTH_STRING
    ensures |WireValue(legacy, v)| <= MAX_AUTH_STRING
    ensures |AttrBytes(Attr(t, WireValue(legacy, v)))| <= 68
  {}

  lemma ErrorFits(legacy: bool, e: AuthOutcome, t: nat, tid: seq<byte>)
    requires 300 <= e.code <= 600 && t < 0x1000 && |tid| == TRANSACTION_ID_LENGTH
    ensures var m := Message(t, 3, tid, ErrorAttrs(legacy, e)); m.Fits() && |Body(m.attrs)| <= 152
  {
    var attrs := ErrorAttrs(legacy, e);
    ErrorShape(legacy, e);
    assert attrs == [attrs[0]] + attrs[1..];
    BodyConcat([attrs[0]], attrs[1..]);
    BodyOne(attrs[0]);
    BodyBound(attrs[1..], 68);
  }

  lemma ErrorShape(legacy: bool, e: AuthOutcome)
    requires 300 <= e.code <= 600
    ensures var attrs := ErrorAttrs(legacy, e);
      && 1 <= |attrs| <= 3 && |AttrBytes(attrs[0])| == 16
      && (forall i :: 1 <= i < |attrs| ==> |AttrBytes(attrs[i])| <= 68)
      && (forall i :: 0 <= i < |attrs| ==> attrs[i].atype < 0x1_0000 && |attrs[i].value| <= MAX_ATTRIBUTE_SIZE)
  {
    TextSize(legacy, NONCE, e.nonce);
    TextSize(legacy, REALM, e.realm);
    ErrorAttrSize(legacy, e.code);
    assert ErrorAttrs(legacy, e)[1..] == Challenge(legacy, e);
  }

  lemma BodyOne(a: Attr)
    ensures Body([a]) == AttrBytes(a)
  {
    assert [a][..0] == [];
    assert Body([]) == [];
  }

  lemma ErrorAttrSize(legacy: bool, code: nat)
    requires 300 <= code <= 600
    ensures |AttrBytes(Attr(ERRORCODE, WireValue(legacy, StunBuilder.ErrorValue(code, FAILED))))| == 16
  {}

  /** Whatever the request, the reply is one the reader accepts, it carries the request's
      transaction id, it is a success or a failure response, and it is small. */
  lemma ReplyAccepted(q: Request)
    requires q.Valid() && Within(q.s, q.attrs)
    ensures var m := Reply(q);
      var r, p := Finished(m), Placement(m.attrs);
      && m.Fits() && |r| <= 172
      && Grammar(true, r, p) && StateAfter(true, r) == BodyValidated
      && Within(r, p) && TransactionId(r) == TransactionId(q.s)
      && ClassOf(r) == (if Outcome(q).code == 0 then 2 else 3)
  {
    var m := Reply(q);
    OutcomeCodes(q);
    NormalizedSmall(q.s);
    var e := Outcome(q);
    if e.code == 0 {
      SuccessFits(q, e.key);
    } else {
      ErrorFits(Legacy(q), e, NormalizedType(q.s), TransactionId(q.s));
    }
    RoundTrip(true, m);
    GrammarWithin(true, Finished(m), Placement(m.attrs));
  }

  /** The only attribute of its type is the one that is found. */
  lemma ValueAt(m: Message, i: nat)
    requires m.Fits() && i < |m.attrs|
    requires forall j :: 0 <= j < |m.attrs| && j != i ==> m.attrs[j].atype != m.attrs[i].atype
    ensures Within(Finished(m), Placement(m.attrs))
    ensures AttributeValue(Finished(m), Placement(m.attrs), m.attrs[i].atype) == Some(m.attrs[i].value)
  {
    RoundTrip(true, m);
    GrammarWithin(true, Finished(m), Placement(m.attrs));
    I.FindIs(Placement(m.attrs), m.attrs[i].atype, i);
  }

  lemma NoValue(m: Message, t: nat)
    requires m.Fits()
    requires forall j :: 0 <= j < |m.attrs| ==> m.attrs[j].atype != t
    ensures Within(Finished(m), Placement(m.attrs))
    ensures AttributeValue(Finished(m), Placement(m.attrs), t) == None
  {
    RoundTrip(true, m);
    GrammarWithin(true, Finished(m), Placement(m.attrs));
    I.FindIs(Placement(m.attrs), t, -1);
  }

  /** Where the addresses are in a success reply, and that each is alone of its type. */
  lemma SuccessLayout(q: Request, key: Option<seq<byte>>) returns (x: nat)
    requires q.Valid() && Within(q.s, q.attrs)
    ensures var a := SuccessMessage(q, key).attrs;
      && 0 < x < |a|
      && a[0] == AddressAttr(MAPPEDADDRESS, q.addrRemote)
      && a[x] == XorAttr(q)
      && (forall j :: 0 <= j < |a| && j != 0 ==> a[j].atype != a[0].atype)
      && (forall j :: 0 <= j < |a| && j != x ==> a[j].atype != a[x].atype)
      && (Legacy(q) ==> forall j :: 0 <= j < |a| ==> a[j].atype != XORMAPPEDADDRESS)
  {
    x := |SuccessAttrs(q)| - 1;
  }

  /** A success reply gives the sender its own address, in the clear and masked, whether
      the request was of the older format or not. */
  lemma SuccessDecodes(q: Request)
    requires q.Valid() && Within(q.s, q.attrs) && Outcome(q).code == 0
    ensures var m := Reply(q);
      var r, p := Finished(m), Placement(m.attrs);
      && Within(r, p)
      && MappedAddress(r, p) == Some(q.addrRemote)
      && XorMappedAddress(r, p) == Some(q.addrRemote)
  {
    var key := Outcome(q).key;
    var m := SuccessMessage(q, key);
    ReplyAccepted(q);
    var x := SuccessLayout(q, key);
    ValueAt(m, 0);
    AddressRoundTrip(q.addrRemote);
    ValueAt(m, x);
    var masked := q.addrRemote.XorMap(TransactionId(q.s));
    XorMapTwice(q.addrRemote, TransactionId(q.s));
    AddressRoundTrip(masked);
    if Legacy(q) {
      NoValue(m, XORMAPPEDADDRESS);
    }
  }

  lemma OtherLayout(q: Request, key: Option<seq<byte>>) returns (o: nat)
    requires q.Valid() && Within(q.s, q.attrs)
    ensures var a := SuccessMessage(q, key).attrs;
      && (SendsOther(q) ==>
        && o < |a|
        && a[o] == AddressAttr(if Legacy(q) then CHANGEDADDRESS else OTHER_ADDRESS, q.addresses[OtherRole(q)].addr)
        && (forall j :: 0 <= j < |a| && j != o ==> a[j].atype != a[o].atype))
      && (!SendsOther(q) || Legacy(q) ==> forall j :: 0 <= j < |a| ==> a[j].atype != OTHER_ADDRESS)
      && (!SendsOther(q) ==> forall j :: 0 <= j < |a| ==> a[j].atype != CHANGEDADDRESS)
  {
    o := PlainOther(q);
    var a, plain := SuccessMessage(q, key).attrs, PlainAttrs(q);
    assert a[..|plain|] == plain;
    forall j | |plain| <= j < |a| ensures a[j].atype !in {OTHER_ADDRESS, CHANGEDADDRESS} {
      assert a[j] == XorAttr(q) || a[j].atype == MESSAGEINTEGRITY;
    }
    forall j | 0 <= j < |plain| ensures a[j] == plain[j] {
      assert a[j] == a[..|plain|][j];
    }
  }

  /** The same, among the addresses in the clear. */
  lemma PlainOther(q: Request) returns (o: nat)
    requires q.Valid() && Within(q.s, q.attrs)
    ensures var a := PlainAttrs(q);
      && (SendsOther(q) ==>
        && o < |a|
        && a[o] == AddressAttr(if Legacy(q) then CHANGEDADDRESS else OTHER_ADDRESS, q.addresses[OtherRole(q)].addr)
        && (forall j :: 0 <= j < |a| && j != o ==> a[j].atype != a[o].atype))
      && (!SendsOther(q) || Legacy(q) ==> forall j :: 0 <= j < |a| ==> a[j].atype != OTHER_ADDRESS)
      && (!SendsOther(q) ==> forall j :: 0 <= j < |a| ==> a[j].atype != CHANGEDADDRESS)
  {
    o := if Origin(q).IsIPAddressZero() then 1 else 2;
  }

  /** The other address is offered exactly when all four sockets are there and it is known. */
  lemma SuccessOffersOther(q: Request)
    requires q.Valid() && Within(q.s, q.attrs) && Outcome(q).code == 0
    ensures var m := Reply(q);
      var r, p := Finished(m), Placement(m.attrs);
      && Within(r, p)
      && OtherAddress(r, p) ==
           if (forall i :: 0 <= i < 4 ==> q.addresses[i].valid) && !q.addresses[3 - q.role].addr.IsIPAddressZero()
           then Some(q.addresses[3 - q.role].addr) else None
  {
    SendsOtherIs(q);
    OtherIsOffered(q);
  }

  lemma OtherIsOffered(q: Request)
    requires q.Valid() && Within(q.s, q.attrs) && Outcome(q).code == 0
    ensures var m := Reply(q);
      var r, p := Finished(m), Placement(m.attrs);
      && Within(r, p)
      && OtherAddress(r, p) == if SendsOther(q) then Some(q.addresses[OtherRole(q)].addr) else None
  {
    ReplyAccepted(q);
    var o := OtherLayout(q, Outcome(q).key);
    OtherFound(q, SuccessMessage(q, Outcome(q).key), o);
  }

  /** The other address is that of the socket with the other ip and the other port. */
  lemma SendsOtherIs(q: Request)
    requires |q.addresses| == 4
    ensures OtherRole(q) == 3 - q.role
    ensures SendsOther(q) <==>
      (forall i :: 0 <= i < 4 ==> q.addresses[i].valid) && !q.addresses[3 - q.role].addr.IsIPAddressZero()
  {}

  lemma OtherFound(q: Request, m: Message, o: nat)
    requires q.Valid() && m.Fits()
    requires var a := m.attrs;
      && (SendsOther(q) ==>
        && o < |a|
        && a[o] == AddressAttr(if Legacy(q) then CHANGEDADDRESS else OTHER_ADDRESS, q.addresses[OtherRole(q)].addr)
        && (forall j :: 0 <= j < |a| && j != o ==> a[j].atype != a[o].atype))
      && (!SendsOther(q) || Legacy(q) ==> forall j :: 0 <= j < |a| ==> a[j].atype != OTHER_ADDRESS)
      && (!SendsOther(q) ==> forall j :: 0 <= j < |a| ==> a[j].atype != CHANGEDADDRESS)
    ensures var r, p := Finished(m), Placement(m.attrs);
      && Within(r, p)
      && OtherAddress(r, p) == if SendsOther(q) then Some(q.addresses[OtherRole(q)].addr) else None
  {
    if SendsOther(q) {
      AddressRoundTrip(q.addresses[OtherRole(q)].addr);
      ValueAt(m, o);
      if Legacy(q) {
        NoValue(m, OTHER_ADDRESS);
      }
    } else {
      NoValue(m, OTHER_ADDRESS);
      NoValue(m, CHANGEDADDRESS);
    }
  }

  /** A request that proved its key gets a reply signed with the same key. */
  lemma SuccessIsSigned(q: Request)
    requires q.Valid() && Within(q.s, q.attrs) && Outcome(q).key.Some?
    ensures var m := Reply(q);
      I.IntegrityValid(q.crypto, Finished(m), Placement(m.attrs), Outcome(q).key.value)
  {
    OutcomeCodes(q);
    SuccessSize(q);
    I.IntegrityAccepted(q.crypto, SuccessMessage(q, None), Outcome(q).key.value);
  }

  /** The class and number in an error code attribute, from its third and fourth byte. An
      attribute too short for them has none here; GetErrorCode of the reader looks past its end. */
  function ErrorCodeOf(s: seq<byte>, attrs: seq<StunAttribute>): Option<nat>
    requires Within(s, attrs)
  {
    match AttributeValue(s, attrs, ERRORCODE)
    case None => None
    case Some(v) => if |v| < 4 then None else Some(v[2] as int % 8 * 100 + v[3] as int)
  }

  /** An error reply says which error, and it is one of three. */
  lemma ErrorDecodes(q: Request)
    requires q.Valid() && Within(q.s, q.attrs) && Outcome(q).code != 0
    ensures var m := Reply(q);
      var r, p := Finished(m), Placement(m.attrs);
      && Within(r, p)
      && ErrorCodeOf(r, p) == Some(Outcome(q).code)
      && Outcome(q).code in {BADREQUEST, UNAUTHORIZED, STALENONCE}
      && NormalizedType(r) == NormalizedType(q.s)
  {
    OutcomeCodes(q);
    ReplyAccepted(q);
    NormalizedSmall(q.s);
    RoundTrip(true, Reply(q));
    ErrorCodeRead(Reply(q), Legacy(q), Outcome(q));
  }

  lemma ErrorCodeRead(m: Message, legacy: bool, e: AuthOutcome)
    requires m.Fits() && 300 <= e.code <= 600 && m.attrs == ErrorAttrs(legacy, e)
    ensures Within(Finished(m), Placement(m.attrs))
    ensures ErrorCodeOf(Finished(m), Placement(m.attrs)) == Some(e.code)
  {
    ErrorFirst(legacy, e);
    ValueAt(m, 0);
  }

  lemma ErrorFirst(legacy: bool, e: AuthOutcome)
    requires 300 <= e.code <= 600
    ensures var a := ErrorAttrs(legacy, e);
      && a[0].atype == ERRORCODE
      && (forall j :: 0 < j < |a| ==> a[j].atype != ERRORCODE)
      && |a[0].value| >= 4
      && a[0].value[2] as int % 8 * 100 + a[0].value[3] as int == e.code
  {
    var v := StunBuilder.ErrorValue(e.code, FAILED);
    assert WireValue(legacy, v)[2] == v[2] == e.code / 100;
    assert WireValue(legacy, v)[3] == v[3] == e.code % 100;
  }
}
