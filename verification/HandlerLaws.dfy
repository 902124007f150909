/** What the finished reply says about the request, for requests as a client writes them and
    any authentication provider.
 */
module HandlerLaws {
  import opened Bytes
  import opened StunFormat
  import opened StunMessage
  import opened StunQuery
  import opened SocketAddress
  import opened HandlerSpec
  import opened ReplyReading
  import I = Integrity
  import P = HandlerProofs

  // ---- the request, as it was written ----------------------------------------------------------

  /** A request made of this message. */
  ghost predicate Asks(q: Request, m: Message) {
    q.Received() && m.Fits() && q.s == Finished(m)
  }

  lemma AsksRead(q: Request, m: Message)
    requires Asks(q, m)
    ensures q.attrs == Placement(m.attrs) && Within(q.s, q.attrs)
    ensures TransactionId(q.s) == m.tid && NormalizedType(q.s) == m.mtype && ClassOf(q.s) == m.cls
  {
    RoundTrip(true, m);
    GrammarUnique(true, q.s, q.attrs, Placement(m.attrs));
    GrammarWithin(true, q.s, q.attrs);
  }

  lemma AsksHas(q: Request, m: Message, t: nat, v: seq<byte>)
    requires Asks(q, m) && Has(m, t, v)
    ensures Within(q.s, q.attrs) && AttributeValue(q.s, q.attrs, t) == Some(v)
  {
    AsksRead(q, m);
    HasRead(m, t, v);
  }

  lemma AsksLacks(q: Request, m: Message, t: nat)
    requires Asks(q, m) && Lacks(m, t)
    ensures Within(q.s, q.attrs) && AttributeValue(q.s, q.attrs, t) == None
  {
    AsksRead(q, m);
    LacksRead(m, t);
  }

  // ---- what the provider is asked ------------------------------------------------------------

  /** The message has this text under a type, or no such attribute for the empty text. */
  predicate Says(m: Message, t: nat, text: AuthString) {
    if text == [] then Lacks(m, t) else Has(m, t, text)
  }

  /** Reading as C does stops at the first zero, and nowhere else. */
  lemma {:induction false} CStringStops(v: seq<byte>)
    ensures CString(v) <= v && 0 !in CString(v)
    ensures CString(v) == v || v[|CString(v)|] == 0
  {
    if v != [] && v[0] != 0 {
      CStringStops(v[1..]);
      assert v == [v[0]] + v[1..];
    }
  }

  lemma SaysRead(q: Request, m: Message, t: nat, text: AuthString)
    requires Asks(q, m) && Says(m, t, text)
    ensures Within(q.s, q.attrs) && TextAttribute(q, t) == text
  {
    if text == [] {
      AsksLacks(q, m, t);
    } else {
      AsksHas(q, m, t, text);
      CStringStops(text);
    }
  }

  /** A text that is too long for the fields of the provider's query reads as none. */
  lemma LongTextIsNone(q: Request, m: Message, t: nat, v: seq<byte>)
    requires Asks(q, m) && Has(m, t, v) && |v| > 64
    ensures Within(q.s, q.attrs) && TextAttribute(q, t) == []
  {
    AsksHas(q, m, t, v);
  }

  /** The provider sees the four texts of the request, each in its place, and whether the
      request has a message integrity attribute. */
  lemma ProviderIsAsked(q: Request, m: Message, user: AuthString, realm: AuthString, nonce: AuthString,
                        password: AuthString)
    requires Asks(q, m)
    requires Says(m, USERNAME, user) && Says(m, REALM, realm) && Says(m, NONCE, nonce)
    requires Says(m, LEGACY_PASSWORD, password)
    ensures Within(q.s, q.attrs)
    ensures RequestAuth(q) == AuthAttributes(user, realm, nonce, password, !Lacks(m, MESSAGEINTEGRITY))
  {
    AsksRead(q, m);
    SaysRead(q, m, USERNAME, user);
    SaysRead(q, m, REALM, realm);
    SaysRead(q, m, NONCE, nonce);
    SaysRead(q, m, LEGACY_PASSWORD, password);
    FoundIfThere(m, MESSAGEINTEGRITY);
  }

  lemma FoundIfThere(m: Message, t: nat)
    ensures I.Find(Placement(m.attrs), t) == -1 <==> Lacks(m, t)
  {
    var p := Placement(m.attrs);
    if I.Find(p, t) != -1 {
      assert m.attrs[I.Find(p, t)].atype == t;
    } else {
      forall i | 0 <= i < |m.attrs| ensures m.attrs[i].atype != t {
        assert p[i].attributeType != t;
      }
    }
  }

  // ---- what follows from its answer ----------------------------------------------------------

  /** The requests that the provider decides about. */
  predicate Decidable(q: Request)
    requires Within(q.s, q.attrs)
  {
    NormalizedType(q.s) == 1 && (RequestedPort(q) == 0 || !q.connectionOriented)
  }

  /** The provider's answer, if there is a provider and it answers. */
  function AnswerTo(q: Request): Option<AuthResponse>
    requires Within(q.s, q.attrs)
  {
    if q.auth == None then None else q.auth.value(RequestAuth(q))
  }

  /** The digest passes under the key that the answer names. */
  predicate Proven(q: Request, r: AuthResponse)
    requires Within(q.s, q.attrs)
  {
    I.IntegrityValid(q.crypto, q.s, q.attrs, AuthKey(q, r))
  }

  /** There is no provider, or it allows the request, or it does under a digest that passes. */
  predicate Admitted(q: Request)
    requires Within(q.s, q.attrs)
  {
    q.auth == None || (AnswerTo(q).Some? &&
      (AnswerTo(q).value.kind == Allow || (AnswerTo(q).value.kind == AllowConditional && Proven(q, AnswerTo(q).value))))
  }

  /** The answer is a refusal that asks for credentials, or a digest that fails makes it one. */
  predicate Unproven(q: Request)
    requires Within(q.s, q.attrs)
  {
    AnswerTo(q).Some? &&
      (AnswerTo(q).value.kind == Unauthorized || (AnswerTo(q).value.kind == AllowConditional && !Proven(q, AnswerTo(q).value)))
  }

  /** Of these requests just those are served that are admitted, if the binding request
      itself can be served. */
  lemma ServedExactly(q: Request)
    requires q.Valid() && Within(q.s, q.attrs) && Decidable(q)
    ensures ClassOf(Finished(Reply(q))) in {2, 3}
    ensures ClassOf(Finished(Reply(q))) == 2 <==> !BindingRefused(q) && Admitted(q)
  {
    P.ReplyAccepted(q);
    OutcomeServes(q);
  }

  lemma OutcomeServes(q: Request)
    requires Within(q.s, q.attrs) && |q.addresses| == 4 && Decidable(q)
    ensures Outcome(q).code == 0 <==> !BindingRefused(q) && Admitted(q)
  {}

  lemma OutcomeRefuses(q: Request)
    requires Within(q.s, q.attrs) && |q.addresses| == 4 && Decidable(q)
    ensures Outcome(q).code in {0, 400, 401, 438}
    ensures Outcome(q).code == 438 <==> AnswerTo(q).Some? && AnswerTo(q).value.kind == StaleNonce
    ensures Outcome(q).code == 401 <==> Unproven(q)
  {}

  /** The code in the finished error reply. */
  ghost function CodeIn(q: Request): Option<nat>
    requires q.Valid() && Within(q.s, q.attrs)
  {
    P.ReplyAccepted(q);
    P.ErrorCodeOf(Finished(Reply(q)), Placement(Reply(q).attrs))
  }

  /** The code is 438 just for a stale nonce, 401 just for an answer that says so and for a
      digest that fails, and 400 for everything else that is not served. */
  lemma CodesExactly(q: Request)
    requires q.Valid() && Within(q.s, q.attrs) && Decidable(q) && ClassOf(Finished(Reply(q))) == 3
    ensures CodeIn(q) in {Some(400), Some(401), Some(438)}
    ensures CodeIn(q) == Some(438) <==> AnswerTo(q).Some? && AnswerTo(q).value.kind == StaleNonce
    ensures CodeIn(q) == Some(401) <==> Unproven(q)
  {
    P.ReplyAccepted(q);
    P.ErrorDecodes(q);
    OutcomeRefuses(q);
  }

  /** Other requests are all refused. */
  lemma OthersRefused(q: Request)
    requires q.Valid() && Within(q.s, q.attrs) && !Decidable(q)
    ensures ClassOf(Finished(Reply(q))) == 3 && CodeIn(q) == Some(400)
  {
    P.ReplyAccepted(q);
    P.ErrorDecodes(q);
  }

  /** The last attribute of a type in the reply, as a text. */
  function TextIn(m: Message, t: nat): Option<seq<byte>>
    requires m.Fits()
  {
    RoundTrip(true, m);
    GrammarWithin(true, Finished(m), Placement(m.attrs));
    match AttributeValue(Finished(m), Placement(m.attrs), t)
    case None => None
    case Some(v) => Some(CString(v))
  }

  /** A challenge has the provider's nonce and realm, where they are not empty, and no other
      refusal has either. */
  lemma ChallengeEchoes(q: Request)
    requires q.Valid() && Within(q.s, q.attrs) && Decidable(q) && ClassOf(Finished(Reply(q))) == 3
    ensures Reply(q).Fits()
    ensures CodeIn(q) in {Some(401), Some(438)} ==>
      && AnswerTo(q).Some?
      && TextIn(Reply(q), NONCE) == NotEmpty(AnswerTo(q).value.nonce)
      && TextIn(Reply(q), REALM) == NotEmpty(AnswerTo(q).value.realm)
    ensures CodeIn(q) == Some(400) ==> TextIn(Reply(q), NONCE) == None && TextIn(Reply(q), REALM) == None
  {
    P.ReplyAccepted(q);
    P.ErrorDecodes(q);
    RefusalTells(q);
    ChallengeTexts(Reply(q), Legacy(q), Outcome(q));
  }

  lemma RefusalTells(q: Request)
    requires q.Valid() && Within(q.s, q.attrs) && Decidable(q) && Outcome(q).code != 0
    ensures 300 <= Outcome(q).code <= 600 && Reply(q).attrs == ErrorAttrs(Legacy(q), Outcome(q))
    ensures Outcome(q).code in {401, 438} ==>
      && AnswerTo(q).Some?
      && Outcome(q).nonce == AnswerTo(q).value.nonce && Outcome(q).realm == AnswerTo(q).value.realm
  {
    OutcomeCodes(q);
  }

  function NotEmpty(text: AuthString): Option<seq<byte>> {
    if text == [] then None else Some(text)
  }

  lemma ChallengeTexts(m: Message, legacy: bool, e: AuthOutcome)
    requires m.Fits() && 300 <= e.code <= 600 && m.attrs == ErrorAttrs(legacy, e)
    ensures TextIn(m, NONCE) == if e.code in {401, 438} then NotEmpty(e.nonce) else None
    ensures TextIn(m, REALM) == if e.code in {401, 438} then NotEmpty(e.realm) else None
  {
    NonceText(m, legacy, e);
    RealmText(m, legacy, e);
  }

  lemma NonceText(m: Message, legacy: bool, e: AuthOutcome)
    requires m.Fits() && 300 <= e.code <= 600 && m.attrs == ErrorAttrs(legacy, e)
    ensures TextIn(m, NONCE) == if e.code in {401, 438} then NotEmpty(e.nonce) else None
  {
    var there := e.code in {401, 438} && e.nonce != [];
    TextOfAttr(m, NONCE, legacy, if there then e.nonce else [], 1);
  }

  lemma RealmText(m: Message, legacy: bool, e: AuthOutcome)
    requires m.Fits() && 300 <= e.code <= 600 && m.attrs == ErrorAttrs(legacy, e)
    ensures TextIn(m, REALM) == if e.code in {401, 438} then NotEmpty(e.realm) else None
  {
    var there := e.code in {401, 438} && e.realm != [];
    TextOfAttr(m, REALM, legacy, if there then e.realm else [], if e.nonce == [] then 1 else 2);
  }

  lemma TextOfAttr(m: Message, t: nat, legacy: bool, text: AuthString, i: nat)
    requires m.Fits()
    requires if text == [] then Lacks(m, t)
      else i < |m.attrs| && m.attrs[i] == Attr(t, WireValue(legacy, text))
           && forall j :: i < j < |m.attrs| ==> m.attrs[j].atype != t
    ensures TextIn(m, t) == NotEmpty(text)
  {
    if text == [] {
      LacksRead(m, t);
    } else {
      assert Has(m, t, WireValue(legacy, text));
      HasRead(m, t, WireValue(legacy, text));
      PaddedText(legacy, text);
    }
  }

  /** The padding of the older format does not change the text. */
  lemma PaddedText(legacy: bool, text: AuthString)
    ensures CString(WireValue(legacy, text)) == text
  {
    CStringPadded(text, Zeros(Padding(|text|)));
    CStringPadded(text, []);
    assert text + [] == text;
  }

  lemma {:induction false} CStringPadded(text: seq<byte>, z: seq<byte>)
    requires 0 !in text && (z == [] || z[0] == 0)
    ensures CString(text + z) == text
    decreases |text|
  {
    if text == [] {
      assert text + z == z;
    } else {
      CStringPadded(text[1..], z);
      assert (text + z)[1..] == text[1..] + z;
    }
  }

  /** The reply is signed just if it serves a request under a digest that passed, and then
      with the key of that digest. */
  lemma SignedExactly(q: Request)
    requires q.Valid() && Within(q.s, q.attrs) && Decidable(q)
    ensures !Lacks(Reply(q), MESSAGEINTEGRITY) <==>
      !BindingRefused(q) && AnswerTo(q).Some? && AnswerTo(q).value.kind == AllowConditional && Proven(q, AnswerTo(q).value)
    ensures !Lacks(Reply(q), MESSAGEINTEGRITY) ==> I.IntegrityValid(
      q.crypto, Finished(Reply(q)), Placement(Reply(q).attrs), AuthKey(q, AnswerTo(q).value))
  {
    ReplyIs(q);
    OutcomeKey(q);
    if Outcome(q).code == 0 {
      SuccessSigned(q, Outcome(q).key);
      if Outcome(q).key.Some? {
        P.SuccessIsSigned(q);
      }
    } else {
      ErrorFormat(Reply(q), Legacy(q), Outcome(q));
    }
  }

  lemma OutcomeKey(q: Request)
    requires Within(q.s, q.attrs) && |q.addresses| == 4 && Decidable(q)
    ensures Outcome(q).key.Some? <==>
      !BindingRefused(q) && AnswerTo(q).Some? && AnswerTo(q).value.kind == AllowConditional && Proven(q, AnswerTo(q).value)
    ensures Outcome(q).key.Some? ==> Outcome(q).code == 0 && Outcome(q).key.value == AuthKey(q, AnswerTo(q).value)
  {}

  lemma SuccessSigned(q: Request, key: Option<seq<byte>>)
    requires q.Valid() && Within(q.s, q.attrs)
    ensures Lacks(SuccessMessage(q, key), MESSAGEINTEGRITY) <==> key == None
  {
    var plain := SuccessMessage(q, None);
    if key.Some? {
      var signed := SuccessMessage(q, key);
      assert signed.attrs[|plain.attrs|].atype == MESSAGEINTEGRITY;
    } else {
      PlainUnsigned(q);
      SuccessTail(q, None);
    }
  }

  lemma PlainUnsigned(q: Request)
    requires q.Valid() && Within(q.s, q.attrs)
    ensures forall i :: 0 <= i < |PlainAttrs(q)| ==> PlainAttrs(q)[i].atype != MESSAGEINTEGRITY
    ensures |SuccessAttrs(q)| == |PlainAttrs(q)| + 1 && XorAttr(q).atype != MESSAGEINTEGRITY
  {}

  /** Every reply has the type of its request. */
  lemma ReplyHasType(q: Request)
    requires q.Valid() && Within(q.s, q.attrs)
    ensures NormalizedType(Finished(Reply(q))) == NormalizedType(q.s)
  {
    P.ReplyAccepted(q);
    RoundTrip(true, Reply(q));
    ReplyIs(q);
    if Outcome(q).code == 0 {
      assert NormalizedType(q.s) == BINDING;
    }
  }

  // ---- a request signed with the key of its own user ------------------------------------------

  /** The keys of RFC 5389 section 15.4: the password, or the digest of user, realm and
      password with colons between them. */
  function KeyFor(c: Crypto, longTerm: bool, user: seq<byte>, realm: seq<byte>, password: seq<byte>): seq<byte> {
    if longTerm then c.md5(user + [58] + realm + [58] + password) else password
  }

  /** A binding request that its sender has signed is served, and its reply signed with the
      same key, if the provider names the same password and mechanism. */
  lemma SignedIsServed(q: Request, m: Message, user: AuthString, realm: AuthString, answer: AuthResponse)
    requires m.mtype == 1 && m.cls == 0 && |m.tid| == TRANSACTION_ID_LENGTH
    requires Says(m, USERNAME, user) && Says(m, REALM, realm)
    requires answer.kind == AllowConditional && (answer.longTerm || answer.password != [])
    requires Asks(q, WithIntegrity(q.crypto, m, KeyFor(q.crypto, answer.longTerm, user, realm, answer.password)))
    requires Within(q.s, q.attrs) && q.auth.Some? && q.auth.value(RequestAuth(q)) == Some(answer)
    requires Decidable(q) && !BindingRefused(q)
    ensures q.Valid() && ClassOf(Finished(Reply(q))) == 2
    ensures I.IntegrityValid(q.crypto, Finished(Reply(q)), Placement(Reply(q).attrs),
                             KeyFor(q.crypto, answer.longTerm, user, realm, answer.password))
  {
    var key := KeyFor(q.crypto, answer.longTerm, user, realm, answer.password);
    OwnKeyPasses(q, m, key);
    KeyIs(q, m, key, user, realm, answer);
    ProvenIsServed(q, answer, key);
  }

  lemma OwnKeyPasses(q: Request, m: Message, key: seq<byte>)
    requires |m.tid| == TRANSACTION_ID_LENGTH && key != [] && Asks(q, WithIntegrity(q.crypto, m, key))
    ensures m.cls == 0 ==> q.Valid()
    ensures I.IntegrityValid(q.crypto, q.s, q.attrs, key)
  {
    var w := WithIntegrity(q.crypto, m, key);
    AsksRead(q, w);
    BodyAdd(m.attrs, w.attrs[|m.attrs|]);
    I.IntegrityAccepted(q.crypto, m, key);
  }

  lemma KeyIs(q: Request, m: Message, key: seq<byte>, user: AuthString, realm: AuthString, answer: AuthResponse)
    requires |m.tid| == TRANSACTION_ID_LENGTH && Asks(q, WithIntegrity(q.crypto, m, key))
    requires Says(m, USERNAME, user) && Says(m, REALM, realm) && Within(q.s, q.attrs)
    ensures AuthKey(q, answer) == KeyFor(q.crypto, answer.longTerm, user, realm, answer.password)
  {
    var w := WithIntegrity(q.crypto, m, key);
    SaysMore(m, w, USERNAME, user);
    SaysMore(m, w, REALM, realm);
    SaysRead(q, w, USERNAME, user);
    SaysRead(q, w, REALM, realm);
  }

  lemma ProvenIsServed(q: Request, answer: AuthResponse, key: seq<byte>)
    requires q.Valid() && Within(q.s, q.attrs) && q.auth.Some? && q.auth.value(RequestAuth(q)) == Some(answer)
    requires answer.kind == AllowConditional && key == AuthKey(q, answer) && Proven(q, answer)
    requires Decidable(q) && !BindingRefused(q)
    ensures ClassOf(Finished(Reply(q))) == 2
    ensures I.IntegrityValid(q.crypto, Finished(Reply(q)), Placement(Reply(q).attrs), key)
  {
    P.ReplyAccepted(q);
    assert Outcome(q).key == Some(key);
    P.SuccessIsSigned(q);
  }

  lemma SaysMore(m: Message, w: Message, t: nat, text: AuthString)
    requires |w.attrs| == |m.attrs| + 1 && w.attrs[..|m.attrs|] == m.attrs && w.attrs[|m.attrs|].atype != t
    requires Says(m, t, text)
    ensures Says(w, t, text)
  {
    forall i | 0 <= i < |m.attrs| ensures w.attrs[i] == m.attrs[i] {
      assert w.attrs[..|m.attrs|][i] == m.attrs[i];
    }
    if text != [] {
      var i :| 0 <= i < |m.attrs| && m.attrs[i] == Attr(t, text) && forall j :: i < j < |m.attrs| ==> m.attrs[j].atype != t;
      assert w.attrs[i] == Attr(t, text);
    }
  }

  // ---- where the reply goes, and from where ---------------------------------------------------

  /** The reply goes to the port that was asked for, on the sender's address; over a
      connection there is none to ask for, and the request is refused. */
  lemma ReplyGoesToPort(q: Request, m: Message, port: nat)
    requires Asks(q, m) && m.cls == 0 && Has(m, RESPONSE_PORT, Be16(port)) && 0 < port < 0x1_0000
    ensures q.Valid() && Within(q.s, q.attrs)
    ensures var d := Destination(q);
      && d.Valid() && d.IsSameIP(q.addrRemote)
      && d.GetPort() == if q.connectionOriented then q.addrRemote.GetPort() else port
    ensures q.connectionOriented ==> ClassOf(Finished(Reply(q))) == 3 && CodeIn(q) == Some(400)
  {
    AsksRead(q, m);
    AsksHas(q, m, RESPONSE_PORT, Be16(port));
    U16Be16(port);
    if q.connectionOriented {
      OthersRefused(q);
    }
  }

  /** Without a port of two bytes that is not zero, it goes where the request came from. */
  lemma ReplyGoesBack(q: Request, m: Message)
    requires Asks(q, m)
    requires Lacks(m, RESPONSE_PORT) || exists a <- m.attrs ::
      Has(m, RESPONSE_PORT, a.value) && (|a.value| != 2 || a.value == [0, 0])
    ensures Within(q.s, q.attrs) && Destination(q) == q.addrRemote
  {
    AsksRead(q, m);
    if Lacks(m, RESPONSE_PORT) {
      AsksLacks(q, m, RESPONSE_PORT);
    } else {
      var a :| a in m.attrs && Has(m, RESPONSE_PORT, a.value) && (|a.value| != 2 || a.value == [0, 0]);
      AsksHas(q, m, RESPONSE_PORT, a.value);
    }
  }

  /** The flags of a change request move a success reply to the other ip and the other port,
      each by itself; a refusal leaves from where the request came in. */
  lemma ReplyMoves(q: Request, m: Message, flags: nat)
    requires Asks(q, m) && m.cls == 0 && Has(m, CHANGEREQUEST, Be32(flags)) && flags < 0x1_0000_0000
    ensures q.Valid() && Within(q.s, q.attrs)
    ensures RoleAfter(q) == if Outcome(q).code == 0 then MovedRole(q.role, flags) else q.role
  {
    AsksRead(q, m);
    ChangeIn(q, m, flags);
  }

  lemma FlagsIn(flags: nat)
    requires flags < 0x1_0000_0000
    ensures U32(Be32(flags), 0) == flags && |Be32(flags)| == 4
  {
    U32Be32(flags);
  }

  /** A change request of another size than four bytes asks for nothing. */
  lemma OddChangeIsNone(q: Request, m: Message, v: seq<byte>)
    requires Asks(q, m) && Has(m, CHANGEREQUEST, v) && |v| != 4
    ensures Within(q.s, q.attrs) && !WantsChange(q) && OutputRole(q) == q.role
  {
    AsksHas(q, m, CHANGEREQUEST, v);
  }

  /** A binding request is refused just if it asks for a port and for padding, or for a change
      that a connection cannot make or to a socket that is not there. */
  lemma RefusedExactly(q: Request, m: Message, port: nat, flags: nat)
    requires Asks(q, m) && port < 0x1_0000 && flags < 0x1_0000_0000
    requires if port == 0 then Lacks(m, RESPONSE_PORT) else Has(m, RESPONSE_PORT, Be16(port))
    requires (Lacks(m, CHANGEREQUEST) && flags == 0) || Has(m, CHANGEREQUEST, Be32(flags))
    ensures Within(q.s, q.attrs)
    ensures BindingRefused(q) <==>
      || (port != 0 && !Lacks(m, PADDING))
      || ((IpFlag(flags) || PortFlag(flags)) && (!q.addresses[MovedRole(q.role, flags)].valid || q.connectionOriented))
  {
    ChangeIn(q, m, flags);
    PortIn(q, m, port);
    PaddingIn(q, m);
  }

  predicate IpFlag(flags: nat) {
    flags / 4 % 2 == 1
  }

  predicate PortFlag(flags: nat) {
    flags / 2 % 2 == 1
  }

  /** The socket with the other ip, the other port, both or neither, as the flags say. */
  function MovedRole(role: Role, flags: nat): Role {
    var ip := if IpFlag(flags) then 1 - role / 2 else role / 2;
    var port := if PortFlag(flags) then 1 - role % 2 else role % 2;
    2 * ip + port
  }

  lemma ChangeIn(q: Request, m: Message, flags: nat)
    requires Asks(q, m) && flags < 0x1_0000_0000
    requires (Lacks(m, CHANGEREQUEST) && flags == 0) || Has(m, CHANGEREQUEST, Be32(flags))
    ensures Within(q.s, q.attrs)
    ensures WantsChange(q) <==> IpFlag(flags) || PortFlag(flags)
    ensures OutputRole(q) == MovedRole(q.role, flags)
  {
    MovedTo(q.role, IpFlag(flags), PortFlag(flags));
    if Lacks(m, CHANGEREQUEST) {
      AsksLacks(q, m, CHANGEREQUEST);
    } else {
      AsksHas(q, m, CHANGEREQUEST, Be32(flags));
      FlagsIn(flags);
    }
  }

  lemma PaddingIn(q: Request, m: Message)
    requires Asks(q, m)
    ensures Within(q.s, q.attrs)
    ensures AttributeValue(q.s, q.attrs, PADDING) != None <==> !Lacks(m, PADDING)
  {
    AsksRead(q, m);
    FoundIfThere(m, PADDING);
  }

  lemma PortIn(q: Request, m: Message, port: nat)
    requires Asks(q, m) && port < 0x1_0000
    requires if port == 0 then Lacks(m, RESPONSE_PORT) else Has(m, RESPONSE_PORT, Be16(port))
    ensures Within(q.s, q.attrs) && RequestedPort(q) == port
  {
    if port == 0 {
      AsksLacks(q, m, RESPONSE_PORT);
    } else {
      AsksHas(q, m, RESPONSE_PORT, Be16(port));
      U16Be16(port);
    }
  }

  lemma MovedTo(role: Role, ip: bool, port: bool)
    ensures var r := if ip then SwapIP(role) else role;
      (if port then SwapPort(r) else r)
        == 2 * (if ip then 1 - role / 2 else role / 2) + (if port then 1 - role % 2 else role % 2)
  {}

  /** A success reply names the address of the socket it leaves from: the one configured for
      it, or, if that is unknown and the socket is the one that was asked, the local one. */
  lemma SuccessTellsOrigin(q: Request)
    requires q.Valid() && Within(q.s, q.attrs) && Outcome(q).code == 0
    ensures var configured := q.addresses[RoleAfter(q)].addr;
      var from := if configured.IsIPAddressZero() && RoleAfter(q) == q.role then q.addrLocal else configured;
      var m := Reply(q);
      && m.Fits() && Within(Finished(m), Placement(m.attrs))
      && EitherAddress(Finished(m), Placement(m.attrs), RESPONSE_ORIGIN, SOURCEADDRESS)
           == if from.IsIPAddressZero() then None else Some(from)
  {
    P.ReplyAccepted(q);
    OriginListed(q, Outcome(q).key);
    var m := Reply(q);
    if Origin(q).IsIPAddressZero() {
      LacksRead(m, RESPONSE_ORIGIN);
      LacksRead(m, SOURCEADDRESS);
    } else if Legacy(q) {
      LacksRead(m, RESPONSE_ORIGIN);
      AddressRead(m, SOURCEADDRESS, Origin(q));
    } else {
      AddressRead(m, RESPONSE_ORIGIN, Origin(q));
    }
  }

  lemma OriginListed(q: Request, key: Option<seq<byte>>)
    requires q.Valid() && Within(q.s, q.attrs)
    ensures var m := SuccessMessage(q, key);
      && Origin(q).Valid()
      && (Origin(q).IsIPAddressZero() ==> Lacks(m, RESPONSE_ORIGIN) && Lacks(m, SOURCEADDRESS))
      && (Legacy(q) ==> Lacks(m, RESPONSE_ORIGIN))
      && (!Origin(q).IsIPAddressZero() ==>
            Has(m, if Legacy(q) then SOURCEADDRESS else RESPONSE_ORIGIN, AddressValue(Origin(q))))
  {
    SuccessTail(q, key);
    PlainOrigin(q);
    var m := SuccessMessage(q, key);
    if !Origin(q).IsIPAddressZero() {
      assert m.attrs[1] == PlainAttrs(q)[1];
    }
  }

  lemma PlainOrigin(q: Request)
    requires q.Valid() && Within(q.s, q.attrs)
    ensures var a, t := PlainAttrs(q), if Legacy(q) then SOURCEADDRESS else RESPONSE_ORIGIN;
      && Origin(q).Valid()
      && (!Origin(q).IsIPAddressZero() ==> |a| > 1 && a[1] == Attr(t, AddressValue(Origin(q))))
      && forall i :: 0 <= i < |a| && (i != 1 || Origin(q).IsIPAddressZero()) ==>
           a[i].atype !in {SOURCEADDRESS, RESPONSE_ORIGIN}
  {}

  /** A request of the older format, without the cookie, is answered with the attributes of
      that format, and any other with those of the newer one. */
  lemma ReplyKeepsFormat(q: Request)
    requires q.Valid() && Within(q.s, q.attrs)
    ensures U32(q.s, 4) == 0x2112A442 ==> NoneOf(Reply(q), {SOURCEADDRESS, CHANGEDADDRESS, XORMAPPEDADDRESS_OPTIONAL})
    ensures U32(q.s, 4) != 0x2112A442 ==> NoneOf(Reply(q), {RESPONSE_ORIGIN, OTHER_ADDRESS, XORMAPPEDADDRESS})
  {
    ReplyIs(q);
    if Outcome(q).code == 0 {
      SuccessFormat(q, Outcome(q).key);
    } else {
      ErrorFormat(Reply(q), Legacy(q), Outcome(q));
    }
  }

  lemma ReplyIs(q: Request)
    requires q.Valid() && Within(q.s, q.attrs)
    ensures Outcome(q).code == 0 ==> Reply(q) == SuccessMessage(q, Outcome(q).key)
    ensures Outcome(q).code != 0 ==> 300 <= Outcome(q).code <= 600 && Reply(q).attrs == ErrorAttrs(Legacy(q), Outcome(q))
  {
    OutcomeCodes(q);
  }

  predicate NoneOf(m: Message, types: set<nat>) {
    forall i :: 0 <= i < |m.attrs| ==> m.attrs[i].atype !in types
  }

  /** The types of one format only. */
  function Foreign(legacy: bool): set<nat> {
    if legacy then {RESPONSE_ORIGIN, OTHER_ADDRESS, XORMAPPEDADDRESS}
    else {SOURCEADDRESS, CHANGEDADDRESS, XORMAPPEDADDRESS_OPTIONAL}
  }

  lemma SuccessFormat(q: Request, key: Option<seq<byte>>)
    requires q.Valid() && Within(q.s, q.attrs)
    ensures NoneOf(SuccessMessage(q, key), Foreign(Legacy(q)))
  {
    PlainFormat(q);
    SuccessTail(q, key);
  }

  lemma PlainFormat(q: Request)
    requires q.Valid() && Within(q.s, q.attrs)
    ensures forall i :: 0 <= i < |PlainAttrs(q)| ==> PlainAttrs(q)[i].atype !in Foreign(Legacy(q))
  {}

  /** Behind the addresses in the clear are the masked one and the digest. */
  lemma SuccessTail(q: Request, key: Option<seq<byte>>)
    requires q.Valid() && Within(q.s, q.attrs)
    ensures var a, n := SuccessMessage(q, key).attrs, |PlainAttrs(q)|;
      && n < |a| && (forall i :: 0 <= i < n ==> a[i] == PlainAttrs(q)[i])
      && (forall i :: n <= i < |a| ==> a[i] == XorAttr(q) || a[i].atype == MESSAGEINTEGRITY)
  {
    var m := SuccessMessage(q, None);
    if key.Some? {
      var mac := WithIntegrity(q.crypto, m, key.value).attrs[|m.attrs|];
      assert SuccessMessage(q, key).attrs == m.attrs + [mac];
    }
  }

  lemma ErrorFormat(m: Message, legacy: bool, e: AuthOutcome)
    requires 300 <= e.code <= 600 && m.attrs == ErrorAttrs(legacy, e)
    ensures forall i :: 0 <= i < |m.attrs| ==> m.attrs[i].atype in {ERRORCODE, NONCE, REALM}
  {}
}
