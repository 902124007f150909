/** CStunRequestHandler: checks a request step by step and writes the reply. */
module MessageHandler {
  import opened Seals
  import opened Bytes
  import opened StunFormat
  import opened StunMessage
  import opened StunQuery
  import opened SocketAddress
  import opened HandlerSpec
  import opened DataStream
  import opened StunReader
  import opened StunBuilder
  import I = Integrity
  import P = HandlerProofs

  /** Seals what is known of the reader. */
  datatype ReaderSeal = ReaderSeal

  class MessageOut {
    var socketrole: Role
    var addrDest: Address
    const buffer: Buffer

    constructor (buffer: Buffer, addr: Address)
      ensures this.buffer == buffer && fresh(this)
    {
      this.buffer, socketrole, addrDest := buffer, 0, addr;
    }
  }

  class Handler {
    const reader: Reader
    const msgOut: MessageOut
    const role: Role
    const addrLocal: Address
    const addrRemote: Address
    const connectionOriented: bool
    const addresses: seq<TransportAddress>
    const auth: Option<AuthCheck>
    const crypto: Crypto

    var errorcode: nat
    var errorType: nat
    var errorNonce: AuthString
    var errorRealm: AuthString
    var sendWithIntegrity: bool
    var useLongTerm: bool
    var user: seq<byte>
    var realm: seq<byte>
    var password: AuthString
    var requestHasResponsePort: bool
    var transid: seq<byte>
    var legacyMode: bool

    ghost function Q(): Request
      reads reader
    {
      Request(reader.fed, reader.attrs, role, addrLocal, addrRemote, connectionOriented, addresses, auth, crypto)
    }

    /** The reader has a validated message. This is opened by those who ask the reader, and
        compared with true below so that all others hand it on as a whole. */
    ghost predicate ReaderOk()
      reads reader, reader.stream, reader.stream.Repr, reader.mapAttributes, reader.mapAttributes.Repr
    {
      forall u: ReaderSeal {:trigger Opened(u)} :: Opened(u) ==> reader.Valid() && reader.state == BodyValidated
    }

    /** The request is a valid one, and the reply goes to memory of its own. */
    ghost predicate Ready()
      reads reader, reader.stream, reader.stream.Repr, reader.mapAttributes, reader.mapAttributes.Repr,
            msgOut, msgOut.buffer
    {
      Handed() && Q().Valid()
    }

    /** A message was received, and the reply goes to memory of its own. */
    ghost predicate Handed()
      reads reader, reader.stream, reader.stream.Repr, reader.mapAttributes, reader.mapAttributes.Repr,
            msgOut, msgOut.buffer
    {
      && ReaderOk() == true
      && Q().Received() && Prepares(Q()) && reader.msgClass == ClassOf(reader.fed)
      && msgOut.buffer.size <= msgOut.buffer.data.Length && msgOut.buffer.data.Length >= MAX_MESSAGE_SIZE
      && {msgOut, this, msgOut.buffer, msgOut.buffer.data}
         !! ({reader, reader.stream} + reader.stream.Repr + reader.mapAttributes.Repr)
      && msgOut as object != msgOut.buffer && this as object != msgOut && this as object != msgOut.buffer
    }

    constructor (reader: Reader, msgOut: MessageOut, role: Role, addrLocal: Address, addrRemote: Address,
                 connectionOriented: bool, addresses: seq<TransportAddress>, auth: Option<AuthCheck>, crypto: Crypto)
      ensures this.reader == reader && this.msgOut == msgOut && fresh(this)
      ensures this.role == role && this.addrLocal == addrLocal && this.addrRemote == addrRemote
      ensures this.connectionOriented == connectionOriented && this.addresses == addresses
      ensures this.auth == auth && this.crypto == crypto
      ensures errorcode == 0 && errorNonce == [] && errorRealm == [] && !sendWithIntegrity && !requestHasResponsePort
    {
      this.reader, this.msgOut, this.role, this.addrLocal, this.addrRemote := reader, msgOut, role, addrLocal, addrRemote;
      this.connectionOriented, this.addresses, this.auth, this.crypto := connectionOriented, addresses, auth, crypto;
      errorcode, errorType, errorNonce, errorRealm := 0, 0, [], [];
      sendWithIntegrity, useLongTerm, user, realm, password := false, false, [], [], [];
      requestHasResponsePort, transid, legacyMode := false, Zeros(TRANSACTION_ID_LENGTH), false;
    }

    // ---- authentication --------------------------------------------------------------

    method TextOf(t: nat) returns (text: seq<byte>)
      requires Ready()
      ensures text == TextAttribute(Q(), t)
    {
      assert Opened(ReaderSeal);
      var v := reader.GetValue(t);
      text := [];
      if v.Some? && |v.value| < MAX_AUTH_STRING + 1 {
        text := CString(v.value);
      }
    }

    /** The key the outcome of authentication is signed with. */
    ghost function SigningKey(): Option<seq<byte>>
      reads this
    {
      if !sendWithIntegrity then None
      else if useLongTerm then Some(LongTermKey(crypto, user, realm, password))
      else Some(password)
    }

    /** The fields say what auth decided. */
    ghost predicate Decided(a: AuthOutcome)
      reads this
    {
      && errorcode == a.code && SigningKey() == a.key
      && ((a.code == STALENONCE || a.code == UNAUTHORIZED) ==> errorNonce == a.nonce && errorRealm == a.realm)
    }

    /** Checks who sent the request, and says how to answer if that was decided. */
    method ValidateAuth() returns (ok: bool)
      requires Ready() && errorcode == 0 && !sendWithIntegrity
      modifies this`errorcode, this`errorNonce, this`errorRealm, this`sendWithIntegrity, this`useLongTerm,
               this`user, this`realm, this`password
      ensures Ready()
      ensures ok ==> Decided(Authenticate(Q()))
      ensures !ok ==> errorcode == 0 && !sendWithIntegrity && Authenticate(Q()) == AuthOutcome(BADREQUEST, [], [], None)
    {
      if auth == None {
        return true;
      }
      var u, r, answer := AskProvider();
      if answer == None {
        return false;
      }
      var valid := CheckKey(u, r, answer.value);
      Decide(Q(), u, r, answer.value, valid);
      return true;
    }

    method AskProvider() returns (u: seq<byte>, r: seq<byte>, answer: Option<AuthResponse>)
      requires Ready() && auth != None
      ensures u == TextAttribute(Q(), USERNAME) && r == TextAttribute(Q(), REALM)
      ensures answer == auth.value(RequestAuth(Q()))
    {
      u := TextOf(USERNAME);
      r := TextOf(REALM);
      var n := TextOf(NONCE);
      var l := TextOf(LEGACY_PASSWORD);
      var present := HasMessageIntegrity();
      answer := auth.value(AuthAttributes(u, r, n, l, present));
    }

    method HasMessageIntegrity() returns (present: bool)
      requires Ready()
      ensures present <==> I.Find(reader.attrs, MESSAGEINTEGRITY) != -1
    {
      assert Opened(ReaderSeal);
      var mi := reader.GetAttributeByType(MESSAGEINTEGRITY);
      present := mi.Some?;
    }

    /** ValidateMessageIntegrityLong or ValidateMessageIntegrityShort, where it is asked for. */
    method CheckKey(u: seq<byte>, r: seq<byte>, answer: AuthResponse) returns (valid: bool)
      requires Ready()
      requires u == TextAttribute(Q(), USERNAME) && r == TextAttribute(Q(), REALM)
      ensures valid == (answer.kind == AllowConditional
                        && I.IntegrityValid(crypto, reader.fed, reader.attrs, AuthKey(Q(), answer)))
    {
      if answer.kind != AllowConditional {
        return false;
      }
      var key := if answer.longTerm then LongTermKey(crypto, u, r, answer.password) else answer.password;
      assert Opened(ReaderSeal);
      valid := reader.ValidateMessageIntegrity(crypto, key);
    }

    method Decide(ghost q: Request, u: seq<byte>, r: seq<byte>, answer: AuthResponse, valid: bool)
      requires errorcode == 0 && !sendWithIntegrity && q.crypto == crypto
      requires Within(q.s, q.attrs) && u == TextAttribute(q, USERNAME) && r == TextAttribute(q, REALM)
      requires valid <==> answer.kind == AllowConditional && I.IntegrityValid(crypto, q.s, q.attrs, AuthKey(q, answer))
      modifies this`errorcode, this`errorNonce, this`errorRealm, this`sendWithIntegrity, this`useLongTerm,
               this`user, this`realm, this`password
      ensures Decided(Judge(q, answer))
    {
      match answer.kind {
        case StaleNonce => errorcode := STALENONCE;
        case Unauthorized => errorcode := UNAUTHORIZED;
        case Reject => errorcode := BADREQUEST;
        case Allow =>
        case AllowConditional =>
          if valid {
            sendWithIntegrity, useLongTerm := true, answer.longTerm;
            password, user, realm := answer.password, u, r;
          } else {
            errorcode := UNAUTHORIZED;
          }
      }
      if errorcode == UNAUTHORIZED || errorcode == STALENONCE {
        errorRealm, errorNonce := answer.realm, answer.nonce;
      }
    }

    // ---- the replies -----------------------------------------------------------------

    /** The reply buffer holds this message. */
    ghost predicate Written(m: Message)
      reads msgOut, msgOut.buffer, msgOut.buffer.data
    {
      && |m.tid| == TRANSACTION_ID_LENGTH
      && msgOut.buffer.size <= msgOut.buffer.data.Length
      && msgOut.buffer.data[..msgOut.buffer.size] == Finished(m)
    }

    /** The builder works in the reply buffer and has written this much of the reply. */
    ghost predicate Writing(b: Builder, m: Message, length: nat)
      reads this, msgOut, msgOut.buffer, b, b.stream, b.stream.Repr
    {
      && b.Valid() && b.legacyMode == legacyMode
      && b.stream.buffer == msgOut.buffer && b.stream.Repr == {b.stream, msgOut.buffer, msgOut.buffer.data}
      && msgOut.buffer.data.Length >= MAX_MESSAGE_SIZE
      && |m.tid| == TRANSACTION_ID_LENGTH && b.transactionid == m.tid
      && b.stream.bytes == MessageBytes(m, length)
    }

    method Start(msgType: nat, msgClass: nat) returns (b: Builder)
      requires msgOut.buffer.size <= msgOut.buffer.data.Length && msgOut.buffer.data.Length >= MAX_MESSAGE_SIZE
      requires |transid| == TRANSACTION_ID_LENGTH
      modifies msgOut.buffer, msgOut.buffer.data
      ensures fresh(b) && fresh(b.stream) && msgOut.buffer.data == old(msgOut.buffer.data)
      ensures Writing(b, Message(msgType, msgClass, transid, []), 0)
    {
      var _ := msgOut.buffer.SetSize(0);
      b := new Builder();
      b.AttachTo(msgOut.buffer);
      b.SetLegacyMode(legacyMode);
      b.AddHeader(msgType, msgClass);
      b.AddTransactionId(transid);
      assert b.stream.bytes == MessageBytes(Message(msgType, msgClass, transid, []), 0);
    }

    /** Patches the length: the reply is finished. */
    method Finish(b: Builder, ghost m: Message, ghost length: nat)
      requires Writing(b, m, length)
      modifies b.stream, msgOut.buffer, msgOut.buffer.data
      ensures Written(m) && msgOut.buffer.data == old(msgOut.buffer.data)
    {
      PatchFinishes(m, length);
      var _ := b.FixLengthField();
      assert b.stream.bytes == Finished(m);
    }

    /** One more attribute of at most this size has been appended. */
    lemma Extended(m: Message, a: Attr)
      requires |m.tid| == TRANSACTION_ID_LENGTH
      ensures MessageBytes(m, 0) + AttrBytes(a) == MessageBytes(m.Add(a), 0)
      ensures |MessageBytes(m.Add(a), 0)| == HEADER_SIZE + |Body(m.attrs)| + |AttrBytes(a)|
    {
      MessageAdd(m, 0, a);
    }

    /** What the fields say an error reply is to tell. */
    ghost function Told(): AuthOutcome
      reads this
    {
      AuthOutcome(errorcode, errorRealm, errorNonce, None)
    }

    method BuildErrorResponse()
      requires msgOut.buffer.size <= msgOut.buffer.data.Length && msgOut.buffer.data.Length >= MAX_MESSAGE_SIZE
      requires this as object != msgOut.buffer && 300 <= errorcode <= 600 && |transid| == TRANSACTION_ID_LENGTH
      modifies msgOut.buffer, msgOut.buffer.data
      ensures msgOut.buffer.data == old(msgOut.buffer.data)
      ensures Written(Message(errorType, 3, transid, ErrorAttrs(legacyMode, Told())))
    {
      var b := Start(errorType, 3);
      ghost var m := PutErrorCode(b, Message(errorType, 3, transid, []));
      m := PutChallenge(b, m);
      assert m.attrs == ErrorAttrs(legacyMode, Told());
      Finish(b, m, 0);
    }

    /** For a challenge, the nonce and the realm. */
    method PutChallenge(b: Builder, ghost m: Message) returns (ghost r: Message)
      requires Writing(b, m, 0) && |Body(m.attrs)| <= 400
      modifies b.stream.Repr
      ensures Writing(b, r, 0) && msgOut.buffer.data == old(msgOut.buffer.data)
      ensures r == m.(attrs := m.attrs + Challenge(legacyMode, Told()))
    {
      r := m;
      if errorcode == STALENONCE || errorcode == UNAUTHORIZED {
        r := PutNonceAndRealm(b, m);
      }
    }

    method PutNonceAndRealm(b: Builder, ghost m: Message) returns (ghost r: Message)
      requires Writing(b, m, 0) && |Body(m.attrs)| <= 400
      modifies b.stream.Repr
      ensures Writing(b, r, 0) && msgOut.buffer.data == old(msgOut.buffer.data)
      ensures r == m.(attrs :=
        m.attrs + (TextAttrs(legacyMode, NONCE, errorNonce) + TextAttrs(legacyMode, REALM, errorRealm)))
    {
      r := PutTextIfAny(b, m, NONCE, errorNonce);
      r := PutTextIfAny(b, r, REALM, errorRealm);
      P.Regroup(m.attrs, TextAttrs(legacyMode, NONCE, errorNonce), TextAttrs(legacyMode, REALM, errorRealm));
    }

    method PutTextIfAny(b: Builder, ghost m: Message, t: nat, text: AuthString) returns (ghost r: Message)
      requires Writing(b, m, 0) && |Body(m.attrs)| <= 600
      modifies b.stream.Repr
      ensures Writing(b, r, 0) && msgOut.buffer.data == old(msgOut.buffer.data)
      ensures r == m.(attrs := m.attrs + TextAttrs(legacyMode, t, text))
      ensures |Body(r.attrs)| <= |Body(m.attrs)| + 68
    {
      r := m;
      if text != [] {
        r := PutText(b, m, t, text);
      }
    }

    method PutErrorCode(b: Builder, ghost m: Message) returns (ghost r: Message)
      requires Writing(b, m, 0) && m.attrs == [] && 300 <= errorcode <= 600
      modifies b.stream.Repr
      ensures Writing(b, r, 0) && r == m.Add(Attr(ERRORCODE, WireValue(legacyMode, ErrorValue(errorcode, FAILED))))
      ensures |Body(r.attrs)| == 16 && msgOut.buffer.data == old(msgOut.buffer.data)
    {
      ghost var code := Attr(ERRORCODE, WireValue(legacyMode, ErrorValue(errorcode, FAILED)));
      P.ErrorAttrSize(legacyMode, errorcode);
      P.BodyOne(code);
      Extended(m, code);
      var _ := b.AddErrorCode(errorcode, FAILED);
      r := m.Add(code);
    }

    /** AddStringAttribute, for a string that is not empty. */
    method PutText(b: Builder, ghost m: Message, t: nat, text: AuthString) returns (ghost r: Message)
      requires Writing(b, m, 0) && |Body(m.attrs)| <= 600 && text != []
      modifies b.stream.Repr
      ensures Writing(b, r, 0) && r == m.Add(Attr(t, WireValue(legacyMode, text)))
      ensures |Body(r.attrs)| <= |Body(m.attrs)| + 68 && msgOut.buffer.data == old(msgOut.buffer.data)
    {
      r := m.Add(Attr(t, WireValue(legacyMode, text)));
      P.TextSize(legacyMode, t, text);
      Extended(m, Attr(t, WireValue(legacyMode, text)));
      b.AddAttribute(t, text);
    }

    // ---- the binding request ---------------------------------------------------------

    /** HasAddress. */
    predicate HasAddress(r: Role)
      requires |addresses| == 4
    {
      addresses[r].valid
    }

    /** Whether the request can be served, and from which socket. */
    method ChooseSocket() returns (refused: bool, socketOutput: Role)
      requires Ready() && requestHasResponsePort == (RequestedPort(Q()) != 0)
      ensures refused == BindingRefused(Q())
      ensures !refused ==> socketOutput == OutputRole(Q())
    {
      socketOutput := role;
      assert Opened(ReaderSeal);
      var padding := reader.GetValue(PADDING);
      if requestHasResponsePort && padding.Some? {
        return true, socketOutput;
      }
      var changeIP, changePort := GetChangeRequest();
      if changeIP || changePort {
        if changeIP {
          socketOutput := SwapIP(socketOutput);
        }
        if changePort {
          socketOutput := SwapPort(socketOutput);
        }
        if !HasAddress(socketOutput) || connectionOriented {
          return true, socketOutput;
        }
      }
      return false, socketOutput;
    }

    /** The two flags of a change request, if there is one. */
    method GetChangeRequest() returns (changeIP: bool, changePort: bool)
      requires Ready()
      ensures changeIP || changePort ==> ChangeRequest(reader.fed, reader.attrs) == Some((changeIP, changePort))
      ensures !changeIP && !changePort ==> ChangeRequest(reader.fed, reader.attrs) in {None, Some((false, false))}
    {
      assert Opened(ReaderSeal);
      var v := reader.GetValue(CHANGEREQUEST);
      if v.Some? && |v.value| == 4 {
        var flags := U32(v.value, 0);
        return flags / 4 % 2 == 1, flags / 2 % 2 == 1;
      }
      return false, false;
    }

    method ProcessBindingRequest() returns (ok: bool)
      requires Ready() && errorcode == 0 && requestHasResponsePort == (RequestedPort(Q()) != 0)
      requires transid == TransactionId(reader.fed) && legacyMode == Legacy(Q())
      requires SigningKey().Some? ==> SigningKey().value != []
      modifies this`errorcode, msgOut`socketrole, msgOut.buffer, msgOut.buffer.data
      ensures msgOut.buffer.data == old(msgOut.buffer.data)
      ensures ok == !BindingRefused(old(Q()))
      ensures errorcode == if ok then 0 else BADREQUEST
      ensures ok ==> Written(SuccessMessage(old(Q()), old(SigningKey()))) && msgOut.socketrole == OutputRole(old(Q()))
      ensures !ok ==> msgOut.socketrole == old(msgOut.socketrole) && msgOut.buffer.size == 0
    {
      var refused, socketOutput := ChooseSocket();
      if refused {
        var _ := msgOut.buffer.SetSize(0);
        errorcode := BADREQUEST;
        return false;
      }
      var origin := ChooseOrigin(socketOutput);
      ghost var q := Q();
      msgOut.socketrole := socketOutput;
      Answer(q, origin);
      return true;
    }

    /** Whether to tell the other address, and the reply. */
    method Answer(ghost q: Request, origin: Address)
      requires q.Valid() && Within(q.s, q.attrs) && q.addrRemote == addrRemote && q.crypto == crypto
      requires q.role == role && q.addresses == addresses
      requires msgOut.buffer.size <= msgOut.buffer.data.Length && msgOut.buffer.data.Length >= MAX_MESSAGE_SIZE
      requires this as object != msgOut.buffer && transid == TransactionId(q.s) && legacyMode == Legacy(q)
      requires origin == Origin(q)
      requires SigningKey().Some? ==> SigningKey().value != []
      modifies msgOut.buffer, msgOut.buffer.data
      ensures msgOut.buffer.data == old(msgOut.buffer.data)
      ensures Written(SuccessMessage(q, SigningKey()))
    {
      var sendOther := HasAddress(0) && HasAddress(1) && HasAddress(2) && HasAddress(3);
      var socketOther := SwapIP(SwapPort(role));
      if sendOther {
        sendOther := HasAddress(socketOther) && !addresses[socketOther].addr.IsIPAddressZero();
      }
      WriteSuccess(q, origin, sendOther, addresses[socketOther].addr);
    }

    /** The address answered from, as far as it is known. */
    method ChooseOrigin(socketOutput: Role) returns (origin: Address)
      requires Ready() && socketOutput == OutputRole(Q())
      ensures origin == Origin(Q())
    {
      origin := addresses[socketOutput].addr;
      if origin.IsIPAddressZero() {
        if socketOutput == role {
          origin := addrLocal;
        }
      }
    }

    /** The success reply, attribute by attribute. */
    method WriteSuccess(ghost q: Request, origin: Address, sendOther: bool, other: Address)
      requires q.Valid() && Within(q.s, q.attrs) && q.addrRemote == addrRemote && q.crypto == crypto
      requires msgOut.buffer.size <= msgOut.buffer.data.Length && msgOut.buffer.data.Length >= MAX_MESSAGE_SIZE
      requires this as object != msgOut.buffer && transid == TransactionId(q.s) && legacyMode == Legacy(q)
      requires origin == Origin(q) && sendOther == SendsOther(q) && other == q.addresses[OtherRole(q)].addr
      requires SigningKey().Some? ==> SigningKey().value != []
      modifies msgOut.buffer, msgOut.buffer.data
      ensures msgOut.buffer.data == old(msgOut.buffer.data)
      ensures Written(SuccessMessage(q, SigningKey()))
    {
      var b := PutSuccess(q, origin, sendOther, other);
      P.SuccessSize(q);
      Complete(b, SuccessMessage(q, None));
    }

    /** Signs the reply, if there is a key to sign it with, and finishes it. */
    method Complete(b: Builder, ghost m: Message)
      requires Writing(b, m, 0) && |Body(m.attrs)| <= 600
      requires SigningKey().Some? ==> SigningKey().value != []
      modifies b.stream.Repr
      ensures msgOut.buffer.data == old(msgOut.buffer.data)
      ensures Written(if SigningKey() == None then m else WithIntegrity(crypto, m, SigningKey().value))
    {
      if sendWithIntegrity {
        ghost var w := Sign(b, m);
        Finish(b, w, |Body(w.attrs)|);
      } else {
        Finish(b, m, 0);
      }
    }

    /** Its attributes before a message integrity attribute. */
    method PutSuccess(ghost q: Request, origin: Address, sendOther: bool, other: Address) returns (b: Builder)
      requires q.Valid() && Within(q.s, q.attrs) && q.addrRemote == addrRemote
      requires msgOut.buffer.size <= msgOut.buffer.data.Length && msgOut.buffer.data.Length >= MAX_MESSAGE_SIZE
      requires transid == TransactionId(q.s) && legacyMode == Legacy(q)
      requires origin == Origin(q) && sendOther == SendsOther(q) && other == q.addresses[OtherRole(q)].addr
      modifies msgOut.buffer, msgOut.buffer.data
      ensures fresh(b) && fresh(b.stream) && msgOut.buffer.data == old(msgOut.buffer.data)
      ensures Writing(b, SuccessMessage(q, None), 0)
    {
      b := Start(BINDING, 2);
      PutPlain(b, q, origin, sendOther, other);
      P.PlainSize(q);
      ghost var m := PutXor(b, Message(BINDING, 2, transid, PlainAttrs(q)), q);
    }

    /** The addresses in the clear. */
    method PutPlain(b: Builder, ghost q: Request, origin: Address, sendOther: bool, other: Address)
      requires q.Valid() && Within(q.s, q.attrs) && q.addrRemote == addrRemote && legacyMode == Legacy(q)
      requires origin == Origin(q) && sendOther == SendsOther(q) && other == q.addresses[OtherRole(q)].addr
      requires Writing(b, Message(BINDING, 2, transid, []), 0)
      modifies b.stream.Repr
      ensures Writing(b, Message(BINDING, 2, transid, PlainAttrs(q)), 0)
      ensures msgOut.buffer.data == old(msgOut.buffer.data)
    {
      ghost var m := PutAddressIf(b, Message(BINDING, 2, transid, []), true, 0, addrRemote);
      m := PutAddressIf(b, m, !origin.IsIPAddressZero(), 1, origin);
      m := PutAddressIf(b, m, sendOther, 2, other);
      assert m.attrs == PlainAttrs(q);
    }

    ghost function AddressType(which: nat): nat
      reads this
    {
      if which == 0 then MAPPEDADDRESS
      else if which == 1 then (if legacyMode then SOURCEADDRESS else RESPONSE_ORIGIN)
      else (if legacyMode then CHANGEDADDRESS else OTHER_ADDRESS)
    }

    method PutAddressIf(b: Builder, ghost m: Message, send: bool, which: nat, a: Address) returns (ghost r: Message)
      requires Writing(b, m, 0) && |Body(m.attrs)| <= 600 && a.Valid() && which <= 2
      modifies b.stream.Repr
      ensures Writing(b, r, 0) && msgOut.buffer.data == old(msgOut.buffer.data)
      ensures r == m.(attrs := m.attrs + (if send then [AddressAttr(AddressType(which), a)] else []))
      ensures |Body(r.attrs)| <= |Body(m.attrs)| + 24
    {
      r := m;
      if send {
        r := PutAddress(b, m, which, a);
      }
    }

    /** One of the plain address attributes. */
    method PutAddress(b: Builder, ghost m: Message, which: nat, a: Address) returns (ghost r: Message)
      requires Writing(b, m, 0) && |Body(m.attrs)| <= 600 && a.Valid() && which <= 2
      modifies b.stream.Repr
      ensures Writing(b, r, 0) && msgOut.buffer.data == old(msgOut.buffer.data)
      ensures r == m.Add(AddressAttr(AddressType(which), a))
      ensures |Body(r.attrs)| <= |Body(m.attrs)| + 24
    {
      ghost var t := AddressType(which);
      r := m.Add(AddressAttr(t, a));
      Extended(m, AddressAttr(t, a));
      if which == 0 {
        b.AddMappedAddress(a);
      } else if which == 1 {
        b.AddResponseOriginAddress(a);
      } else {
        b.AddOtherAddress(a);
      }
    }

    method PutXor(b: Builder, ghost m: Message, ghost q: Request) returns (ghost r: Message)
      requires Writing(b, m, 0) && |Body(m.attrs)| <= 600
      requires q.Valid() && Within(q.s, q.attrs) && m.tid == TransactionId(q.s)
      requires q.addrRemote == addrRemote && legacyMode == Legacy(q)
      modifies b.stream.Repr
      ensures Writing(b, r, 0) && msgOut.buffer.data == old(msgOut.buffer.data)
      ensures r == m.Add(XorAttr(q))
      ensures |Body(r.attrs)| <= |Body(m.attrs)| + 24
    {
      r := m.Add(XorAttr(q));
      Extended(m, XorAttr(q));
      b.AddXorMappedAddress(addrRemote);
    }

    /** AddMessageIntegrityShortTerm or AddMessageIntegrityLongTerm. */
    method Sign(b: Builder, ghost m: Message) returns (ghost r: Message)
      requires Writing(b, m, 0) && |Body(m.attrs)| <= 600
      requires sendWithIntegrity && SigningKey().value != []
      modifies b.stream.Repr
      ensures Writing(b, r, |Body(r.attrs)|) && msgOut.buffer.data == old(msgOut.buffer.data)
      ensures r == WithIntegrity(crypto, m, SigningKey().value)
    {
      var key := if useLongTerm then LongTermKey(crypto, user, realm, password) else password;
      r := WithIntegrity(crypto, m, key);
      AddIntegrityIs(crypto, m, 0, key);
      var _ := b.AddMessageIntegrityImpl(crypto, key);
    }

    // ---- a request, from start to reply ------------------------------------------------

    /** Takes what every reply needs, and the response port if there is one. */
    method Prepare(ghost q: Request, responseport: nat)
      requires Prepares(q) && responseport == RequestedPort(q) && q.connectionOriented == connectionOriented
      requires errorcode == 0 && !requestHasResponsePort
      modifies this`errorType, this`transid, this`legacyMode, this`requestHasResponsePort, this`errorcode, msgOut`addrDest
      ensures Prepared(q)
      ensures requestHasResponsePort == (RequestedPort(q) != 0)
      ensures errorcode == if RequestedPort(q) != 0 && connectionOriented then BADREQUEST else 0
      ensures msgOut.addrDest == if RequestedPort(q) != 0 && !connectionOriented
                                 then old(msgOut.addrDest).SetPort(RequestedPort(q)) else old(msgOut.addrDest)
    {
      errorType := reader.msgTypeNormalized;
      transid := reader.transactionid;
      legacyMode := reader.messageIsLegacyFormat;
      HonorResponsePort(responseport);
    }

    ghost predicate Prepares(q: Request)
      reads reader
    {
      && Within(q.s, q.attrs)
      && reader.msgTypeNormalized == NormalizedType(q.s)
      && reader.transactionid == TransactionId(q.s) && reader.messageIsLegacyFormat == Legacy(q)
    }

    method AskResponsePort() returns (responseport: nat)
      requires Ready()
      ensures responseport == RequestedPort(Q())
    {
      assert Opened(ReaderSeal);
      var v := reader.GetValue(RESPONSE_PORT);
      responseport := if v.Some? && |v.value| == 2 then U16(v.value, 0) else 0;
    }

    /** A reply goes to the response port if that can be done. */
    method HonorResponsePort(responseport: nat)
      requires errorcode == 0 && !requestHasResponsePort
      modifies this`requestHasResponsePort, this`errorcode, msgOut`addrDest
      ensures requestHasResponsePort == (responseport != 0)
      ensures errorcode == if responseport != 0 && connectionOriented then BADREQUEST else 0
      ensures msgOut.addrDest == if responseport != 0 && !connectionOriented
                                 then old(msgOut.addrDest).SetPort(responseport) else old(msgOut.addrDest)
    {
      if responseport != 0 {
        requestHasResponsePort := true;
        if connectionOriented {
          errorcode := BADREQUEST;
        } else {
          msgOut.addrDest := msgOut.addrDest.SetPort(responseport);
        }
      }
    }

    ghost predicate Prepared(q: Request)
      requires |q.s| >= HEADER_SIZE
      reads this
    {
      errorType == NormalizedType(q.s) && transid == TransactionId(q.s) && legacyMode == Legacy(q)
    }

    /** Only binding requests from those who may make them are processed. */
    method CheckRequest()
      requires Ready() && !sendWithIntegrity
      requires errorcode == if RequestedPort(Q()) != 0 && connectionOriented then BADREQUEST else 0
      modifies this`errorcode, this`errorNonce, this`errorRealm, this`sendWithIntegrity, this`useLongTerm,
               this`user, this`realm, this`password
      ensures Ready()
      ensures Decided(Checked(Q()))
    {
      if errorcode == 0 {
        if reader.msgTypeNormalized != BINDING {
          errorcode := BADREQUEST;
        }
      }
      if errorcode == 0 {
        var ok := ValidateAuth();
        if !ok && errorcode == 0 {
          errorcode := BADREQUEST;
        }
      }
    }

    /** Everything but a request is ignored; every request gets its reply. */
    method ProcessRequestImpl(ghost q: Request) returns (ok: bool)
      requires Handed() && errorcode == 0 && !sendWithIntegrity && !requestHasResponsePort
      requires q == Q() && msgOut.socketrole == role && msgOut.addrDest == addrRemote
      modifies this, msgOut, msgOut.buffer, msgOut.buffer.data
      ensures msgOut.buffer.data == old(msgOut.buffer.data)
      ensures ok <==> q.Valid()
      ensures ok ==> Written(Reply(q)) && msgOut.socketrole == RoleAfter(q) && msgOut.addrDest == Destination(q)
      ensures !ok ==> unchanged(msgOut, msgOut.buffer, msgOut.buffer.data)
    {
      if reader.msgClass != 0 {
        return false;
      }
      Check(q);
      Respond(q);
      return true;
    }

    /** All that is decided before the binding request itself is looked at. */
    method Check(ghost q: Request)
      requires Ready() && q == Q() && errorcode == 0 && !sendWithIntegrity && !requestHasResponsePort
      requires msgOut.addrDest == addrRemote
      modifies this`errorType, this`transid, this`legacyMode, this`requestHasResponsePort, this`errorcode,
               this`errorNonce, this`errorRealm, this`sendWithIntegrity, this`useLongTerm, this`user, this`realm,
               this`password, msgOut`addrDest
      ensures Ready() && q == Q() && Prepared(q) && Decided(Checked(q)) && msgOut.addrDest == Destination(q)
      ensures requestHasResponsePort == (RequestedPort(q) != 0)
    {
      var responseport := AskResponsePort();
      Prepare(q, responseport);
      CheckRequest();
    }

    /** Writes the reply that the checks so far and those of the binding request call for. */
    method Respond(ghost q: Request)
      requires Ready() && q == Q() && Prepared(q) && Decided(Checked(q)) && msgOut.socketrole == role
      requires requestHasResponsePort == (RequestedPort(q) != 0)
      modifies this`errorcode, msgOut`socketrole, msgOut.buffer, msgOut.buffer.data
      ensures msgOut.buffer.data == old(msgOut.buffer.data)
      ensures Written(Reply(q)) && msgOut.socketrole == RoleAfter(q)
    {
      CheckedCodes(q);
      if errorcode == 0 {
        var _ := ProcessBindingRequest();
      }
      ReplyIs(q, Told());
      if errorcode != 0 {
        BuildErrorResponse();
      }
    }
  }

  /** What the outcome of the checks makes of the reply: the strings echoed matter only where
      the code is one that echoes them. */
  lemma ReplyIs(q: Request, told: AuthOutcome)
    requires q.Valid() && Within(q.s, q.attrs)
    ensures Outcome(q).code == 0 ==> !BindingRefused(q) && Reply(q) == SuccessMessage(q, Checked(q).key)
    ensures Outcome(q).code != 0 && told.code == Outcome(q).code
         && (told.code in {STALENONCE, UNAUTHORIZED} ==> told.nonce == Outcome(q).nonce && told.realm == Outcome(q).realm)
         ==> 300 <= told.code <= 600 &&
             Reply(q) == Message(NormalizedType(q.s), 3, TransactionId(q.s), ErrorAttrs(Legacy(q), told))
  {
    OutcomeCodes(q);
  }

  /** The reply to this request is in the buffer, and it is to go where it should. */
  ghost predicate Answers(msgOut: MessageOut, q: Request)
    reads msgOut, msgOut.buffer, msgOut.buffer.data
  {
    && q.Valid() && Within(q.s, q.attrs)
    && msgOut.buffer.size <= msgOut.buffer.data.Length
    && msgOut.buffer.data[..msgOut.buffer.size] == Finished(Reply(q))
    && msgOut.addrDest == Destination(q) && msgOut.socketrole == RoleAfter(q)
  }

  /** CStunRequestHandler::ProcessRequest, for a message from an IPv4 or IPv6 sender. It
      succeeds just for a validated request and a buffer of the required size; the reply
      is then in the caller's own buffer, however short the request and whatever it asks. */
  method ProcessRequest(reader: Reader, msgOut: MessageOut, role: Role, addrLocal: Address, addrRemote: Address,
                        connectionOriented: bool, addresses: seq<TransportAddress>, auth: Option<AuthCheck>,
                        crypto: Crypto)
    returns (ok: bool, ghost q: Request)
    requires reader.Valid()
    requires addrLocal.Valid() && addrRemote.Valid()
    requires |addresses| == 4 && forall i :: 0 <= i < 4 ==> addresses[i].addr.Valid()
    requires {msgOut, msgOut.buffer, msgOut.buffer.data}
             !! ({reader, reader.stream} + reader.stream.Repr + reader.mapAttributes.Repr)
    requires msgOut as object != msgOut.buffer
    modifies msgOut, msgOut.buffer, msgOut.buffer.data
    ensures msgOut.buffer.data == old(msgOut.buffer.data)
    ensures q == Request(reader.fed, reader.attrs, role, addrLocal, addrRemote, connectionOriented, addresses, auth,
                         crypto)
    ensures ok == (msgOut.buffer.data.Length >= MAX_MESSAGE_SIZE
                   && reader.state == BodyValidated && ClassOf(reader.fed) == 0)
    ensures ok ==> Answers(msgOut, q)
    ensures !ok ==> msgOut.buffer.size in {0, old(msgOut.buffer.size)}
  {
    q := Request(reader.fed, reader.attrs, role, addrLocal, addrRemote, connectionOriented, addresses, auth, crypto);
    if msgOut.buffer.data.Length < MAX_MESSAGE_SIZE {
      return false, q;
    }
    if reader.state != BodyValidated {
      return false, q;
    }
    var handler := new Handler(reader, msgOut, role, addrLocal, addrRemote, connectionOriented, addresses, auth, crypto);
    ok := Handle(handler, q);
  }

  method Handle(handler: Handler, ghost q: Request) returns (ok: bool)
    requires handler.errorcode == 0 && !handler.sendWithIntegrity && !handler.requestHasResponsePort
    requires q == handler.Q() && handler.reader.Valid() && handler.reader.state == BodyValidated
    requires q.addrLocal.Valid() && q.addrRemote.Valid()
    requires |q.addresses| == 4 && forall i :: 0 <= i < 4 ==> q.addresses[i].addr.Valid()
    requires {handler.msgOut, handler, handler.msgOut.buffer, handler.msgOut.buffer.data}
             !! ({handler.reader, handler.reader.stream} + handler.reader.stream.Repr
                 + handler.reader.mapAttributes.Repr)
    requires handler.msgOut as object != handler.msgOut.buffer && handler as object != handler.msgOut
    requires handler as object != handler.msgOut.buffer
    requires handler.msgOut.buffer.data.Length >= MAX_MESSAGE_SIZE
    modifies handler, handler.msgOut, handler.msgOut.buffer, handler.msgOut.buffer.data
    ensures handler.msgOut.buffer.data == old(handler.msgOut.buffer.data)
    ensures ok == (ClassOf(q.s) == 0)
    ensures ok ==> Answers(handler.msgOut, q)
    ensures !ok ==> handler.msgOut.buffer.size == 0
  {
    ReceivedAnyMode(handler.reader.mode, q);
    var _ := handler.msgOut.buffer.SetSize(0);
    handler.msgOut.socketrole, handler.msgOut.addrDest := handler.role, handler.addrRemote;
    ok := handler.ProcessRequestImpl(q);
  }

  lemma ReceivedAnyMode(mode: bool, q: Request)
    requires Grammar(mode, q.s, q.attrs) && q.addrLocal.Valid() && q.addrRemote.Valid()
    requires |q.addresses| == 4 && forall i :: 0 <= i < 4 ==> q.addresses[i].addr.Valid()
    ensures q.Received() && Within(q.s, q.attrs)
  {
    GrammarWithin(mode, q.s, q.attrs);
  }
}
