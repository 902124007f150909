/** What the server's request handler answers, as a function of the request, the server's
    addresses and the decision of the authentication provider.
 */
module HandlerSpec {
  import opened Bytes
  import opened StunFormat
  import opened StunMessage
  import opened StunQuery
  import opened SocketAddress
  import I = Integrity
  import StunBuilder

  const MAX_AUTH_STRING := 64
  const BADREQUEST := 400
  const UNAUTHORIZED := 401
  const STALENONCE := 438
  const BINDING := 1

  /** RolePP, RolePA, RoleAP, RoleAA: bit 0 is the port, bit 1 the address. */
  type Role = r: nat | r < 4

  function SwapPort(r: Role): Role {
    if r % 2 == 0 then r + 1 else r - 1
  }

  function SwapIP(r: Role): Role {
    (r + 2) % 4
  }

  datatype TransportAddress = TransportAddress(addr: Address, valid: bool)

  /** A terminated string that fits the fixed fields. */
  type AuthString = s: seq<byte> | |s| <= MAX_AUTH_STRING && 0 !in s witness []

  datatype AuthAttributes = AuthAttributes(
    user: seq<byte>, realm: seq<byte>, nonce: seq<byte>, legacyPassword: seq<byte>, integrityPresent: bool)

  datatype AuthKind = Allow | AllowConditional | StaleNonce | Reject | Unauthorized

  datatype AuthResponse = AuthResponse(
    kind: AuthKind, longTerm: bool, password: AuthString, realm: AuthString, nonce: AuthString)

  /** The provider: it may fail to decide. */
  type AuthCheck = AuthAttributes -> Option<AuthResponse>

  datatype Request = Request(
    s: seq<byte>,
    attrs: seq<StunAttribute>,
    role: Role,
    addrLocal: Address,
    addrRemote: Address,
    connectionOriented: bool,
    addresses: seq<TransportAddress>,
    auth: Option<AuthCheck>,
    crypto: Crypto)
  {
    /** A validated message in a sound setting. */
    ghost predicate Received() {
      && Grammar(true, s, attrs)
      && addrLocal.Valid() && addrRemote.Valid()
      && |addresses| == 4 && forall i :: 0 <= i < 4 ==> addresses[i].addr.Valid()
    }

    ghost predicate Valid() {
      Received() && ClassOf(s) == 0
    }
  }

  /** What auth settled on: an error code, or zero, with the strings it may echo and the
      key a success reply is to be signed with. */
  datatype AuthOutcome = AuthOutcome(code: nat, realm: AuthString, nonce: AuthString, key: Option<seq<byte>>)

  function TextAttribute(q: Request, t: nat): seq<byte>
    requires Within(q.s, q.attrs)
  {
    match StringAttribute(q.s, q.attrs, t, MAX_AUTH_STRING + 1)
    case None => []
    case Some(v) => CString(v)
  }

  function RequestAuth(q: Request): AuthAttributes
    requires Within(q.s, q.attrs)
  {
    AuthAttributes(
      TextAttribute(q, USERNAME), TextAttribute(q, REALM), TextAttribute(q, NONCE), TextAttribute(q, LEGACY_PASSWORD),
      I.Find(q.attrs, MESSAGEINTEGRITY) != -1)
  }

  function AuthKey(q: Request, r: AuthResponse): seq<byte>
    requires Within(q.s, q.attrs)
  {
    if r.longTerm then LongTermKey(q.crypto, TextAttribute(q, USERNAME), TextAttribute(q, REALM), r.password)
    else r.password
  }

  /** What follows from the provider's answer. */
  function Judge(q: Request, r: AuthResponse): AuthOutcome
    requires Within(q.s, q.attrs)
  {
    match r.kind
    case StaleNonce => AuthOutcome(STALENONCE, r.realm, r.nonce, None)
    case Unauthorized => AuthOutcome(UNAUTHORIZED, r.realm, r.nonce, None)
    case Reject => AuthOutcome(BADREQUEST, [], [], None)
    case Allow => AuthOutcome(0, [], [], None)
    case AllowConditional =>
      if I.IntegrityValid(q.crypto, q.s, q.attrs, AuthKey(q, r)) then AuthOutcome(0, [], [], Some(AuthKey(q, r)))
      else AuthOutcome(UNAUTHORIZED, r.realm, r.nonce, None)
  }

  function Authenticate(q: Request): AuthOutcome
    requires Within(q.s, q.attrs)
  {
    if q.auth == None then AuthOutcome(0, [], [], None)
    else
      match q.auth.value(RequestAuth(q))
      case None => AuthOutcome(BADREQUEST, [], [], None)
      case Some(r) => Judge(q, r)
  }

  function RequestedPort(q: Request): nat
    requires Within(q.s, q.attrs)
  {
    match ResponsePort(q.s, q.attrs)
    case None => 0
    case Some(p) => p
  }

  /** The socket to answer from, as a change request asks. */
  function OutputRole(q: Request): Role
    requires Within(q.s, q.attrs)
  {
    match ChangeRequest(q.s, q.attrs)
    case None => q.role
    case Some(c) =>
      var r := if c.0 then SwapIP(q.role) else q.role;
      if c.1 then SwapPort(r) else r
  }

  function WantsChange(q: Request): bool
    requires Within(q.s, q.attrs)
  {
    match ChangeRequest(q.s, q.attrs)
    case None => false
    case Some(c) => c.0 || c.1
  }

  /** A binding request that cannot be served. */
  function BindingRefused(q: Request): bool
    requires Within(q.s, q.attrs) && |q.addresses| == 4
  {
    || (RequestedPort(q) != 0 && AttributeValue(q.s, q.attrs, PADDING) != None)
    || (WantsChange(q) && (!q.addresses[OutputRole(q)].valid || q.connectionOriented))
  }

  /** The outcome of the checks made before a binding request is looked at, in their order. */
  function Checked(q: Request): AuthOutcome
    requires Within(q.s, q.attrs)
  {
    if RequestedPort(q) != 0 && q.connectionOriented then AuthOutcome(BADREQUEST, [], [], None)
    else if NormalizedType(q.s) != BINDING then AuthOutcome(BADREQUEST, [], [], None)
    else Authenticate(q)
  }

  /** The outcome of all checks. */
  function Outcome(q: Request): AuthOutcome
    requires Within(q.s, q.attrs) && |q.addresses| == 4
  {
    var a := Checked(q);
    if a.code == 0 && BindingRefused(q) then AuthOutcome(BADREQUEST, [], [], None) else a
  }

  /** The socket the reply leaves from: only a success can leave from another one. */
  function RoleAfter(q: Request): Role
    requires Within(q.s, q.attrs) && |q.addresses| == 4
  {
    if Outcome(q).code == 0 then OutputRole(q) else q.role
  }

  /** The address a reply goes to: the sender, or the port it asked for. */
  function Destination(q: Request): Address
    requires Within(q.s, q.attrs)
  {
    if RequestedPort(q) != 0 && !q.connectionOriented then q.addrRemote.SetPort(RequestedPort(q)) else q.addrRemote
  }

  function Legacy(q: Request): bool
    requires |q.s| >= HEADER_SIZE
  {
    !HasCookie(q.s)
  }

  function AddressAttr(t: nat, a: Address): Attr
    requires a.Valid()
  {
    Attr(t, AddressValue(a))
  }

  function Origin(q: Request): Address
    requires Within(q.s, q.attrs) && |q.addresses| == 4
  {
    var a := q.addresses[OutputRole(q)].addr;
    if a.IsIPAddressZero() && OutputRole(q) == q.role then q.addrLocal else a
  }

  function OtherRole(q: Request): Role {
    SwapIP(SwapPort(q.role))
  }

  function SendsOther(q: Request): bool
    requires |q.addresses| == 4
  {
    && q.addresses[0].valid && q.addresses[1].valid && q.addresses[2].valid && q.addresses[3].valid
    && !q.addresses[OtherRole(q)].addr.IsIPAddressZero()
  }

  /** The attributes of a success reply, before a message integrity attribute. */
  ghost function SuccessAttrs(q: Request): seq<Attr>
    requires q.Valid() && Within(q.s, q.attrs)
  {
    PlainAttrs(q) + [XorAttr(q)]
  }

  ghost function PlainAttrs(q: Request): seq<Attr>
    requires q.Valid() && Within(q.s, q.attrs)
  {
    var legacy := Legacy(q);
    [AddressAttr(MAPPEDADDRESS, q.addrRemote)]
    + (if Origin(q).IsIPAddressZero() then []
       else [AddressAttr(if legacy then SOURCEADDRESS else RESPONSE_ORIGIN, Origin(q))])
    + (if SendsOther(q)
       then [AddressAttr(if legacy then CHANGEDADDRESS else OTHER_ADDRESS, q.addresses[OtherRole(q)].addr)]
       else [])
  }

  ghost function XorAttr(q: Request): Attr
    requires q.Valid() && Within(q.s, q.attrs)
  {
    XorMapTwice(q.addrRemote, TransactionId(q.s));
    AddressAttr(if Legacy(q) then XORMAPPEDADDRESS_OPTIONAL else XORMAPPEDADDRESS,
                q.addrRemote.XorMap(TransactionId(q.s)))
  }

  ghost function SuccessMessage(q: Request, key: Option<seq<byte>>): Message
    requires q.Valid() && Within(q.s, q.attrs)
  {
    var m := Message(BINDING, 2, TransactionId(q.s), SuccessAttrs(q));
    if key == None then m else WithIntegrity(q.crypto, m, key.value)
  }

  const FAILED: seq<byte> := ['F' as int, 'A' as int, 'I' as int, 'L' as int, 'E' as int, 'D' as int]

  /** The attributes of an error reply: the code, and for a challenge its nonce and realm. */
  function ErrorAttrs(legacy: bool, e: AuthOutcome): seq<Attr>
    requires 300 <= e.code <= 600
  {
    [Attr(ERRORCODE, WireValue(legacy, StunBuilder.ErrorValue(e.code, FAILED)))] + Challenge(legacy, e)
  }

  function Challenge(legacy: bool, e: AuthOutcome): seq<Attr> {
    if e.code == STALENONCE || e.code == UNAUTHORIZED
    then TextAttrs(legacy, NONCE, e.nonce) + TextAttrs(legacy, REALM, e.realm)
    else []
  }

  function TextAttrs(legacy: bool, t: nat, text: AuthString): seq<Attr> {
    if text != [] then [Attr(t, WireValue(legacy, text))] else []
  }

  lemma OutcomeCodes(q: Request)
    requires Within(q.s, q.attrs) && |q.addresses| == 4
    ensures Outcome(q).code in {0, BADREQUEST, UNAUTHORIZED, STALENONCE}
    ensures Outcome(q).key.Some? ==> Outcome(q).code == 0 && Outcome(q).key.value != []
  {
    CheckedCodes(q);
  }

  lemma CheckedCodes(q: Request)
    requires Within(q.s, q.attrs)
    ensures Checked(q).code in {0, BADREQUEST, UNAUTHORIZED, STALENONCE}
    ensures Checked(q).key.Some? ==> Checked(q).code == 0 && Checked(q).key.value != []
  {
    if q.auth != None && q.auth.value(RequestAuth(q)) != None {
      JudgeCodes(q, q.auth.value(RequestAuth(q)).value);
    }
  }

  lemma JudgeCodes(q: Request, r: AuthResponse)
    requires Within(q.s, q.attrs)
    ensures Judge(q, r).code in {0, BADREQUEST, UNAUTHORIZED, STALENONCE}
    ensures Judge(q, r).key.Some? ==> Judge(q, r).code == 0 && Judge(q, r).key.value != []
  {}

  /** The reply to a request. */
  ghost function Reply(q: Request): Message
    requires q.Valid() && Within(q.s, q.attrs)
  {
    OutcomeCodes(q);
    var e := Outcome(q);
    if e.code == 0 then SuccessMessage(q, e.key)
    else Message(NormalizedType(q.s), 3, TransactionId(q.s), ErrorAttrs(Legacy(q), e))
  }
}
