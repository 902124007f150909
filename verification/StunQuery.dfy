/** What the getters of the reader say about a validated message, as functions of the
    bytes and the recorded attributes.
 */
module StunQuery {
  import opened Bytes
  import opened StunFormat
  import opened StunMessage
  import opened Integrity
  import opened SocketAddress

  /** The recorded attributes lie within the message. */
  ghost predicate Within(s: seq<byte>, attrs: seq<StunAttribute>) {
    |s| >= HEADER_SIZE && forall i :: 0 <= i < |attrs| ==> attrs[i].offset + attrs[i].size <= |s|
  }

  lemma GrammarWithin(allowLegacy: bool, s: seq<byte>, attrs: seq<StunAttribute>)
    requires Grammar(allowLegacy, s, attrs)
    ensures Within(s, attrs)
  {
    forall i | 0 <= i < |attrs| ensures attrs[i].offset + attrs[i].size <= |s| {
      InBounds(s, attrs, i);
    }
  }

  /** The value of the last attribute of a type. */
  function AttributeValue(s: seq<byte>, attrs: seq<StunAttribute>, t: nat): Option<seq<byte>>
    requires Within(s, attrs)
  {
    var i := Find(attrs, t);
    if i == -1 then None else Some(ValueOf(s, attrs[i]))
  }

  function TransactionId(s: seq<byte>): (r: seq<byte>)
    requires |s| >= HEADER_SIZE
    ensures |r| == TRANSACTION_ID_LENGTH
  {
    s[4..HEADER_SIZE]
  }

  function AddressOf(s: seq<byte>, attrs: seq<StunAttribute>, t: nat): Option<Address>
    requires Within(s, attrs)
  {
    match AttributeValue(s, attrs, t)
    case None => None
    case Some(v) => DecodeAddress(v)
  }

  /** An address attribute, or its older equivalent. */
  function EitherAddress(s: seq<byte>, attrs: seq<StunAttribute>, t: nat, older: nat): Option<Address>
    requires Within(s, attrs)
  {
    var a := AddressOf(s, attrs, t);
    if a.Some? then a else AddressOf(s, attrs, older)
  }

  function MappedAddress(s: seq<byte>, attrs: seq<StunAttribute>): Option<Address>
    requires Within(s, attrs)
  {
    AddressOf(s, attrs, MAPPEDADDRESS)
  }

  function OtherAddress(s: seq<byte>, attrs: seq<StunAttribute>): Option<Address>
    requires Within(s, attrs)
  {
    EitherAddress(s, attrs, OTHER_ADDRESS, CHANGEDADDRESS)
  }

  /** The masked address, unmasked with the message's own transaction id. */
  function XorMappedAddress(s: seq<byte>, attrs: seq<StunAttribute>): Option<Address>
    requires Within(s, attrs)
  {
    match EitherAddress(s, attrs, XORMAPPEDADDRESS, XORMAPPEDADDRESS_OPTIONAL)
    case None => None
    case Some(a) => DecodedValidEither(s, attrs); Some(a.XorMap(TransactionId(s)))
  }

  lemma DecodedValidEither(s: seq<byte>, attrs: seq<StunAttribute>)
    requires Within(s, attrs)
    ensures forall t, older :: EitherAddress(s, attrs, t, older).Some? ==> EitherAddress(s, attrs, t, older).value.Valid()
  {}

  function ResponsePort(s: seq<byte>, attrs: seq<StunAttribute>): Option<nat>
    requires Within(s, attrs)
  {
    match AttributeValue(s, attrs, RESPONSE_PORT)
    case None => None
    case Some(v) => if |v| == 2 then Some(U16(v, 0)) else None
  }

  /** The two flags of a change request: bit 2 for the ip, bit 1 for the port. */
  function ChangeRequest(s: seq<byte>, attrs: seq<StunAttribute>): Option<(bool, bool)>
    requires Within(s, attrs)
  {
    match AttributeValue(s, attrs, CHANGEREQUEST)
    case None => None
    case Some(v) => if |v| == 4 then Some((U32(v, 0) / 4 % 2 == 1, U32(v, 0) / 2 % 2 == 1)) else None
  }

  /** A string attribute, if it leaves room for the terminator in a field of this size. */
  function StringAttribute(s: seq<byte>, attrs: seq<StunAttribute>, t: nat, size: nat): Option<seq<byte>>
    requires Within(s, attrs)
  {
    match AttributeValue(s, attrs, t)
    case None => None
    case Some(v) => if |v| < size then Some(v) else None
  }

  /** How C reads a string: up to the first zero byte. */
  function CString(v: seq<byte>): (r: seq<byte>)
    ensures |r| <= |v|
  {
    if v == [] || v[0] == 0 then [] else [v[0]] + CString(v[1..])
  }

  /** The key of the long-term mechanism: the digest of user, realm and password. */
  function LongTermKey(c: Crypto, user: seq<byte>, realm: seq<byte>, password: seq<byte>): (key: seq<byte>)
    ensures |key| == 16
  {
    c.md5(user + [':' as int] + realm + [':' as int] + password)
  }
}
