/** Client and server together: the server reads each request of the client as it is meant,
    and the client reads the reply as the server means it.
 */
module Interop {
  import opened Bytes
  import opened StunFormat
  import opened StunMessage
  import opened StunQuery
  import opened SocketAddress
  import opened HandlerSpec
  import opened ClientSpec
  import opened ClientRuns
  import P = HandlerProofs

  /** The socket from which a test wants its response. */
  function RoleAsked(k: Kind, role: Role): Role {
    match k
    case Filtering2 => SwapPort(SwapIP(role))
    case Filtering3 => SwapPort(role)
    case _ => role
  }

  /** A message received from the client: this request, from a server without a provider. */
  ghost predicate Receives(q: Request, k: Kind, id: TransId) {
    q.Received() && q.s == Finished(RequestMessage(k, id)) && q.auth == None
  }

  lemma RequestFits(k: Kind, id: TransId)
    ensures RequestMessage(k, id).Fits()
  {
    P.BodyOne(RequestMessage(k, id).attrs[0]);
  }

  lemma FlagsRead(k: Kind)
    ensures var flags := U32(Be32(ChangeFlags(k)), 0);
      (flags / 4 % 2 == 1 <==> k == Filtering2) && (flags / 2 % 2 == 1 <==> k == Filtering2 || k == Filtering3)
  {
    U32Be32(ChangeFlags(k));
  }

  /** The only attribute of the request, and one that it does not have. */
  lemma RequestAttributes(k: Kind, id: TransId)
    ensures var m := RequestMessage(k, id);
      && Within(Finished(m), Placement(m.attrs))
      && AttributeValue(Finished(m), Placement(m.attrs), CHANGEREQUEST) == Some(Be32(ChangeFlags(k)))
      && AttributeValue(Finished(m), Placement(m.attrs), RESPONSE_PORT) == None
  {
    RequestFits(k, id);
    P.ValueAt(RequestMessage(k, id), 0);
    P.NoValue(RequestMessage(k, id), RESPONSE_PORT);
  }

  lemma RequestRead(q: Request, k: Kind, id: TransId)
    requires Receives(q, k, id)
    ensures q.Valid() && Within(q.s, q.attrs) && TransactionId(q.s) == id
    ensures NormalizedType(q.s) == HandlerSpec.BINDING
    ensures ChangeRequest(q.s, q.attrs) == Some((k == Filtering2, k == Filtering2 || k == Filtering3))
    ensures RequestedPort(q) == 0
  {
    var m := RequestMessage(k, id);
    RequestFits(k, id);
    RoundTrip(true, m);
    GrammarUnique(true, q.s, q.attrs, Placement(m.attrs));
    RequestAttributes(k, id);
    FlagsRead(k);
  }

  /** The request of a mapping test is always served, and that of a filtering test if there
      is the socket it asks for; the reply leaves from that socket. */
  lemma RequestServed(q: Request, k: Kind, id: TransId)
    requires Receives(q, k, id)
    ensures q.Valid() && Within(q.s, q.attrs)
    ensures Outcome(q).code == 0 <==>
      ChangeFlags(k) == 0 || (q.addresses[RoleAsked(k, q.role)].valid && !q.connectionOriented)
    ensures Outcome(q).code == 0 ==> RoleAfter(q) == RoleAsked(k, q.role)
    ensures Outcome(q).key == None
  {
    RequestRead(q, k, id);
  }

  /** The client reads from the reply the address the server saw, and the other address;
      and it reads an error reply to its request too, with neither. */
  lemma ReplyRead(q: Request, k: Kind, id: TransId)
    requires Receives(q, k, id)
    ensures q.Valid() && Within(q.s, q.attrs)
    ensures var served := Outcome(q).code == 0;
      Read(Finished(Reply(q)), id) == Some(Response(
        if served then Some(q.addrRemote) else None,
        if served && SendsOther(q) then Some(q.addresses[OtherRole(q)].addr) else None))
  {
    RequestRead(q, k, id);
    P.ReplyAccepted(q);
    var m := Reply(q);
    AttributesAre(Finished(m), Placement(m.attrs));
    if Outcome(q).code == 0 {
      P.SuccessDecodes(q);
      P.OtherIsOffered(q);
    } else {
      ErrorHasNoAddress(m, Legacy(q), Outcome(q));
    }
  }

  lemma ErrorTypes(legacy: bool, e: AuthOutcome)
    requires 300 <= e.code <= 600
    ensures forall j :: 0 <= j < |ErrorAttrs(legacy, e)| ==> ErrorAttrs(legacy, e)[j].atype in {ERRORCODE, NONCE, REALM}
  {}

  lemma ErrorHasNoAddress(m: Message, legacy: bool, e: AuthOutcome)
    requires m.Fits() && 300 <= e.code <= 600 && m.attrs == ErrorAttrs(legacy, e)
    ensures Within(Finished(m), Placement(m.attrs))
    ensures ReplyOf(Finished(m), Placement(m.attrs)) == Response(None, None)
  {
    ErrorTypes(legacy, e);
    P.NoValue(m, MAPPEDADDRESS);
    P.NoValue(m, XORMAPPEDADDRESS);
    P.NoValue(m, XORMAPPEDADDRESS_OPTIONAL);
    P.NoValue(m, OTHER_ADDRESS);
    P.NoValue(m, CHANGEDADDRESS);
  }

  /** From request to result: the client takes the reply to the request it sent last, and
      takes from it the address the server saw. */
  lemma RequestAnswered(s: State, now: Tick, entropy: Entropy, q: Request)
    requires Next(s, now, entropy).1.Send?
    requires Receives(q, Next(s, now, entropy).1.kind, Next(s, now, entropy).1.id)
    ensures q.Valid() && Within(q.s, q.attrs)
    ensures Outcome(q).code == 0 ==>
      Taken(Next(s, now, entropy).0, Finished(Reply(q))) == Some(Response(
        Some(q.addrRemote), if SendsOther(q) then Some(q.addresses[OtherRole(q)].addr) else None))
  {
    var r := Next(s, now, entropy);
    SendDescribed(s, now, entropy);
    ReplyRead(q, r.1.kind, r.1.id);
    P.ReplyAccepted(q);
  }

  /** The reply leaves from the socket that the client wants it from, if and only if that is
      the socket asked, or a socket that is there and a transport that can change it. */
  lemma AnsweredFromAsked(q: Request, k: Kind, id: TransId)
    requires Receives(q, k, id)
    ensures q.Valid() && Within(q.s, q.attrs)
    ensures RoleAfter(q) == RoleAsked(k, q.role) <==>
      ChangeFlags(k) == 0 || (q.addresses[RoleAsked(k, q.role)].valid && !q.connectionOriented)
  {
    RequestServed(q, k, id);
    RoleChanges(k, q.role);
  }

  lemma RoleChanges(k: Kind, role: Role)
    ensures RoleAsked(k, role) == role <==> ChangeFlags(k) == 0
  {}

  /** A server that offers its other address to a datagram client answers every test from
      the socket asked for. */
  lemma OfferingIsServing(q: Request, k: Kind, id: TransId)
    requires Receives(q, k, id) && SendsOther(q) && !q.connectionOriented
    ensures q.Valid() && Within(q.s, q.attrs)
    ensures Outcome(q).code == 0 && RoleAfter(q) == RoleAsked(k, q.role)
  {
    SocketsThere(q, RoleAsked(k, q.role));
    RequestServed(q, k, id);
  }

  lemma SocketsThere(q: Request, r: Role)
    requires |q.addresses| == 4 && SendsOther(q)
    ensures q.addresses[r].valid
  {}

  /** A filtering test takes any valid message with its id, whatever its class and contents
      and wherever it came from, and concludes from it. */
  lemma FilteringTakesAnything(s: State, bytes: seq<byte>, local: ValidAddress)
    requires !Done(s) && !Current(s).completed && Current(s).kind in {Filtering2, Filtering3}
    requires Read(bytes, Current(s).transid).Some?
    ensures var r := Respond(s, bytes, local);
      && r.tests == s.tests[s.index := Current(s).(completed := true)]
      && r.results.filteringTestSuccess
      && r.results.filtering == (if Current(s).kind == Filtering2 then EndpointIndependentFiltering
                                 else AddressDependentFiltering)
  {
    assert bytes != [] by {
      assert |bytes| >= HEADER_SIZE;
    }
  }

  /** So the refusal of a server that cannot answer from elsewhere, which leaves from the
      socket the request came in on, counts as the answer from elsewhere. */
  lemma RefusalCountsAsResponse(s: State, q: Request, k: Kind, local: ValidAddress)
    requires !Done(s) && !Current(s).completed && Current(s).kind == k && k in {Filtering2, Filtering3}
    requires Receives(q, k, Current(s).transid)
    requires !q.addresses[RoleAsked(k, q.role)].valid || q.connectionOriented
    ensures q.Valid() && Within(q.s, q.attrs)
    ensures RoleAfter(q) == q.role != RoleAsked(k, q.role)
    ensures Respond(s, Finished(Reply(q)), local).results.filtering
         == if k == Filtering2 then EndpointIndependentFiltering else AddressDependentFiltering
  {
    RequestServed(q, k, Current(s).transid);
    RoleChanges(k, q.role);
    ReplyRead(q, k, Current(s).transid);
    FilteringTakesAnything(s, Finished(Reply(q)), local);
  }
}
