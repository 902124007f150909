/** The client, a NAT and the server together: between the client's calls, replies of the
    server to any of its requests arrive, in any order, late or more than once, as far as the
    NAT lets them in.
 */
module EndToEnd {
  import opened Bytes
  import opened StunFormat
  import opened StunMessage
  import opened StunQuery
  import opened SocketAddress
  import opened HandlerSpec
  import opened ClientSpec
  import opened ClientRuns
  import opened Seals
  import opened ClientVerdicts
  import opened Interop
  import R = ClientRequests
  import P = HandlerProofs

  /** A NAT with its mapping and filtering, the host's local address, and a server with four
      sockets of which the one of this role has the first address. */
  datatype World = World(
    m: Mapping, f: NatFiltering, local: ValidAddress, server: ValidAddress, other: ValidAddress, role: Role, crypto: Crypto)
  {
    predicate Sane() {
      && !server.IsIPAddressZero() && !other.IsIPAddressZero()
      && f in {EndpointIndependentFiltering, AddressDependentFiltering, AddressAndPortDependentFiltering}
    }

    /** The address of a socket of the server. */
    function AddressAt(r: Role): ValidAddress {
      if r == role then server
      else if r == SwapPort(role) then AddrPA(server, other)
      else if r == SwapIP(role) then AddrAP(server, other)
      else other
    }

    function Sockets(): (s: seq<TransportAddress>)
      ensures |s| == 4 && forall r :: 0 <= r < 4 ==> s[r] == TransportAddress(AddressAt(r), true)
    {
      seq(4, r requires 0 <= r < 4 => TransportAddress(AddressAt(r), true))
    }

    /** The socket that a test's request reaches. */
    function RoleOf(k: Kind): Role {
      match k
      case Behavior2 => SwapIP(role)
      case Behavior3 => SwapIP(SwapPort(role))
      case _ => role
    }

    /** Where a test's request is sent. */
    function Dest(k: Kind): ValidAddress {
      DestOf(k, server, other)
    }

    /** The request as the server receives it. */
    function Query(k: Kind, id: TransId): Request {
      var r := RequestMessage(k, id);
      Request(Finished(r), Placement(r.attrs), RoleOf(k), Dest(k), m(Dest(k)), false, Sockets(), None, crypto)
    }

    /** The destinations of the requests sent through one mapping. */
    function Reached(requested: set<Kind>, mapped: ValidAddress): set<ValidAddress> {
      set k <- requested | m(Dest(k)) == mapped :: Dest(k)
    }

    /** Whether the NAT lets in the reply to a test's request, through the mapping that was
        made for it. */
    predicate LetIn(requested: set<Kind>, k: Kind) {
      Passes(f, AddressAt(RoleAsked(k, RoleOf(k))), Reached(requested, m(Dest(k))))
    }
  }

  /** A request reaches the socket that has the address it is sent to. */
  lemma SocketReached(w: World, k: Kind)
    ensures w.AddressAt(w.RoleOf(k)) == w.Dest(k)
  {
    Ports(w.server, w.other);
  }

  /** The reply to a mapping test, which comes from where the request went, is let in by
      every NAT. */
  lemma MappingLetIn(w: World, requested: set<Kind>, k: Kind)
    requires w.Sane() && k in requested && k in {Binding, Behavior2, Behavior3}
    ensures w.LetIn(requested, k)
  {
    SocketReached(w, k);
    assert w.Dest(k) in w.Reached(requested, w.m(w.Dest(k)));
  }

  /** The filtering tests go through the mapping that was made for the first address. */
  lemma ReachedFirst(w: World, requested: set<Kind>, k: Kind)
    requires k in requested && k in {Binding, Filtering2, Filtering3}
    ensures w.Reached(requested, w.m(w.server)) == Contacted(requested, w.m, w.server, w.other)
  {
    assert w.Dest(k) == w.server;
    var reached := w.Reached(requested, w.m(w.server));
    assert w.server in reached;
    assert Behavior2 in requested && w.m(w.Dest(Behavior2)) == w.m(w.server) ==> w.Dest(Behavior2) in reached;
    assert Behavior3 in requested && w.m(w.Dest(Behavior3)) == w.m(w.server) ==> w.Dest(Behavior3) in reached;
  }

  lemma QueryReceived(w: World, k: Kind, id: TransId)
    ensures Receives(w.Query(k, id), k, id)
    ensures w.Sane() ==> SendsOther(w.Query(k, id))
  {
    RequestFits(k, id);
    RoundTrip(true, RequestMessage(k, id));
  }

  /** Where the reply comes from. */
  lemma AnswersFrom(w: World, k: Kind, id: TransId)
    requires w.Sane()
    ensures var q := w.Query(k, id);
      && q.Valid() && Within(q.s, q.attrs) && Outcome(q).code == 0
      && w.AddressAt(RoleAfter(q)) == w.AddressAt(RoleAsked(k, w.RoleOf(k)))
  {
    QueryReceived(w, k, id);
    OfferingIsServing(w.Query(k, id), k, id);
  }

  // ---- the runs ---------------------------------------------------------------------------

  /** A call of GetNextMessage, or the arrival of the reply to the request with this number. */
  datatype Exchange = Call(now: Tick, entropy: Entropy) | Deliver(number: nat)

  /** A request that was sent. */
  datatype Sending = Sending(kind: Kind, id: TransId)

  function More(sent: seq<Sending>, answer: Option<Answer>): seq<Sending> {
    if answer.Some? && answer.value.Send? then sent + [Sending(answer.value.kind, answer.value.id)] else sent
  }

  /** All requests of a run, in order. */
  ghost function Sendings(c: Config, events: seq<Event>): seq<Sending> {
    if events == [] then []
    else
      var before := Sendings(c, events[..|events| - 1]);
      if events[|events| - 1].Ask? then More(before, Run(c, events).answer) else before
  }

  /** Different tests drew different ids. */
  ghost predicate DistinctIds(sent: seq<Sending>) {
    forall x, y :: x in sent && y in sent && x.id == y.id ==> x.kind == y.kind
  }

  /** What the client sees of these exchanges. */
  ghost function Events(c: Config, w: World, xs: seq<Exchange>): seq<Event>
    requires w.Sane()
  {
    if xs == [] then []
    else
      var es := Events(c, w, xs[..|xs| - 1]);
      es + Seen(c, w, es, xs[|xs| - 1])
  }

  /** One exchange as an event, if the client sees anything of it. */
  ghost function Seen(c: Config, w: World, es: seq<Event>, x: Exchange): (d: seq<Event>)
    requires w.Sane()
    ensures |d| <= 1
  {
    match x
    case Call(now, entropy) => [Ask(now, entropy)]
    case Deliver(number) => Delivered(w, Run(c, es).requested, Sendings(c, es), number)
  }

  ghost function Delivered(w: World, requested: set<Kind>, sent: seq<Sending>, number: nat): (d: seq<Event>)
    requires w.Sane()
    ensures |d| <= 1
  {
    if number < |sent| && w.LetIn(requested, sent[number].kind)
    then [Got(ReplyBytes(w, sent[number].kind, sent[number].id), w.local)]
    else []
  }

  ghost function ReplyBytes(w: World, k: Kind, id: TransId): seq<byte>
    requires w.Sane()
  {
    AnswersFrom(w, k, id);
    Finished(Reply(w.Query(k, id)))
  }

  /** The client reads from the reply where the NAT has mapped its request. */
  lemma ReplyTells(w: World, k: Kind, id: TransId)
    requires w.Sane()
    ensures ReplyBytes(w, k, id) != []
    ensures Read(ReplyBytes(w, k, id), id)
         == Some(Response(Some(w.m(w.Dest(k))), Some(w.AddressAt(OtherRole(w.Query(k, id))))))
    ensures forall i: TransId :: i != id ==> Read(ReplyBytes(w, k, id), i) == None
  {
    AnswersFrom(w, k, id);
    QueryReceived(w, k, id);
    ReplyRead(w.Query(k, id), k, id);
    assert |ReplyBytes(w, k, id)| >= HEADER_SIZE;
  }

  lemma OtherOfFirst(w: World, id: TransId)
    ensures w.AddressAt(OtherRole(w.Query(Binding, id))) == w.other
  {
    Diagonal(w.role);
    assert w.Query(Binding, id).role == w.role;
  }

  /** The socket with the other ip and port is none of those with one of them. */
  lemma Diagonal(r: Role)
    ensures SwapIP(SwapPort(r)) !in {r, SwapPort(r), SwapIP(r)}
  {}

  // ---- the state between calls ---------------------------------------------------------

  /** The id that the current test expects was sent by that test, or there is none yet; and
      no later test has one. */
  ghost predicate Expects(s: State, sent: seq<Sending>) {
    && (forall i :: s.index < i < |s.tests| ==> s.tests[i].transid == ZERO_ID)
    && (!Done(s) && Current(s).transid != ZERO_ID ==> Sending(Current(s).kind, Current(s).transid) in sent)
  }

  lemma {:induction false} NextExpects(s: State, sent: seq<Sending>, now: Tick, entropy: Entropy)
    requires Expects(s, sent)
    ensures var r := Next(s, now, entropy); Expects(r.0, More(sent, Some(r.1)))
    decreases Remaining(s)
  {
    TurnProgress(s, now, entropy);
    var r := Turn(s, now, entropy);
    if r.1.None? {
      NextExpects(r.0, sent, now, entropy);
    }
  }

  /** Every request is that of a test that has sent, and has an id. */
  ghost predicate Known(sent: seq<Sending>, requested: set<Kind>) {
    forall x <- sent :: x.kind in requested && x.id != ZERO_ID
  }

  lemma {:induction false} RunExpects(c: Config, events: seq<Event>)
    ensures Expects(Run(c, events).state, Sendings(c, events))
    ensures Known(Sendings(c, events), Run(c, events).requested)
    decreases |events|
  {
    if events != [] {
      var before, e := events[..|events| - 1], events[|events| - 1];
      RunExpects(c, before);
      var h := Run(c, before);
      if e.Ask? {
        NextExpects(h.state, Sendings(c, before), e.now, e.entropy);
        if Next(h.state, e.now, e.entropy).1.Send? {
          SendDescribed(h.state, e.now, e.entropy);
        }
      }
    }
  }

  /** Once a filtering test has sent, no mapping test sends any more. */
  lemma ContactsStay(c: Config, events: seq<Event>, now: Tick, entropy: Entropy)
    requires var q := Run(c, events).requested; Filtering2 in q || Filtering3 in q
    ensures var r := Next(Run(c, events).state, now, entropy);
      r.1.Send? ==> r.1.kind in {Filtering2, Filtering3}
  {
    RunSound(c, events);
    RunRequests(c, events);
    FilteringGoesOn(Run(c, events).state, Run(c, events).taken, Run(c, events).requested, now, entropy);
  }

  lemma FilteringGoesOn(s: State, a: Answers, requested: set<Kind>, now: Tick, entropy: Entropy)
    requires Sound(s, a) && Asked(s, a, requested) && (Filtering2 in requested || Filtering3 in requested)
    ensures var r := Next(s, now, entropy); r.1.Send? ==> r.1.kind in {Filtering2, Filtering3}
  {
    assert Opened(RunSeal);
    NextSound(s, a, now, entropy);
    NextMoves(s, now, entropy);
    NextConfig(s, now, entropy);
    var r := Next(s, now, entropy);
    if r.1.Send? {
      SendDescribed(s, now, entropy);
      KindAt(r.0.config, r.0.index);
    }
  }

  /** Whether a reply is let in does not change once its request was sent. */
  lemma LetInStays(w: World, requested: set<Kind>, added: Kind, k: Kind)
    requires w.Sane() && k in requested
    requires k in {Filtering2, Filtering3} ==> added in {Filtering2, Filtering3}
    ensures w.LetIn(requested + {added}, k) == w.LetIn(requested, k)
  {
    if k in {Filtering2, Filtering3} {
      assert w.Dest(added) == w.Dest(k) == w.server;
      assert w.Reached(requested + {added}, w.m(w.server)) == w.Reached(requested, w.m(w.server));
    } else {
      MappingLetIn(w, requested, k);
      MappingLetIn(w, requested + {added}, k);
    }
  }

  // ---- what the client is told -----------------------------------------------------------

  /** Every response taken is the server's reply to a request of that test, came through the
      NAT and was let in by it. */
  ghost predicate Told(c: Config, w: World, a: Answers, requested: set<Kind>) {
    && Through(c, a, w.m, w.local, w.other)
    && forall k <- a :: k in requested && w.LetIn(requested, k)
  }

  ghost predicate ToldIn(c: Config, w: World, h: History) {
    Told(c, w, h.taken, h.requested)
  }

  lemma RunAdd(c: Config, es: seq<Event>, e: Event)
    ensures Run(c, es + [e]) == After(Run(c, es), e)
    ensures Sendings(c, es + [e]) == if e.Ask? then More(Sendings(c, es), Run(c, es + [e]).answer) else Sendings(c, es)
  {
    assert (es + [e])[..|es|] == es;
  }

  lemma CallTold(c: Config, w: World, es: seq<Event>, now: Tick, entropy: Entropy)
    requires w.Sane() && ToldIn(c, w, Run(c, es))
    ensures ToldIn(c, w, Run(c, es + [Ask(now, entropy)]))
  {
    RunAdd(c, es, Ask(now, entropy));
    var h := Run(c, es);
    var r := Next(h.state, now, entropy);
    if r.1.Send? {
      forall k <- h.taken ensures w.LetIn(h.requested + {r.1.kind}, k) {
        if k in {Filtering2, Filtering3} {
          ContactsStay(c, es, now, entropy);
        }
        LetInStays(w, h.requested, r.1.kind, k);
      }
    }
  }

  lemma DeliverTold(c: Config, w: World, es: seq<Event>, number: nat)
    requires w.Sane() && c.addrServer == w.server && ToldIn(c, w, Run(c, es)) && DistinctIds(Sendings(c, es))
    ensures ToldIn(c, w, Run(c, es + Seen(c, w, es, Deliver(number))))
  {
    var h, sent := Run(c, es), Sendings(c, es);
    var d := Delivered(w, h.requested, sent, number);
    if d == [] {
      assert es + d == es;
    } else {
      RunAdd(c, es, d[0]);
      RunExpects(c, es);
      assert sent[number] in sent;
      GotTold(c, w, h, sent, sent[number]);
    }
  }

  lemma GotTold(c: Config, w: World, h: History, sent: seq<Sending>, x: Sending)
    requires w.Sane() && c.addrServer == w.server && ToldIn(c, w, h)
    requires Expects(h.state, sent) && Known(sent, h.requested) && DistinctIds(sent)
    requires x in sent && w.LetIn(h.requested, x.kind)
    ensures ToldIn(c, w, After(h, Got(ReplyBytes(w, x.kind, x.id), w.local)))
  {
    ArrivalIs(w, h, sent, x);
    OtherOfFirst(w, x.id);
    TakingTold(c, w, h.taken, h.requested, x.kind, Truth(w, x));
  }

  /** The reply, as a test takes it. */
  function Truth(w: World, x: Sending): Taking {
    Taking(Response(Some(w.m(w.Dest(x.kind))), Some(w.AddressAt(OtherRole(w.Query(x.kind, x.id))))), w.local)
  }

  /** An arrival changes nothing, or the test that sent the request takes the truth; and it
      does if it is waiting. */
  lemma ArrivalIs(w: World, h: History, sent: seq<Sending>, x: Sending)
    requires w.Sane() && Expects(h.state, sent) && DistinctIds(sent)
    requires x in sent && x.id != ZERO_ID
    ensures var g := After(h, Got(ReplyBytes(w, x.kind, x.id), w.local));
      && g.requested == h.requested && g.calls == h.calls && g.state.timeLastSent == h.state.timeLastSent
      && g.taken in {h.taken, h.taken[x.kind := Truth(w, x)]}
      && (!Done(h.state) && Current(h.state) == Test(x.kind, false, x.id) ==> x.kind in g.taken)
  {
    ReplyTells(w, x.kind, x.id);
    if !Done(h.state) && Current(h.state).transid == x.id {
      assert Sending(Current(h.state).kind, x.id) in sent;
    }
    OwnerTakes(h, ReplyBytes(w, x.kind, x.id), x, Truth(w, x));
  }

  /** A response with one id only is for the test that has this id, if it is waiting. */
  lemma OwnerTakes(h: History, bytes: seq<byte>, x: Sending, t: Taking)
    requires bytes != [] && Read(bytes, x.id) == Some(t.reply) && t.reply.mapped.Some?
    requires forall i: TransId :: i != x.id ==> Read(bytes, i) == None
    requires !Done(h.state) && Current(h.state).transid == x.id ==> Current(h.state).kind == x.kind
    ensures var g := After(h, Got(bytes, t.local));
      && g.requested == h.requested && g.calls == h.calls && g.state.timeLastSent == h.state.timeLastSent
      && g.taken in {h.taken, h.taken[x.kind := t]}
      && (!Done(h.state) && Current(h.state) == Test(x.kind, false, x.id) ==> x.kind in g.taken)
  {}

  lemma TakingTold(c: Config, w: World, a: Answers, requested: set<Kind>, k: Kind, taking: Taking)
    requires c.addrServer == w.server && Told(c, w, a, requested) && k in requested && w.LetIn(requested, k)
    requires taking.local == w.local && (k == Binding ==> taking.reply.other == Some(w.other))
    requires taking.reply.mapped == Some(w.m(w.Dest(k)))
    ensures Told(c, w, a[k := taking], requested)
  {}

  /** The requests of a run are the first ones of every longer run. */
  lemma SendingsGrow(c: Config, es: seq<Event>, d: seq<Event>)
    requires |d| <= 1
    ensures Sendings(c, es) <= Sendings(c, es + d)
  {
    if d == [] {
      assert es + d == es;
    } else {
      assert d == [d[0]];
      RunAdd(c, es, d[0]);
    }
  }

  /** In every run of client, NAT and server in which different tests drew different ids, the
      client is told the truth. */
  lemma {:induction false} EventsTold(c: Config, w: World, xs: seq<Exchange>)
    requires w.Sane() && c.addrServer == w.server
    requires DistinctIds(Sendings(c, Events(c, w, xs)))
    ensures ToldIn(c, w, Run(c, Events(c, w, xs)))
    decreases |xs|
  {
    if xs != [] {
      var before := xs[..|xs| - 1];
      var es := Events(c, w, before);
      SendingsGrow(c, es, Seen(c, w, es, xs[|xs| - 1]));
      EventsTold(c, w, before);
      match xs[|xs| - 1] {
        case Call(now, entropy) => CallTold(c, w, es, now, entropy);
        case Deliver(number) => DeliverTold(c, w, es, number);
      }
    }
  }

  /** The first that the client sees is a call: nothing was sent before. */
  lemma {:induction false} CallsFirst(c: Config, w: World, xs: seq<Exchange>)
    requires w.Sane()
    ensures var es := Events(c, w, xs); es == [] || es[0].Ask?
    decreases |xs|
  {
    if xs != [] {
      CallsFirst(c, w, xs[..|xs| - 1]);
      SeenFirst(c, w, xs[|xs| - 1]);
    }
  }

  lemma SeenFirst(c: Config, w: World, x: Exchange)
    requires w.Sane()
    ensures var d := Seen(c, w, [], x); d == [] || d[0].Ask?
  {
    assert Sendings(c, []) == [];
  }

  /** At the end, every test that had reason to run has sent. */
  lemma SentAtEnd(c: Config, es: seq<Event>)
    requires es != [] && es[0].Ask? && Run(c, es).answer == Some(ResultsReady)
    ensures forall k: Kind :: Included(c, k) && Runnable(k, Run(c, es).taken) ==> k in Run(c, es).requested
  {
    var h := Run(c, es);
    RunSound(c, es);
    RunRequests(c, es);
    R.AskingFirstIsSafe(c, es);
    DoneAsked(h.state, h.taken, h.requested);
  }

  lemma DoneAsked(s: State, a: Answers, requested: set<Kind>)
    requires Sound(s, a) && Asked(s, a, requested) && Done(s) && Binding in requested
    ensures forall k: Kind :: Included(s.config, k) && Runnable(k, a) ==> k in requested
  {
    assert Opened(RunSeal);
    forall k: Kind | Included(s.config, k) && Runnable(k, a) ensures k in requested {
      assert Position(s.config, k) < Over(s);
    }
  }

  /** Every reply that the NAT lets in has arrived while its test was waiting. */
  ghost predicate Arrived(c: Config, w: World, h: History) {
    Due(c, w, h.taken, h.requested) <= h.taken.Keys
  }

  function Due(c: Config, w: World, a: Answers, requested: set<Kind>): set<Kind> {
    set k | k in {Binding, Behavior2, Behavior3, Filtering2, Filtering3}
            && Included(c, k) && Runnable(k, a) && w.LetIn(requested, k)
  }

  /** Client, NAT and server end to end: when every reply that is let in has arrived, the
      classes reported are those of the NAT just if the server's addresses can tell the one
      and the run can show the other. */
  lemma ClassesReported(c: Config, w: World, xs: seq<Exchange>, dests: set<ValidAddress>, cls: NatBehavior)
    requires w.Sane() && c.addrServer == w.server
    requires Behaves(w.m, dests, cls, w.local) && {w.server, AddrAP(w.server, w.other), w.other} <= dests
    requires DistinctIds(Sendings(c, Events(c, w, xs)))
    requires var h := Run(c, Events(c, w, xs)); h.answer == Some(ResultsReady) && Arrived(c, w, h)
    ensures var r := Run(c, Events(c, w, xs)).state.results;
      && (c.behaviorTest ==> (r.behavior == cls <==> Tells(cls, w.server, w.other)))
      && (c.filteringTest ==> (r.filtering == w.f <==> ShowsFilter(c, cls, w.f, w.other)))
  {
    var es := Events(c, w, xs);
    EventsTold(c, w, xs);
    EndsTold(c, w, xs);
    if c.behaviorTest {
      MappingClassified(c, es, w.m, dests, cls, w.local, w.other);
    }
    if c.filteringTest {
      FilteringClassified(c, es, w.m, dests, cls, w.f, w.local, w.other);
    }
  }

  /** What the verdicts rest on. */
  lemma EndsTold(c: Config, w: World, xs: seq<Exchange>)
    requires w.Sane() && c.addrServer == w.server && ToldIn(c, w, Run(c, Events(c, w, xs)))
    requires var h := Run(c, Events(c, w, xs)); h.answer == Some(ResultsReady) && Arrived(c, w, h)
    ensures var h := Run(c, Events(c, w, xs));
      && Binding in h.taken && Through(c, h.taken, w.m, w.local, w.other)
      && (c.behaviorTest ==> MappingAnswered(h.taken))
      && (c.filteringTest ==> Filters(c, h.taken, h.requested, w.m, w.f, w.other))
  {
    var es := Events(c, w, xs);
    CallsFirst(c, w, xs);
    SentAtEnd(c, es);
    var h := Run(c, es);
    MappingDue(c, w, h.taken, h.requested);
    if c.filteringTest {
      FiltersMet(c, w, h.taken, h.requested);
    }
  }

  lemma MappingDue(c: Config, w: World, a: Answers, requested: set<Kind>)
    requires w.Sane() && Due(c, w, a, requested) <= a.Keys
    requires forall k: Kind :: Included(c, k) && Runnable(k, a) ==> k in requested
    ensures Binding in a && (c.behaviorTest ==> MappingAnswered(a))
  {
    forall k | k in {Binding, Behavior2, Behavior3} && Included(c, k) && Runnable(k, a) ensures k in a {
      MappingLetIn(w, requested, k);
      assert k in Due(c, w, a, requested);
    }
  }

  lemma FiltersMet(c: Config, w: World, a: Answers, requested: set<Kind>)
    requires c.addrServer == w.server && c.filteringTest
    requires Binding in requested && Due(c, w, a, requested) <= a.Keys && Told(c, w, a, requested)
    ensures Filters(c, a, requested, w.m, w.f, w.other)
  {
    AskedAddresses(w);
    ReachedFirst(w, requested, Binding);
    var due := Due(c, w, a, requested);
    assert Runnable(Filtering2, a) && w.LetIn(requested, Filtering2) ==> Filtering2 in due;
    assert Runnable(Filtering3, a) && w.LetIn(requested, Filtering3) ==> Filtering3 in due;
  }

  /** The replies the filtering tests ask for come from the other address and the other port. */
  lemma AskedAddresses(w: World)
    ensures w.AddressAt(RoleAsked(Filtering2, w.RoleOf(Filtering2))) == w.other
    ensures w.AddressAt(RoleAsked(Filtering3, w.RoleOf(Filtering3))) == AddrPA(w.server, w.other)
  {}

  // ---- such runs exist --------------------------------------------------------------------

  /** Random bytes that tell the tests apart. */
  function EntropyOf(k: Kind): Entropy {
    [if k == Binding then 0 else if k == Behavior2 then 1 else if k == Behavior3 then 2
     else if k == Filtering2 then 3 else 4] + Zeros(11)
  }

  function IdOf(k: Kind): TransId {
    Be32(COOKIE) + EntropyOf(k)
  }

  lemma IdsDiffer(k: Kind, j: Kind)
    requires IdOf(k) == IdOf(j)
    ensures k == j
  {
    assert IdOf(k)[4] == EntropyOf(k)[0] && IdOf(j)[4] == EntropyOf(j)[0];
  }

  /** Every request has the id of its test. */
  ghost predicate OwnIds(sent: seq<Sending>) {
    forall x <- sent :: x.id == IdOf(x.kind)
  }

  lemma OwnIdsDistinct(sent: seq<Sending>)
    requires OwnIds(sent)
    ensures DistinctIds(sent)
  {
    forall x, y | x in sent && y in sent && x.id == y.id ensures x.kind == y.kind {
      IdsDiffer(x.kind, y.kind);
    }
  }

  /** Which test sends does not depend on what is random; and its id is the one it has, or
      the cookie with that. */
  lemma {:induction false} NextDraws(s: State, sent: seq<Sending>, now: Tick, e: Entropy, f: Entropy)
    requires Expects(s, sent) && Next(s, now, e).1.Send?
    ensures var r := Next(s, now, f);
      && r.1.Send? && r.1.kind == Next(s, now, e).1.kind
      && (Sending(r.1.kind, r.1.id) in sent || r.1.id == Be32(COOKIE) + f)
    decreases Remaining(s)
  {
    TurnProgress(s, now, e);
    TurnProgress(s, now, f);
    var r := Turn(s, now, e);
    if r.1.None? {
      NextDraws(r.0, sent, now, e, f);
    }
  }

  /** What to draw in a call: the own bytes of the test that is going to send. */
  ghost function Draw(s: State, now: Tick): Entropy {
    var a := Next(s, now, EntropyOf(Binding)).1;
    if a.Send? then EntropyOf(a.kind) else EntropyOf(Binding)
  }

  /** When to call: the timeout after the last request. */
  ghost function Late(c: Config, h: History): Tick {
    (h.state.timeLastSent + 1000 * Normalized(c).timeoutSeconds) % TICKS
  }

  /** The longest timeout that the difference of two readings of the counter can show. */
  const MAX_TIMEOUT := (TICKS - 1) / 1000

  lemma LateIsPatient(c: Config, h: History)
    requires Normalized(c).timeoutSeconds <= MAX_TIMEOUT
    ensures Elapsed(Late(c, h), h.state.timeLastSent) >= Normalized(c).timeoutSeconds
  {
    var t, d := h.state.timeLastSent, 1000 * Normalized(c).timeoutSeconds;
    assert d < TICKS;
    assert Late(c, h) == if t + d < TICKS then t + d else t + d - TICKS;
    assert (Late(c, h) - t) % TICKS == d;
  }

  /** No test that has sent and can have its reply is without it, but perhaps for these. */
  ghost predicate Kept(w: World, h: History, but: set<Kind>) {
    Awaited(w, h.requested, but) <= h.taken.Keys
  }

  function Awaited(w: World, requested: set<Kind>, but: set<Kind>): set<Kind> {
    set k | k in requested && k !in but && w.LetIn(requested, k)
  }

  function Sender(answer: Option<Answer>): set<Kind> {
    if answer.Some? && answer.value.Send? then {answer.value.kind} else {}
  }

  /** Seals what is kept while rounds are played. */
  datatype RoundSeal = RoundSeal

  /** What the rounds played so far have kept. */
  ghost predicate Played(c: Config, w: World, es: seq<Event>) {
    SealedPlayed(c, w, es) == true
  }

  ghost predicate SealedPlayed(c: Config, w: World, es: seq<Event>) {
    forall u: RoundSeal {:trigger Opened(u)} :: Opened(u) ==> PlayedParts(c, w, es)
  }

  ghost predicate PlayedParts(c: Config, w: World, es: seq<Event>) {
    && Kept(w, Run(c, es), {}) && OwnIds(Sendings(c, es)) && Patient(c, es)
    && (es == [] || es[0].Ask?)
  }

  lemma CallKept(c: Config, w: World, es: seq<Event>, now: Tick, entropy: Entropy)
    requires w.Sane() && Kept(w, Run(c, es), {})
    ensures var h := Run(c, es + [Ask(now, entropy)]); Kept(w, h, Sender(h.answer))
  {
    RunAdd(c, es, Ask(now, entropy));
    var h := Run(c, es);
    var r := Next(h.state, now, entropy);
    if r.1.Send? {
      forall k <- h.requested | k != r.1.kind && w.LetIn(h.requested + {r.1.kind}, k) ensures k in h.taken {
        if k in {Filtering2, Filtering3} {
          ContactsStay(c, es, now, entropy);
        }
        LetInStays(w, h.requested, r.1.kind, k);
      }
    }
  }

  lemma CallOwns(c: Config, es: seq<Event>, now: Tick)
    requires OwnIds(Sendings(c, es))
    ensures OwnIds(Sendings(c, es + [Ask(now, Draw(Run(c, es).state, now))]))
  {
    var s := Run(c, es).state;
    RunAdd(c, es, Ask(now, Draw(s, now)));
    RunExpects(c, es);
    if Next(s, now, Draw(s, now)).1.Send? {
      NextDraws(s, Sendings(c, es), now, Draw(s, now), EntropyOf(Binding));
      NextDraws(s, Sendings(c, es), now, EntropyOf(Binding), Draw(s, now));
    }
  }

  /** After a call that sent, the reply to what it sent arrives. */
  lemma DeliverKept(c: Config, w: World, es: seq<Event>, x: Sending)
    requires w.Sane() && Kept(w, Run(c, es), {x.kind}) && OwnIds(Sendings(c, es)) && x in Sendings(c, es)
    requires var s := Run(c, es).state; !Done(s) && Current(s) == Test(x.kind, false, x.id)
    requires w.LetIn(Run(c, es).requested, x.kind)
    ensures var h := Run(c, es + [Got(ReplyBytes(w, x.kind, x.id), w.local)]);
      Kept(w, h, {}) && h.calls == Run(c, es).calls
  {
    RunAdd(c, es, Got(ReplyBytes(w, x.kind, x.id), w.local));
    RunExpects(c, es);
    OwnIdsDistinct(Sendings(c, es));
    ArrivalIs(w, Run(c, es), Sendings(c, es), x);
  }

  lemma EventsAdd(c: Config, w: World, xs: seq<Exchange>, x: Exchange)
    requires w.Sane()
    ensures Events(c, w, xs + [x]) == Events(c, w, xs) + Seen(c, w, Events(c, w, xs), x)
  {
    assert (xs + [x])[..|xs|] == xs;
  }

  lemma CallPlayed(c: Config, w: World, es: seq<Event>) returns (now: Tick, entropy: Entropy)
    requires w.Sane() && Played(c, w, es) && Normalized(c).timeoutSeconds <= MAX_TIMEOUT
    ensures var called := es + [Ask(now, entropy)];
      && Kept(w, Run(c, called), Sender(Run(c, called).answer)) && OwnIds(Sendings(c, called))
      && Patient(c, called) && called[0].Ask? && Run(c, called).calls == Run(c, es).calls + 1
  {
    assert Opened(RoundSeal);
    now := Late(c, Run(c, es));
    entropy := Draw(Run(c, es).state, now);
    var called := es + [Ask(now, entropy)];
    assert called[..|es|] == es;
    LateIsPatient(c, Run(c, es));
    CallKept(c, w, es, now, entropy);
    CallOwns(c, es, now);
    RunAdd(c, es, Ask(now, entropy));
  }

  /** What the last call sent is what the current test waits for. */
  lemma LastSending(c: Config, es: seq<Event>, now: Tick, entropy: Entropy)
    requires Run(c, es + [Ask(now, entropy)]).answer.value.Send?
    ensures var h, sent := Run(c, es + [Ask(now, entropy)]), Sendings(c, es + [Ask(now, entropy)]);
      && sent != [] && !Done(h.state)
      && sent[|sent| - 1] == Sending(h.answer.value.kind, h.answer.value.id)
      && Current(h.state) == Test(h.answer.value.kind, false, h.answer.value.id)
  {
    RunAdd(c, es, Ask(now, entropy));
    SendDescribed(Run(c, es).state, now, entropy);
  }

  /** The client calls and, if it sent and the reply can arrive, the reply arrives. */
  lemma PlayRound(c: Config, w: World, xs: seq<Exchange>) returns (ys: seq<Exchange>)
    requires w.Sane() && Played(c, w, Events(c, w, xs)) && Normalized(c).timeoutSeconds <= MAX_TIMEOUT
    ensures Played(c, w, Events(c, w, ys))
    ensures Run(c, Events(c, w, ys)).calls == Run(c, Events(c, w, xs)).calls + 1 && Events(c, w, ys) != []
  {
    var es := Events(c, w, xs);
    var now, entropy := CallPlayed(c, w, es);
    ys := xs + [Call(now, entropy)];
    EventsAdd(c, w, xs, Call(now, entropy));
    var called := es + [Ask(now, entropy)];
    var h := Run(c, called);
    if h.answer.Some? && h.answer.value.Send? && w.LetIn(h.requested, h.answer.value.kind) {
      LastWaits(c, w, es, now, entropy);
      ys := DeliverLast(c, w, ys, Sending(h.answer.value.kind, h.answer.value.id));
    } else {
      NothingArrives(c, w, called);
    }
  }

  /** A call that sends nothing, or what the NAT answers with silence, is a whole round. */
  lemma NothingArrives(c: Config, w: World, es: seq<Event>)
    requires OwnIds(Sendings(c, es)) && Patient(c, es) && es != [] && es[0].Ask?
    requires Kept(w, Run(c, es), Sender(Run(c, es).answer))
    requires var h := Run(c, es); h.answer.Some? && h.answer.value.Send? ==> !w.LetIn(h.requested, h.answer.value.kind)
    ensures Played(c, w, es)
  {}

  lemma LastWaits(c: Config, w: World, es: seq<Event>, now: Tick, entropy: Entropy)
    requires w.Sane()
    requires var called := es + [Ask(now, entropy)];
      && Patient(c, called) && OwnIds(Sendings(c, called)) && called[0].Ask?
      && Kept(w, Run(c, called), Sender(Run(c, called).answer))
    requires var h := Run(c, es + [Ask(now, entropy)]);
      h.answer.Some? && h.answer.value.Send? && w.LetIn(h.requested, h.answer.value.kind)
    ensures var called := es + [Ask(now, entropy)];
      var a := Run(c, called).answer.value;
      Waits(c, w, called, Sending(a.kind, a.id))
  {
    LastSending(c, es, now, entropy);
  }

  /** The last request of the run was that of the current test, and its reply is let in. */
  ghost predicate Waits(c: Config, w: World, es: seq<Event>, x: Sending)
    requires w.Sane()
  {
    SealedWaits(c, w, es, x) == true
  }

  ghost predicate SealedWaits(c: Config, w: World, es: seq<Event>, x: Sending)
    requires w.Sane()
  {
    forall u: RoundSeal {:trigger Opened(u)} :: Opened(u) ==> WaitsParts(c, w, es, x)
  }

  ghost predicate WaitsParts(c: Config, w: World, es: seq<Event>, x: Sending)
    requires w.Sane()
  {
    var h, sent := Run(c, es), Sendings(c, es);
    && es != [] && es[0].Ask? && Patient(c, es) && OwnIds(sent) && sent != [] && x == sent[|sent| - 1]
    && Kept(w, h, {x.kind}) && w.LetIn(h.requested, x.kind)
    && !Done(h.state) && Current(h.state) == Test(x.kind, false, x.id)
  }

  lemma DeliverLast(c: Config, w: World, xs: seq<Exchange>, x: Sending) returns (ys: seq<Exchange>)
    requires w.Sane() && Waits(c, w, Events(c, w, xs), x)
    ensures Played(c, w, Events(c, w, ys)) && Events(c, w, ys) != []
    ensures Run(c, Events(c, w, ys)).calls == Run(c, Events(c, w, xs)).calls
  {
    var es := Events(c, w, xs);
    var last := LastArrives(c, w, es, x);
    ys := xs + [last];
    EventsAdd(c, w, xs, last);
  }

  lemma LastArrives(c: Config, w: World, es: seq<Event>, x: Sending) returns (last: Exchange)
    requires w.Sane() && Waits(c, w, es, x)
    ensures var got := es + Seen(c, w, es, last);
      Played(c, w, got) && got != [] && Run(c, got).calls == Run(c, es).calls
  {
    last := LastSeen(c, w, es, x);
    LastKept(c, w, es, x);
  }

  lemma LastKept(c: Config, w: World, es: seq<Event>, x: Sending)
    requires w.Sane() && Waits(c, w, es, x)
    ensures var got := es + [Got(ReplyBytes(w, x.kind, x.id), w.local)];
      Played(c, w, got) && Run(c, got).calls == Run(c, es).calls
  {
    assert Opened(RoundSeal);
    DeliverKept(c, w, es, x);
    GotPlayed(c, w, es, Got(ReplyBytes(w, x.kind, x.id), w.local));
  }

  lemma LastSeen(c: Config, w: World, es: seq<Event>, x: Sending) returns (last: Exchange)
    requires w.Sane() && Waits(c, w, es, x)
    ensures Seen(c, w, es, last) == [Got(ReplyBytes(w, x.kind, x.id), w.local)]
  {
    assert Opened(RoundSeal);
    last := Deliver(|Sendings(c, es)| - 1);
    LastDelivered(w, Run(c, es).requested, Sendings(c, es), x);
  }

  lemma LastDelivered(w: World, requested: set<Kind>, sent: seq<Sending>, x: Sending)
    requires w.Sane() && sent != [] && sent[|sent| - 1] == x && w.LetIn(requested, x.kind)
    ensures Delivered(w, requested, sent, |sent| - 1) == [Got(ReplyBytes(w, x.kind, x.id), w.local)]
  {}

  lemma GotPlayed(c: Config, w: World, es: seq<Event>, e: Event)
    requires w.Sane() && e.Got? && es != [] && es[0].Ask? && Patient(c, es) && OwnIds(Sendings(c, es))
    requires Kept(w, Run(c, es + [e]), {})
    ensures Played(c, w, es + [e])
  {
    GotPatient(c, es, e.bytes, e.local);
  }

  lemma GotPatient(c: Config, es: seq<Event>, bytes: seq<byte>, local: ValidAddress)
    requires Patient(c, es)
    ensures var got := es + [Got(bytes, local)]; Patient(c, got) && Sendings(c, got) == Sendings(c, es)
  {
    assert (es + [Got(bytes, local)])[..|es|] == es;
    RunAdd(c, es, Got(bytes, local));
  }

  lemma PlayRounds(c: Config, w: World, n: nat) returns (xs: seq<Exchange>)
    requires w.Sane() && Normalized(c).timeoutSeconds <= MAX_TIMEOUT
    ensures var es := Events(c, w, xs); Played(c, w, es) && Run(c, es).calls == n && (n > 0 ==> es != [])
  {
    assert Opened(RoundSeal);
    xs := [];
    for i := 0 to n
      invariant var es := Events(c, w, xs); Played(c, w, es) && Run(c, es).calls == i && (i > 0 ==> es != [])
    {
      xs := PlayRound(c, w, xs);
    }
  }

  /** Every test that had reason to run has sent, and so has its reply if it can. */
  lemma ArrivedAtEnd(c: Config, w: World, es: seq<Event>)
    requires es != [] && es[0].Ask? && Run(c, es).answer == Some(ResultsReady)
    requires Kept(w, Run(c, es), {})
    ensures Arrived(c, w, Run(c, es))
  {
    var h := Run(c, es);
    SentAtEnd(c, es);
    forall k <- Due(c, w, h.taken, h.requested) ensures k in h.taken {
      assert k in Awaited(w, h.requested, {});
    }
  }

  /** Whatever the NAT and wherever the server's addresses are, a client whose timeout can
      be told by its clock has a run that ends with every reply that is let in arrived. */
  lemma SomeRunArrives(c: Config, w: World) returns (xs: seq<Exchange>)
    requires w.Sane() && Normalized(c).timeoutSeconds <= MAX_TIMEOUT
    ensures var h := Run(c, Events(c, w, xs)); h.answer == Some(ResultsReady) && Arrived(c, w, h)
    ensures DistinctIds(Sendings(c, Events(c, w, xs)))
  {
    assert Opened(RoundSeal);
    xs := PlayRounds(c, w, EnoughCalls(c));
    var es := Events(c, w, xs);
    ResultsInTime(c, es);
    ArrivedAtEnd(c, w, es);
    OwnIdsDistinct(Sendings(c, es));
  }

  /** One call more than there can be requests. */
  function EnoughCalls(c: Config): (n: nat)
    ensures n == Normalized(c).maxAttempts * |Kinds(c)| + 1 > 0
  {
    Normalized(c).maxAttempts * |Kinds(c)| + 1
  }

  /** A longer timeout is never over: once a test has sent, only its response ends it. */
  lemma LongTimeoutWaits(s: State, now: Tick, entropy: Entropy)
    requires s.config.timeoutSeconds > MAX_TIMEOUT
    requires !Done(s) && s.preCheckRun && s.sendCount > 0 && IsReadyToRun(Current(s), s.results)
    ensures Next(s, now, entropy) == (s, StillWaiting)
  {
    assert Elapsed(now, s.timeLastSent) <= MAX_TIMEOUT;
  }

  /** So where the server's addresses cannot tell the NAT's class, there is a run with every
      request answered that reports another. */
  lemma MappingMisreported(c: Config, w: World, dests: set<ValidAddress>, cls: NatBehavior) returns (xs: seq<Exchange>)
    requires w.Sane() && Normalized(c).timeoutSeconds <= MAX_TIMEOUT && c.behaviorTest && c.addrServer == w.server
    requires Behaves(w.m, dests, cls, w.local) && {w.server, AddrAP(w.server, w.other), w.other} <= dests
    requires !Tells(cls, w.server, w.other)
    ensures var es := Events(c, w, xs);
      && Run(c, es).answer == Some(ResultsReady) && DistinctIds(Sendings(c, es))
      && Through(c, Run(c, es).taken, w.m, w.local, w.other) && MappingAnswered(Run(c, es).taken)
      && Run(c, es).state.results.behavior != cls
  {
    xs := SomeRunArrives(c, w);
    EventsTold(c, w, xs);
    EndsTold(c, w, xs);
    MappingClassified(c, Events(c, w, xs), w.m, dests, cls, w.local, w.other);
  }

  /** And where the run cannot show the NAT's filter, there is one that reports another. */
  lemma FilteringMisreported(c: Config, w: World, dests: set<ValidAddress>, cls: NatBehavior) returns (xs: seq<Exchange>)
    requires w.Sane() && Normalized(c).timeoutSeconds <= MAX_TIMEOUT && c.filteringTest && c.addrServer == w.server
    requires Behaves(w.m, dests, cls, w.local) && {w.server, AddrAP(w.server, w.other), w.other} <= dests
    requires !ShowsFilter(c, cls, w.f, w.other)
    ensures var es := Events(c, w, xs);
      && Run(c, es).answer == Some(ResultsReady) && DistinctIds(Sendings(c, es)) && Binding in Run(c, es).taken
      && Through(c, Run(c, es).taken, w.m, w.local, w.other)
      && Filters(c, Run(c, es).taken, Run(c, es).requested, w.m, w.f, w.other)
      && Run(c, es).state.results.filtering != w.f
  {
    xs := SomeRunArrives(c, w);
    EventsTold(c, w, xs);
    EndsTold(c, w, xs);
    ClassesReported(c, w, xs, dests, cls);
  }

  // ---- why the ids must differ ------------------------------------------------------------

  /** The first call sends the request of the first test. */
  lemma FirstSends(c: Config, now: Tick, e: Entropy)
    ensures var r := Next(ClientSpec.Start(c), now, e);
      && r.1 == Send(Binding, Be32(COOKIE) + e, c.addrServer)
      && r.0 == Sent(PreChecked(ClientSpec.Start(c)), now, e)
  {
    var s := ClientSpec.Start(c);
    assert Turn(s, now, e) == Step(PreChecked(s), now, e);
  }

  /** The first test is over, and the second has reason to run and no id yet. */
  ghost predicate SecondIsNext(s: State, mapped: ValidAddress) {
    && |s.tests| > 1 && s.index == 0 && s.preCheckRun && s.tests[0].completed && s.config.maxAttempts >= 1
    && s.tests[1] == Test(Behavior2, false, ZERO_ID)
    && s.results.bindingTestSuccess && !s.results.isDirect && s.results.hasOtherAddress
    && !s.results.behaviorTestSuccess && s.results.addrMapped == mapped
  }

  /** Behind a first test that is over, the second sends its first request. */
  lemma SecondSends(s: State, now: Tick, e: Entropy)
    requires SecondIsNext(s, s.results.addrMapped)
    ensures var r := Next(s, now, e);
      && r.1 == Send(Behavior2, Be32(COOKIE) + e, s.results.addrAP)
      && r.0.index == 1 && |r.0.tests| > 1 && r.0.tests[1] == Test(Behavior2, false, Be32(COOKIE) + e)
      && r.0.results == s.results
  {
    TurnProgress(s, now, e);
    assert Turn(s, now, e) == (Advance(s), None);
    var a := Advance(s);
    assert Turn(a, now, e) == Step(PreChecked(a), now, e);
    assert Next(a, now, e) == (Sent(PreChecked(a), now, e), Send(Behavior2, Be32(COOKIE) + e, s.results.addrAP));
  }

  lemma FirstTakes(c: Config, e: Entropy, bytes: seq<byte>, t: Taking)
    requires bytes != [] && Read(bytes, Be32(COOKIE) + e) == Some(t.reply) && c.behaviorTest
    requires t.reply.mapped.Some? && t.reply.other.Some? && t.reply.mapped.value != t.local
    ensures SecondIsNext(Respond(Sent(PreChecked(ClientSpec.Start(c)), 0, e), bytes, t.local), t.reply.mapped.value)
  {
    SameIsEqual(t.local, t.reply.mapped.value);
  }

  lemma SecondTakes(s: State, bytes: seq<byte>, id: TransId, t: Taking)
    requires bytes != [] && Read(bytes, id) == Some(t.reply) && t.reply.mapped == Some(s.results.addrMapped)
    requires s.index == 1 && |s.tests| > 1 && s.tests[1] == Test(Behavior2, false, id)
    ensures Respond(s, bytes, t.local).results.behavior == EndpointIndependentMapping
  {
    SameIsEqual(t.reply.mapped.value, s.results.addrMapped);
  }

  /** A call, and then these bytes. */
  ghost function Round(es: seq<Event>, e: Entropy, bytes: seq<byte>, local: ValidAddress): seq<Event> {
    es + [Ask(0, e)] + [Got(bytes, local)]
  }

  lemma FirstRound(c: Config, e: Entropy, bytes: seq<byte>, t: Taking)
    requires bytes != [] && Read(bytes, Be32(COOKIE) + e) == Some(t.reply) && c.behaviorTest
    requires t.reply.mapped.Some? && t.reply.other.Some? && t.reply.mapped.value != t.local
    ensures var es, first := Round([], e, bytes, t.local), Sending(Binding, Be32(COOKIE) + e);
      && Sendings(c, [] + [Ask(0, e)]) == [first] && Run(c, [] + [Ask(0, e)]).requested == {Binding}
      && Sendings(c, es) == [first] && Run(c, es).requested == {Binding}
      && SecondIsNext(Run(c, es).state, t.reply.mapped.value)
  {
    FirstSends(c, 0, e);
    RunAdd(c, [], Ask(0, e));
    FirstTakes(c, e, bytes, t);
    RunAdd(c, [] + [Ask(0, e)], Got(bytes, t.local));
  }

  lemma SecondRound(c: Config, es: seq<Event>, e: Entropy, bytes: seq<byte>, t: Taking)
    requires bytes != [] && Read(bytes, Be32(COOKIE) + e) == Some(t.reply) && t.reply.mapped.Some?
    requires SecondIsNext(Run(c, es).state, t.reply.mapped.value)
    ensures var more, second := Round(es, e, bytes, t.local), Sending(Behavior2, Be32(COOKIE) + e);
      && Sendings(c, es + [Ask(0, e)]) == Sendings(c, es) + [second] == Sendings(c, more)
      && Run(c, es + [Ask(0, e)]).requested == Run(c, es).requested + {Behavior2}
      && Run(c, more).state.results.behavior == EndpointIndependentMapping
  {
    SecondSends(Run(c, es).state, 0, e);
    RunAdd(c, es, Ask(0, e));
    SecondTakes(Run(c, es + [Ask(0, e)]).state, bytes, Be32(COOKIE) + e, t);
    RunAdd(c, es + [Ask(0, e)], Got(bytes, t.local));
  }

  /** A call, and then the reply to the first request of all. */
  lemma RoundSeen(c: Config, w: World, xs: seq<Exchange>, e: Entropy, id: TransId)
    requires w.Sane()
    requires var called := Events(c, w, xs) + [Ask(0, e)];
      && Sendings(c, called) != [] && Sendings(c, called)[0] == Sending(Binding, id)
      && Binding in Run(c, called).requested
    ensures Events(c, w, xs + [Call(0, e)] + [Deliver(0)])
         == Round(Events(c, w, xs), e, ReplyBytes(w, Binding, id), w.local)
  {
    EventsAdd(c, w, xs, Call(0, e));
    MappingLetIn(w, Run(c, Events(c, w, xs) + [Ask(0, e)]).requested, Binding);
    EventsAdd(c, w, xs + [Call(0, e)], Deliver(0));
  }

  /** If the second mapping test draws the id of the first, a late copy of the reply to the
      first counts as its own, and every NAT is reported as endpoint independent. */
  lemma SameIdsMislead(c: Config, w: World, e: Entropy) returns (xs: seq<Exchange>)
    requires w.Sane() && c.addrServer == w.server && c.behaviorTest && w.m(w.server) != w.local
    ensures var es := Events(c, w, xs);
      && !DistinctIds(Sendings(c, es))
      && Run(c, es).state.results.behavior == EndpointIndependentMapping
  {
    var id := Be32(COOKIE) + e;
    var first, second := Sending(Binding, id), Sending(Behavior2, id);
    ReplyTells(w, Binding, id);
    FirstRound(c, e, ReplyBytes(w, Binding, id), Truth(w, first));
    RoundSeen(c, w, [], e, id);
    xs := [] + [Call(0, e)] + [Deliver(0)];
    SecondRound(c, Events(c, w, xs), e, ReplyBytes(w, Binding, id), Truth(w, first));
    RoundSeen(c, w, xs, e, id);
    xs := xs + [Call(0, e)] + [Deliver(0)];
    assert first in [first] + [second] && second in [first] + [second];
  }

  // ---- two examples -----------------------------------------------------------------------

  const SERVER: ValidAddress := Address(IPv4, [13, 150], [192, 0, 2, 1])
  const SAME_IP: ValidAddress := Address(IPv4, [13, 151], [192, 0, 2, 1])
  const OTHER_IP: ValidAddress := Address(IPv4, [13, 151], [192, 0, 2, 2])
  const LOCAL: ValidAddress := Address(IPv4, [19, 136], [10, 0, 0, 2])
  const PUBLIC: ValidAddress := Address(IPv4, [19, 136], [198, 51, 100, 7])

  lemma PublicIsAnother()
    ensures PUBLIC != LOCAL && !PUBLIC.IsIPAddressZero() && !SERVER.IsIPAddressZero()
    ensures !SAME_IP.IsIPAddressZero() && !OTHER_IP.IsIPAddressZero()
    ensures SAME_IP.IsSameIP(SERVER) && !OTHER_IP.IsSameIP(SERVER)
  {
    assert PUBLIC.ip[0] == 198 && LOCAL.ip[0] == 10;
    assert SERVER.ip[0] == SAME_IP.ip[0] == OTHER_IP.ip[0] == 192;
    assert SERVER.ip[3] == 1 && OTHER_IP.ip[3] == 2;
    assert Zeros(4)[0] == 0;
  }

  /** A server whose other address shares the ip, and a NAT with one mapping for each ip. */
  lemma SharedIpExample(crypto: Crypto) returns (c: Config, w: World, xs: seq<Exchange>)
    ensures w.Sane() && c.addrServer == w.server == SERVER && w.other == SAME_IP
    ensures Behaves(w.m, {SERVER, AddrAP(SERVER, SAME_IP), SAME_IP}, AddressDependentMapping, w.local)
    ensures var h := Run(c, Events(c, w, xs));
      && h.answer == Some(ResultsReady)
      && Through(c, h.taken, w.m, w.local, w.other) && MappingAnswered(h.taken)
      && h.state.results.behavior != AddressDependentMapping
  {
    PublicIsAnother();
    Ports(SERVER, SAME_IP);
    c := Config(SERVER, true, 0, 0, true, false);
    w := World(d => PUBLIC, EndpointIndependentFiltering, LOCAL, SERVER, SAME_IP, 0, crypto);
    xs := MappingMisreported(c, w, {SERVER, AddrAP(SERVER, SAME_IP), SAME_IP}, AddressDependentMapping);
  }

  /** A filter by address behind one mapping for all, and both groups of tests in one run. */
  lemma AddressFilterExample(crypto: Crypto) returns (c: Config, w: World, xs: seq<Exchange>)
    ensures w.Sane() && c.addrServer == w.server == SERVER && w.other == OTHER_IP
    ensures Behaves(w.m, {SERVER, AddrAP(SERVER, OTHER_IP), OTHER_IP}, EndpointIndependentMapping, w.local)
    ensures var h := Run(c, Events(c, w, xs));
      && h.answer == Some(ResultsReady) && Binding in h.taken && w.f == AddressDependentFiltering
      && Through(c, h.taken, w.m, w.local, w.other) && Filters(c, h.taken, h.requested, w.m, w.f, w.other)
      && h.state.results.filtering != AddressDependentFiltering
  {
    PublicIsAnother();
    c := Config(SERVER, true, 0, 0, true, true);
    w := World(d => PUBLIC, AddressDependentFiltering, LOCAL, SERVER, OTHER_IP, 0, crypto);
    xs := FilteringMisreported(c, w, {SERVER, AddrAP(SERVER, OTHER_IP), OTHER_IP}, EndpointIndependentMapping);
  }
}
