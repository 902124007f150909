/** What the verdicts of a finished run say: about the responses, and about the NAT the
    responses came through (RFC 5780 sections 4.3 and 4.4).
 */
module ClientVerdicts {
  import opened Bytes
  import opened SocketAddress
  import opened ClientSpec
  import opened ClientRuns
  import opened Seals

  /** Each mapping class is reported just on the comparisons that define it. */
  lemma ClassSaysComparisons(c: Config, events: seq<Event>)
    requires Run(c, events).answer == Some(ResultsReady) && c.behaviorTest
    ensures var r, a := Run(c, events).state.results, Run(c, events).taken;
      && (r.behavior == DirectMapping <==> Binding in a && r.addrMapped == r.addrLocal)
      && (r.behavior == EndpointIndependentMapping <==>
            Binding in a && r.addrMapped != r.addrLocal && Behavior2 in a && r.addrMappingAP == r.addrMapped)
      && (r.behavior == AddressDependentMapping <==>
            Binding in a && r.addrMapped != r.addrLocal && Behavior2 in a && r.addrMappingAP != r.addrMapped
            && Behavior3 in a && r.addrMappingAA == r.addrMappingAP)
      && (r.behavior == AddressAndPortDependentMapping <==>
            Binding in a && r.addrMapped != r.addrLocal && Behavior2 in a && r.addrMappingAP != r.addrMapped
            && Behavior3 in a && r.addrMappingAA != r.addrMappingAP)
      && (r.behaviorTestSuccess <==> r.behavior != UnknownBehavior)
  {
    ResultsAre(c, events);
  }

  // ---- the mapping behaviour ------------------------------------------------------------

  /** A NAT, as far as one local endpoint can tell: where each destination sees it. */
  type Mapping = ValidAddress -> ValidAddress

  /** Towards these destinations the NAT is of this class, and no more lenient than its class. */
  ghost predicate Behaves(m: Mapping, dests: set<ValidAddress>, cls: NatBehavior, local: ValidAddress) {
    && (forall d <- dests :: !m(d).IsIPAddressZero())
    && (cls == DirectMapping || forall d <- dests :: m(d) != local)
    && match cls
       case DirectMapping => forall d <- dests :: m(d) == local
       case EndpointIndependentMapping => forall d <- dests, e <- dests :: m(d) == m(e)
       case AddressDependentMapping => forall d <- dests, e <- dests :: m(d) == m(e) <==> d.IsSameIP(e)
       case AddressAndPortDependentMapping => forall d <- dests, e <- dests :: m(d) == m(e) <==> d == e
       case UnknownBehavior => false
  }

  function AddrAP(server: ValidAddress, other: ValidAddress): ValidAddress {
    other.SetPort(server.GetPort())
  }

  function AddrPA(server: ValidAddress, other: ValidAddress): ValidAddress {
    server.SetPort(other.GetPort())
  }

  /** Where a test sends its requests, given the server's two addresses. */
  function DestOf(k: Kind, server: ValidAddress, other: ValidAddress): ValidAddress {
    match k
    case Behavior2 => AddrAP(server, other)
    case Behavior3 => other
    case _ => server
  }

  /** At any point of any run, the next request goes where the test is to look from. */
  lemma RequestGoesTo(c: Config, events: seq<Event>, now: Tick, entropy: Entropy)
    ensures var h := Run(c, events);
      var r := Next(h.state, now, entropy);
      r.1.Send? ==> r.1.dest == DestOf(r.1.kind, c.addrServer, OtherOf(h.taken))
  {
    assert Opened(RunSeal);
    RunSound(c, events);
    SoundGoesTo(Run(c, events).state, Run(c, events).taken, now, entropy);
  }

  lemma SoundGoesTo(s: State, a: Answers, now: Tick, entropy: Entropy)
    requires Sound(s, a)
    ensures var r := Next(s, now, entropy);
      r.1.Send? ==> r.1.dest == DestOf(r.1.kind, s.config.addrServer, OtherOf(a))
  {
    assert Opened(RunSeal);
    NextSound(s, a, now, entropy);
    NextConfig(s, now, entropy);
    if Next(s, now, entropy).1.Send? {
      SendDescribed(s, now, entropy);
    }
  }

  /** The responses taken came through this NAT, from a server that offers this other address. */
  ghost predicate Through(c: Config, a: Answers, m: Mapping, local: ValidAddress, other: ValidAddress) {
    && (Binding in a ==> a[Binding].reply.other == Some(other) && a[Binding].local == local)
    && forall k <- a :: k in {Binding, Behavior2, Behavior3} ==>
         a[k].reply.mapped == Some(m(DestOf(k, c.addrServer, other)))
  }

  /** Every request of the mapping tests was answered. */
  predicate MappingAnswered(a: Answers) {
    && Binding in a
    && (Runnable(Behavior2, a) ==> Behavior2 in a)
    && (Runnable(Behavior3, a) ==> Behavior3 in a)
  }

  /** Whether the server's two addresses are different enough to tell the class. */
  predicate Tells(cls: NatBehavior, server: ValidAddress, other: ValidAddress) {
    match cls
    case AddressDependentMapping => !other.IsSameIP(server)
    case AddressAndPortDependentMapping => !other.IsSameIP(server) && other.GetPort() != server.GetPort()
    case _ => true
  }

  lemma Ports(server: ValidAddress, other: ValidAddress)
    ensures AddrAP(server, other).IsSameIP(other)
    ensures AddrPA(server, other).IsSameIP(server)
    ensures AddrAP(server, other) == server <==> other.IsSameIP(server)
    ensures AddrAP(server, other) == other <==> other.GetPort() == server.GetPort()
    ensures AddrPA(server, other) == server <==> other.GetPort() == server.GetPort()
  {
    SamePort(server, other);
    SamePort(other, server);
  }

  lemma SamePort(a: ValidAddress, b: ValidAddress)
    ensures Be16(a.GetPort()) == a.port
    ensures b.SetPort(a.GetPort()).GetPort() == a.GetPort()
    ensures b.SetPort(a.GetPort()) == b <==> a.GetPort() == b.GetPort()
  {
    Be16U16(a.port, 0);
    Be16U16(b.port, 0);
    assert a.port[0..2] == a.port && b.port[0..2] == b.port;
    U16Be16(a.GetPort());
  }

  /** With every request answered, the class reported is the NAT's class just if the other
      address of the server differs in what the class depends on. */
  lemma MappingClassified(c: Config, events: seq<Event>, m: Mapping, dests: set<ValidAddress>, cls: NatBehavior,
                          local: ValidAddress, other: ValidAddress)
    requires Run(c, events).answer == Some(ResultsReady) && c.behaviorTest
    requires Behaves(m, dests, cls, local) && {c.addrServer, AddrAP(c.addrServer, other), other} <= dests
    requires Through(c, Run(c, events).taken, m, local, other) && MappingAnswered(Run(c, events).taken)
    ensures Run(c, events).state.results.behavior == cls <==> Tells(cls, c.addrServer, other)
  {
    ResultsAre(c, events);
    Ports(c.addrServer, other);
    VerdictTells(Normalized(c), Run(c, events).taken, |Kinds(c)|, m, dests, cls, local, other);
  }

  lemma VerdictTells(c: Config, a: Answers, over: nat, m: Mapping, dests: set<ValidAddress>, cls: NatBehavior,
                     local: ValidAddress, other: ValidAddress)
    requires c.behaviorTest && over > 1
    requires Behaves(m, dests, cls, local) && {c.addrServer, AddrAP(c.addrServer, other), other} <= dests
    requires Through(c, a, m, local, other) && MappingAnswered(a)
    requires var server := c.addrServer;
      && AddrAP(server, other).IsSameIP(other)
      && (AddrAP(server, other) == server <==> other.IsSameIP(server))
      && (AddrAP(server, other) == other <==> other.GetPort() == server.GetPort())
    ensures BehaviorVerdict(c, a, over) == cls <==> Tells(cls, c.addrServer, other)
  {
    var ap := AddrAP(c.addrServer, other);
    assert MappedOf(a, Binding) == m(c.addrServer);
    assert m(ap) == m(c.addrServer) || m(ap) != m(c.addrServer);
  }

  // ---- the filtering behaviour --------------------------------------------------------------

  /** The verdict on filtering is conclusive, and says which of the two tests took a response. */
  lemma FilteringConclusive(c: Config, events: seq<Event>)
    requires Run(c, events).answer == Some(ResultsReady) && c.filteringTest
    requires var r := Run(c, events).state.results; r.bindingTestSuccess && (r.isDirect || r.hasOtherAddress)
    ensures var r, a := Run(c, events).state.results, Run(c, events).taken;
      && r.filteringTestSuccess
      && (r.gotTest2Response <==> Filtering2 in a) && (r.gotTest3Response <==> Filtering3 in a)
      && !(r.gotTest2Response && r.gotTest3Response)
      && r.filtering == if r.isDirect || r.gotTest2Response then EndpointIndependentFiltering
                        else if r.gotTest3Response then AddressDependentFiltering
                        else AddressAndPortDependentFiltering
  {
    ResultsAre(c, events);
  }

  /** What a NAT lets in through the mapping that was made for the server's first address. */
  predicate Passes(f: NatFiltering, from: ValidAddress, contacted: set<ValidAddress>) {
    match f
    case EndpointIndependentFiltering => true
    case AddressDependentFiltering => exists d <- contacted :: d.IsSameIP(from)
    case AddressAndPortDependentFiltering => from in contacted
    case _ => false
  }

  /** The destinations of the requests sent through that mapping, at the time of the
      filtering tests; these too are sent to the first address. */
  function Contacted(requested: set<Kind>, m: Mapping, server: ValidAddress, other: ValidAddress): set<ValidAddress> {
    {server}
    + (if Behavior2 in requested && m(AddrAP(server, other)) == m(server) then {AddrAP(server, other)} else {})
    + (if Behavior3 in requested && m(other) == m(server) then {other} else {})
  }

  /** A filtering test takes a response just if the NAT lets it in: the second test's comes
      from the server's other address, the third's from its other port. */
  ghost predicate Filters(c: Config, a: Answers, requested: set<Kind>, m: Mapping, f: NatFiltering, other: ValidAddress) {
    var open := Contacted(requested, m, c.addrServer, other);
    && (Runnable(Filtering2, a) ==> (Filtering2 in a <==> Passes(f, other, open)))
    && (Runnable(Filtering3, a) ==> (Filtering3 in a <==> Passes(f, AddrPA(c.addrServer, other), open)))
  }

  /** When the filtering class reported is the right one. A direct host never gets as far as
      the tests. A filter by address shows only if the other address has an ip of its own
      to which nothing was sent through the same mapping, as the mapping tests of the same
      run do through one that does not depend on the destination; and a filter by port only
      if the other address has a port of its own. */
  predicate ShowsFilter(c: Config, cls: NatBehavior, f: NatFiltering, other: ValidAddress) {
    if cls == DirectMapping then f == EndpointIndependentFiltering
    else
      match f
      case AddressDependentFiltering =>
        !other.IsSameIP(c.addrServer) && !(c.behaviorTest && cls == EndpointIndependentMapping)
      case AddressAndPortDependentFiltering => other.GetPort() != c.addrServer.GetPort()
      case _ => true
  }

  /** At the end the mapping tests with reason to run have sent, and no other. */
  lemma RequestsAtEnd(c: Config, events: seq<Event>)
    requires Run(c, events).answer == Some(ResultsReady)
    ensures var h := Run(c, events);
      && (Behavior2 in h.requested <==> c.behaviorTest && Runnable(Behavior2, h.taken))
      && (Behavior3 in h.requested ==> Runnable(Behavior3, h.taken))
  {
    RunSound(c, events);
    RunRequests(c, events);
    AtEnd(Run(c, events).state, Run(c, events).taken);
  }

  /** The filtering class reported is the NAT's class just if the run can show it. */
  lemma FilteringClassified(c: Config, events: seq<Event>, m: Mapping, dests: set<ValidAddress>, cls: NatBehavior,
                            f: NatFiltering, local: ValidAddress, other: ValidAddress)
    requires Run(c, events).answer == Some(ResultsReady) && c.filteringTest
    requires Behaves(m, dests, cls, local) && {c.addrServer, AddrAP(c.addrServer, other), other} <= dests
    requires f in {EndpointIndependentFiltering, AddressDependentFiltering, AddressAndPortDependentFiltering}
    requires var h := Run(c, events);
      Binding in h.taken && Through(c, h.taken, m, local, other) && Filters(c, h.taken, h.requested, m, f, other)
    ensures Run(c, events).state.results.filtering == f <==> ShowsFilter(c, cls, f, other)
  {
    var h := Run(c, events);
    ResultsAre(c, events);
    RequestsAtEnd(c, events);
    if cls != DirectMapping {
      assert Behavior2 in h.requested <==> c.behaviorTest;
      VerdictFilters(Normalized(c), h.taken, |Kinds(c)|, h.requested, m, dests, cls, f, local, other);
    }
  }

  lemma VerdictFilters(c: Config, a: Answers, over: nat, requested: set<Kind>, m: Mapping, dests: set<ValidAddress>,
                       cls: NatBehavior, f: NatFiltering, local: ValidAddress, other: ValidAddress)
    requires c.filteringTest && over > Position(c, Filtering3)
    requires Behaves(m, dests, cls, local) && {c.addrServer, AddrAP(c.addrServer, other), other} <= dests
    requires cls != DirectMapping
    requires f in {EndpointIndependentFiltering, AddressDependentFiltering, AddressAndPortDependentFiltering}
    requires Binding in a && Through(c, a, m, local, other) && Filters(c, a, requested, m, f, other)
    requires forall k <- a :: Runnable(k, a)
    requires Behavior2 in requested <==> c.behaviorTest
    requires Behavior3 in requested ==> Runnable(Behavior3, a)
    ensures FilteringVerdict(c, a, over) == f <==> ShowsFilter(c, cls, f, other)
  {
    var server, ap, pa := c.addrServer, AddrAP(c.addrServer, other), AddrPA(c.addrServer, other);
    var open := Contacted(requested, m, server, other);
    Ports(server, other);
    ContactedIs(c, a, requested, m, dests, cls, local, other);
    assert !Direct(a) && HasOther(a);
    match f {
      case EndpointIndependentFiltering =>
      case AddressDependentFiltering =>
        assert server in open;
      case AddressAndPortDependentFiltering =>
        assert server in open;
    }
  }

  /** Through the mapping of the first address, the mapping tests reach one more address at
      most, and that only if the mapping does not depend on the destination's ip, or the two
      addresses share it. */
  lemma ContactedIs(c: Config, a: Answers, requested: set<Kind>, m: Mapping, dests: set<ValidAddress>,
                    cls: NatBehavior, local: ValidAddress, other: ValidAddress)
    requires Behaves(m, dests, cls, local) && {c.addrServer, AddrAP(c.addrServer, other), other} <= dests
    requires cls != DirectMapping && Through(c, a, m, local, other)
    requires forall k <- a :: Runnable(k, a)
    requires Behavior2 in requested <==> c.behaviorTest
    requires Behavior3 in requested ==> Runnable(Behavior3, a)
    ensures Contacted(requested, m, c.addrServer, other)
         == if c.behaviorTest && cls == EndpointIndependentMapping then {c.addrServer, AddrAP(c.addrServer, other)}
            else {c.addrServer}
  {
    var server, ap := c.addrServer, AddrAP(c.addrServer, other);
    Ports(server, other);
    if Behavior3 in requested {
      assert Behavior2 in a && Binding in a;
      assert MappedOf(a, Behavior2) == m(ap) && MappedOf(a, Binding) == m(server);
    }
    if m(ap) == m(server) && cls != EndpointIndependentMapping {
      assert ap.IsSameIP(server);
    }
  }
}
