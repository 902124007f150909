/** The client's test sequencer as a state machine: the five tests, their effect on the
    results, and the steps of GetNextMessage and ProcessResponse.
 */
module ClientSpec {
  import opened Bytes
  import opened StunFormat
  import opened StunMessage
  import opened StunQuery
  import opened SocketAddress
  import HandlerSpec

  const ZERO_ADDRESS := Address(IPv4, Zeros(2), Zeros(4))
  const ZERO_ID: TransId := Zeros(16)
  const TICKS := 0x1_0000_0000

  type ValidAddress = a: Address | a.Valid() witness ZERO_ADDRESS
  type TransId = s: seq<byte> | |s| == 16 witness Zeros(16)
  type Entropy = s: seq<byte> | |s| == 12 witness Zeros(12)
  type Tick = n: nat | n < TICKS

  datatype Config = Config(
    addrServer: ValidAddress,
    timeoutIsInstant: bool,
    timeoutSeconds: nat,
    maxAttempts: nat,
    behaviorTest: bool,
    filteringTest: bool)

  datatype NatBehavior =
    UnknownBehavior | DirectMapping | EndpointIndependentMapping
    | AddressDependentMapping | AddressAndPortDependentMapping

  datatype NatFiltering =
    UnknownFiltering | DirectConnectionFiltering | EndpointIndependentFiltering
    | AddressDependentFiltering | AddressAndPortDependentFiltering

  datatype Results = Results(
    bindingTestSuccess: bool,
    isDirect: bool,
    addrLocal: ValidAddress,
    addrMapped: ValidAddress,
    hasOtherAddress: bool,
    addrPA: ValidAddress,
    addrAP: ValidAddress,
    addrAA: ValidAddress,
    behaviorTestSuccess: bool,
    behavior: NatBehavior,
    addrMappingAP: ValidAddress,
    addrMappingAA: ValidAddress,
    filteringTestSuccess: bool,
    filtering: NatFiltering,
    gotTest2Response: bool,
    gotTest3Response: bool)

  const NO_RESULTS := Results(
    false, false, ZERO_ADDRESS, ZERO_ADDRESS, false, ZERO_ADDRESS, ZERO_ADDRESS, ZERO_ADDRESS,
    false, UnknownBehavior, ZERO_ADDRESS, ZERO_ADDRESS, false, UnknownFiltering, false, false)

  /** CBasicBindingTest, and CBehaviorTest and CFilteringTest in their two roles. */
  datatype Kind = Binding | Behavior2 | Behavior3 | Filtering2 | Filtering3

  datatype Test = Test(kind: Kind, completed: bool, transid: TransId)

  datatype State = State(
    config: Config,
    results: Results,
    tests: seq<Test>,
    index: nat,
    sendCount: nat,
    preCheckRun: bool,
    timeLastSent: Tick)

  // ---- starting -------------------------------------------------------------------------

  /** The defaults: three seconds and two attempts. */
  function Normalized(c: Config): (r: Config)
    ensures r.maxAttempts >= 1 && (c.timeoutIsInstant ==> r.timeoutSeconds == 0)
  {
    c.(timeoutSeconds := if c.timeoutIsInstant then 0 else if c.timeoutSeconds == 0 then 3 else c.timeoutSeconds,
       maxAttempts := if c.maxAttempts == 0 then 2 else c.maxAttempts)
  }

  function Kinds(c: Config): (r: seq<Kind>)
    ensures 1 <= |r| <= 5 && r[0] == Binding
  {
    [Binding]
    + (if c.behaviorTest then [Behavior2, Behavior3] else [])
    + (if c.filteringTest then [Filtering2, Filtering3] else [])
  }

  function NewTests(kinds: seq<Kind>): (r: seq<Test>)
    ensures |r| == |kinds|
    ensures forall i :: 0 <= i < |r| ==> r[i] == Test(kinds[i], false, ZERO_ID)
  {
    seq(|kinds|, i requires 0 <= i < |kinds| => Test(kinds[i], false, ZERO_ID))
  }

  function Start(c: Config): State {
    State(Normalized(c), NO_RESULTS, NewTests(Kinds(c)), 0, 0, false, 0)
  }

  // ---- the tests -----------------------------------------------------------------------

  /** PreRunCheck: a direct connection settles the second and third tests of either kind. */
  predicate SettledEarly(k: Kind, r: Results) {
    (k == Behavior2 || k == Filtering2) && r.bindingTestSuccess && r.isDirect
  }

  function EarlyResults(k: Kind, r: Results): Results {
    if k == Behavior2 then r.(behavior := DirectMapping, behaviorTestSuccess := true)
    else r.(filtering := EndpointIndependentFiltering, filteringTestSuccess := true)
  }

  predicate IsReadyToRun(t: Test, r: Results) {
    && !t.completed
    && match t.kind
       case Binding => true
       case Behavior2 => r.bindingTestSuccess && r.hasOtherAddress && !r.behaviorTestSuccess
       case Behavior3 =>
         && r.bindingTestSuccess && r.hasOtherAddress && !r.behaviorTestSuccess
         && !r.addrMappingAP.IsIPAddressZero()
       case _ => r.bindingTestSuccess && r.hasOtherAddress && !r.filteringTestSuccess && !r.gotTest2Response
  }

  /** What a request asks the server to change: bit 2 the ip, bit 1 the port. */
  function ChangeFlags(k: Kind): nat {
    match k
    case Filtering2 => 6
    case Filtering3 => 2
    case _ => 0
  }

  function Target(k: Kind, c: Config, r: Results): ValidAddress {
    match k
    case Behavior2 => r.addrAP
    case Behavior3 => r.addrAA
    case _ => c.addrServer
  }

  /** A test keeps the id of its first request; that is the cookie and something random. */
  function RequestId(t: Test, entropy: Entropy): (id: TransId)
    ensures id != ZERO_ID
  {
    if t.transid != ZERO_ID then t.transid
    else
      var id := Be32(COOKIE) + entropy;
      assert id[0] == 0x21 && ZERO_ID[0] == 0;
      id
  }

  function RequestMessage(k: Kind, id: TransId): Message {
    Message(HandlerSpec.BINDING, 0, id, [Attr(CHANGEREQUEST, Be32(ChangeFlags(k)))])
  }

  function TimeoutResults(k: Kind, r: Results): Results {
    match k
    case Binding => r.(bindingTestSuccess := false)
    case Behavior2 => r.(behaviorTestSuccess := false)
    case Behavior3 => r.(behaviorTestSuccess := false)
    case Filtering2 => r
    case Filtering3 => r.(filteringTestSuccess := true, filtering := AddressAndPortDependentFiltering)
  }

  /** What a test takes from a validated response with its own transaction id. */
  datatype Response = Response(mapped: Option<ValidAddress>, other: Option<ValidAddress>)

  /** The mapping tests drop a response without a mapped address. */
  predicate Usable(k: Kind, y: Response) {
    y.mapped.Some? || k == Filtering2 || k == Filtering3
  }

  function ReplyResults(k: Kind, c: Config, r: Results, y: Response, local: ValidAddress): Results
    requires Usable(k, y)
  {
    match k
    case Binding =>
      var r1 := r.(
        bindingTestSuccess := true, isDirect := local.IsSameIP_and_Port(y.mapped.value),
        addrLocal := local, addrMapped := y.mapped.value, hasOtherAddress := y.other.Some?);
      if y.other.None? then r1
      else r1.(
        addrAA := y.other.value,
        addrPA := c.addrServer.SetPort(y.other.value.GetPort()),
        addrAP := y.other.value.SetPort(c.addrServer.GetPort()))
    case Behavior2 =>
      var r1 := r.(addrMappingAP := y.mapped.value);
      if y.mapped.value.IsSameIP_and_Port(r.addrMapped)
      then r1.(behaviorTestSuccess := true, behavior := EndpointIndependentMapping)
      else r1
    case Behavior3 =>
      r.(addrMappingAA := y.mapped.value, behaviorTestSuccess := true,
         behavior := if y.mapped.value.IsSameIP_and_Port(r.addrMappingAP)
                     then AddressDependentMapping else AddressAndPortDependentMapping)
    case Filtering2 =>
      r.(gotTest2Response := true, filteringTestSuccess := true, filtering := EndpointIndependentFiltering)
    case Filtering3 =>
      r.(gotTest3Response := true, filteringTestSuccess := true, filtering := AddressDependentFiltering)
  }

  // ---- reading a response ------------------------------------------------------------------

  /** The one list of attributes of a valid message. */
  ghost function AttributesOf(s: seq<byte>): (attrs: seq<StunAttribute>)
    requires StateAfter(true, s) == BodyValidated
    ensures Grammar(true, s, attrs) && Within(s, attrs)
  {
    var attrs :| Grammar(true, s, attrs);
    GrammarWithin(true, s, attrs);
    attrs
  }

  lemma AttributesAre(s: seq<byte>, attrs: seq<StunAttribute>)
    requires Grammar(true, s, attrs)
    ensures StateAfter(true, s) == BodyValidated && AttributesOf(s) == attrs
  {
    GrammarUnique(true, s, attrs, AttributesOf(s));
  }

  /** The response in these bytes, if they are a valid message with this transaction id,
      of whatever type and class. */
  ghost function Read(s: seq<byte>, id: TransId): Option<Response> {
    if StateAfter(true, s) != BodyValidated || TransactionId(s) != id then None
    else Some(ReplyOf(s, AttributesOf(s)))
  }

  function ReplyOf(s: seq<byte>, attrs: seq<StunAttribute>): Response
    requires Within(s, attrs)
  {
    AddressesValid(s, attrs);
    var x := XorMappedAddress(s, attrs);
    Response(if x.Some? then x else MappedAddress(s, attrs), OtherAddress(s, attrs))
  }

  lemma AddressesValid(s: seq<byte>, attrs: seq<StunAttribute>)
    requires Within(s, attrs)
    ensures XorMappedAddress(s, attrs).Some? ==> XorMappedAddress(s, attrs).value.Valid()
    ensures MappedAddress(s, attrs).Some? ==> MappedAddress(s, attrs).value.Valid()
    ensures OtherAddress(s, attrs).Some? ==> OtherAddress(s, attrs).value.Valid()
  {
    DecodedValidEither(s, attrs);
    var e := EitherAddress(s, attrs, XORMAPPEDADDRESS, XORMAPPEDADDRESS_OPTIONAL);
    if e.Some? {
      XorMapTwice(e.value, TransactionId(s));
    }
  }

  // ---- the steps -----------------------------------------------------------------------------

  datatype Answer = ResultsReady | StillWaiting | Send(kind: Kind, id: TransId, dest: ValidAddress)

  /** Whole seconds between two readings of a millisecond counter that wraps around. */
  function Elapsed(now: Tick, before: Tick): nat {
    (now - before) % TICKS / 1000
  }

  predicate Done(s: State) {
    s.index >= |s.tests|
  }

  function Current(s: State): Test
    requires !Done(s)
  {
    s.tests[s.index]
  }

  function Complete(s: State): State
    requires !Done(s)
  {
    s.(tests := s.tests[s.index := Current(s).(completed := true)])
  }

  function PreChecked(s: State): (r: State)
    requires !Done(s)
    ensures r.index == s.index && |r.tests| == |s.tests| && r.preCheckRun
  {
    if s.preCheckRun then s
    else if SettledEarly(Current(s).kind, s.results)
    then Complete(s).(results := EarlyResults(Current(s).kind, s.results), preCheckRun := true)
    else s.(preCheckRun := true)
  }

  function Advance(s: State): State {
    s.(index := s.index + 1, sendCount := 0, preCheckRun := false)
  }

  function TimeOut(s: State): State
    requires !Done(s)
  {
    Complete(s).(results := TimeoutResults(Current(s).kind, s.results))
  }

  function Sent(s: State, now: Tick, entropy: Entropy): State
    requires !Done(s)
  {
    s.(tests := s.tests[s.index := Current(s).(transid := RequestId(Current(s), entropy))],
       sendCount := s.sendCount + 1, timeLastSent := now)
  }

  /** One turn of the loop in GetNextMessage; it goes on while there is no answer. */
  function Turn(s: State, now: Tick, entropy: Entropy): (State, Option<Answer>) {
    if Done(s) then (s, Some(ResultsReady)) else Step(PreChecked(s), now, entropy)
  }

  /** The rest of the turn, after the current test had its early chance. */
  function Step(p: State, now: Tick, entropy: Entropy): (State, Option<Answer>)
    requires !Done(p)
  {
    var t := Current(p);
    if t.completed || !IsReadyToRun(t, p.results) then (Advance(p), None)
    else if Waiting(p, now) then (p, Some(StillWaiting))
    else if p.sendCount >= p.config.maxAttempts then (TimeOut(p), None)
    else (Sent(p, now, entropy), Some(Send(t.kind, RequestId(t, entropy), Target(t.kind, p.config, p.results))))
  }

  predicate Waiting(p: State, now: Tick) {
    Elapsed(now, p.timeLastSent) < p.config.timeoutSeconds && p.sendCount != 0
  }

  /** Every turn without an answer passes a test, or completes the current one. */
  function Remaining(s: State): nat {
    if Done(s) then 0 else 2 * (|s.tests| - s.index) + if Current(s).completed then 0 else 1
  }

  lemma TurnProgress(s: State, now: Tick, entropy: Entropy)
    ensures var r := Turn(s, now, entropy); r.1.None? ==> Remaining(r.0) < Remaining(s)
  {}

  /** GetNextMessage, from a state in which it may be called. */
  function Next(s: State, now: Tick, entropy: Entropy): (State, Answer)
    decreases Remaining(s)
  {
    TurnProgress(s, now, entropy);
    var r := Turn(s, now, entropy);
    if r.1.Some? then (r.0, r.1.value) else Next(r.0, now, entropy)
  }

  /** The response that the current test takes from these bytes, if it takes one. */
  ghost function Taken(s: State, bytes: seq<byte>): Option<Response> {
    if bytes == [] || Done(s) || Current(s).completed then None
    else
      var y := Read(bytes, Current(s).transid);
      if y.Some? && Usable(Current(s).kind, y.value) then y else None
  }

  /** ProcessResponse. */
  ghost function Respond(s: State, bytes: seq<byte>, local: ValidAddress): State {
    var y := Taken(s, bytes);
    if y.None? then s
    else Complete(s).(results := ReplyResults(Current(s).kind, s.config, s.results, y.value, local))
  }
}
