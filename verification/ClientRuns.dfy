/** What holds over every run of the client: the results are at each point a function of the
    responses taken so far and of how many tests are over, whatever arrives and when.
 */
module ClientRuns {
  import opened Seals
  import opened Bytes
  import opened SocketAddress
  import opened ClientSpec

  /** A call of GetNextMessage or of ProcessResponse. */
  datatype Event = Ask(now: Tick, entropy: Entropy) | Got(bytes: seq<byte>, local: ValidAddress)

  /** A response that a test took, and the local address it came in on. */
  datatype Taking = Taking(reply: Response, local: ValidAddress)

  type Answers = map<Kind, Taking>

  /** The state after some calls; which tests took which response; which tests sent a
      request; how many calls of GetNextMessage there were, how many of them gave a message
      to send, and what the last one answered. */
  datatype History = History(
    state: State, taken: Answers, requested: set<Kind>, calls: nat, sent: nat, answer: Option<Answer>)

  function SentBy(answer: Option<Answer>): nat {
    if answer.Some? && answer.value.Send? then 1 else 0
  }

  function Requested(before: set<Kind>, answer: Option<Answer>): set<Kind> {
    if answer.Some? && answer.value.Send? then before + {answer.value.kind} else before
  }

  ghost function After(h: History, e: Event): History {
    match e
    case Ask(now, entropy) =>
      var r := Next(h.state, now, entropy);
      History(r.0, h.taken, Requested(h.requested, Some(r.1)), h.calls + 1, h.sent + SentBy(Some(r.1)), Some(r.1))
    case Got(bytes, local) =>
      var y := Taken(h.state, bytes);
      h.(state := Respond(h.state, bytes, local),
         taken := if y.None? then h.taken else h.taken[Current(h.state).kind := Taking(y.value, local)])
  }

  ghost function Run(c: Config, events: seq<Event>): History {
    if events == [] then History(Start(c), map[], {}, 0, 0, None)
    else After(Run(c, events[..|events| - 1]), events[|events| - 1])
  }

  // ---- the results as a function of the responses --------------------------------------

  function MappedOf(a: Answers, k: Kind): ValidAddress {
    if k in a && a[k].reply.mapped.Some? then a[k].reply.mapped.value else ZERO_ADDRESS
  }

  predicate Direct(a: Answers) {
    Binding in a && a[Binding].local == MappedOf(a, Binding)
  }

  predicate HasOther(a: Answers) {
    Binding in a && a[Binding].reply.other.Some?
  }

  function OtherOf(a: Answers): ValidAddress {
    if HasOther(a) then a[Binding].reply.other.value else ZERO_ADDRESS
  }

  /** Whether a test has reason to run, given the responses to those before it. */
  predicate Runnable(k: Kind, a: Answers) {
    match k
    case Binding => true
    case Behavior2 => HasOther(a) && !Direct(a)
    case Behavior3 =>
      && HasOther(a) && !Direct(a)
      && Behavior2 in a && MappedOf(a, Behavior2) != MappedOf(a, Binding) && !MappedOf(a, Behavior2).IsIPAddressZero()
    case Filtering2 => HasOther(a) && !Direct(a)
    case Filtering3 => HasOther(a) && !Direct(a) && Filtering2 !in a
  }

  predicate Included(c: Config, k: Kind) {
    match k
    case Binding => true
    case Behavior2 => c.behaviorTest
    case Behavior3 => c.behaviorTest
    case _ => c.filteringTest
  }

  /** Where a test is in the list. */
  function Position(c: Config, k: Kind): (i: nat)
    ensures Included(c, k) ==> i < |Kinds(c)| && Kinds(c)[i] == k
  {
    match k
    case Binding => 0
    case Behavior2 => 1
    case Behavior3 => 2
    case Filtering2 => if c.behaviorTest then 3 else 1
    case Filtering3 => if c.behaviorTest then 4 else 2
  }

  /** The mapping class, once so many tests are over. */
  function BehaviorVerdict(c: Config, a: Answers, over: nat): NatBehavior {
    if c.behaviorTest && over > 1 && Direct(a) then DirectMapping
    else if Behavior2 !in a then UnknownBehavior
    else if MappedOf(a, Behavior2) == MappedOf(a, Binding) then EndpointIndependentMapping
    else if Behavior3 !in a then UnknownBehavior
    else if MappedOf(a, Behavior3) == MappedOf(a, Behavior2) then AddressDependentMapping
    else AddressAndPortDependentMapping
  }

  function FilteringVerdict(c: Config, a: Answers, over: nat): NatFiltering {
    if c.filteringTest && over > Position(c, Filtering2) && Direct(a) then EndpointIndependentFiltering
    else if Filtering2 in a then EndpointIndependentFiltering
    else if Filtering3 in a then AddressDependentFiltering
    else if c.filteringTest && over > Position(c, Filtering3) && Runnable(Filtering3, a)
    then AddressAndPortDependentFiltering
    else UnknownFiltering
  }

  function Summary(c: Config, a: Answers, over: nat): Results {
    Results(
      Binding in a,
      Direct(a),
      if Binding in a then a[Binding].local else ZERO_ADDRESS,
      MappedOf(a, Binding),
      HasOther(a),
      if HasOther(a) then c.addrServer.SetPort(OtherOf(a).GetPort()) else ZERO_ADDRESS,
      if HasOther(a) then OtherOf(a).SetPort(c.addrServer.GetPort()) else ZERO_ADDRESS,
      OtherOf(a),
      BehaviorVerdict(c, a, over) != UnknownBehavior,
      BehaviorVerdict(c, a, over),
      MappedOf(a, Behavior2),
      MappedOf(a, Behavior3),
      FilteringVerdict(c, a, over) != UnknownFiltering,
      FilteringVerdict(c, a, over),
      Filtering2 in a,
      Filtering3 in a)
  }

  // ---- the invariant ----------------------------------------------------------------------

  /** How many tests are over. */
  function Over(s: State): nat {
    if !Done(s) && Current(s).completed then s.index + 1 else s.index
  }

  ghost predicate Listed(s: State) {
    && |s.tests| == |Kinds(s.config)| && s.index <= |s.tests|
    && (forall i :: 0 <= i < |s.tests| ==> s.tests[i].kind == Kinds(s.config)[i])
    && (forall i :: s.index < i < |s.tests| ==> !s.tests[i].completed)
  }

  /** Only tests that are over have taken a response, and only those that had reason to run. */
  ghost predicate TakenBefore(c: Config, a: Answers, over: nat) {
    forall k <- a :: Included(c, k) && Position(c, k) < over && Usable(k, a[k].reply) && Runnable(k, a)
  }

  /** The invariant, sealed: compared with true so that it is handed on as a whole, and
      opened by those who need its parts. */
  ghost predicate Sound(s: State, a: Answers) {
    SealedSound(s, a) == true
  }

  ghost predicate SealedSound(s: State, a: Answers) {
    forall u: RunSeal {:trigger Opened(u)} :: Opened(u) ==> SoundParts(s, a)
  }

  /** Seals what holds between calls. */
  datatype RunSeal = RunSeal

  ghost predicate SoundParts(s: State, a: Answers) {
    && Listed(s)
    && TakenBefore(s.config, a, Over(s))
    && s.results == Summary(s.config, a, Over(s))
    && (!Done(s) && !Current(s).completed && s.preCheckRun ==> !SettledEarly(Current(s).kind, s.results))
    && (!Done(s) && Current(s).completed && !s.preCheckRun ==> s.index == 0)
  }

  /** Between calls, the current test is over, or it is one that has reason to run. */
  predicate Poised(s: State) {
    !Done(s) && !Current(s).completed ==>
      IsReadyToRun(Current(s), s.results) && (s.preCheckRun || s.index == 0)
  }

  lemma KindAt(c: Config, i: nat)
    requires i < |Kinds(c)|
    ensures Included(c, Kinds(c)[i]) && Position(c, Kinds(c)[i]) == i
  {}

  lemma StartSound(c: Config)
    ensures Sound(Start(c), map[]) && Poised(Start(c))
  {
    assert Opened(RunSeal);
  }

  /** A test that was not settled early is ready just if it has reason to run. */
  lemma ReadyIsRunnable(c: Config, a: Answers, k: Kind)
    requires Included(c, k) && TakenBefore(c, a, Position(c, k))
    requires !SettledEarly(k, Summary(c, a, Position(c, k)))
    ensures IsReadyToRun(Test(k, false, ZERO_ID), Summary(c, a, Position(c, k))) <==> Runnable(k, a)
  {}

  /** What each way of being over without a response does to the results. */
  lemma EarlySummary(c: Config, a: Answers, k: Kind)
    requires Included(c, k) && TakenBefore(c, a, Position(c, k))
    requires SettledEarly(k, Summary(c, a, Position(c, k)))
    ensures EarlyResults(k, Summary(c, a, Position(c, k))) == Summary(c, a, Position(c, k) + 1)
  {}

  lemma SkipSummary(c: Config, a: Answers, k: Kind)
    requires Included(c, k) && TakenBefore(c, a, Position(c, k))
    requires !SettledEarly(k, Summary(c, a, Position(c, k))) && !Runnable(k, a)
    ensures Summary(c, a, Position(c, k)) == Summary(c, a, Position(c, k) + 1)
  {}

  lemma TimeOutSummary(c: Config, a: Answers, k: Kind)
    requires Included(c, k) && TakenBefore(c, a, Position(c, k))
    requires !SettledEarly(k, Summary(c, a, Position(c, k))) && Runnable(k, a)
    ensures TimeoutResults(k, Summary(c, a, Position(c, k))) == Summary(c, a, Position(c, k) + 1)
  {}

  lemma PreCheckSound(s: State, a: Answers)
    requires Sound(s, a) && !Done(s)
    ensures Sound(PreChecked(s), a)
  {
    assert Opened(RunSeal);
    KindAt(s.config, s.index);
    if !s.preCheckRun && SettledEarly(Current(s).kind, s.results) {
      CompleteListed(s, PreChecked(s).results);
      EarlySummary(s.config, a, Current(s).kind);
    }
  }

  lemma AdvanceSound(p: State, a: Answers)
    requires Sound(p, a) && !Done(p) && p.preCheckRun
    requires Current(p).completed || !IsReadyToRun(Current(p), p.results)
    ensures Sound(Advance(p), a)
  {
    assert Opened(RunSeal);
    KindAt(p.config, p.index);
    if !Current(p).completed {
      ReadyIsRunnable(p.config, a, Current(p).kind);
      SkipSummary(p.config, a, Current(p).kind);
    }
  }

  lemma TimeOutSound(p: State, a: Answers)
    requires Sound(p, a) && !Done(p) && p.preCheckRun && IsReadyToRun(Current(p), p.results)
    ensures Sound(TimeOut(p), a)
  {
    assert Opened(RunSeal);
    KindAt(p.config, p.index);
    CompleteListed(p, TimeOut(p).results);
    ReadyIsRunnable(p.config, a, Current(p).kind);
    TimeOutSummary(p.config, a, Current(p).kind);
  }

  lemma SentSound(p: State, a: Answers, now: Tick, entropy: Entropy)
    requires Sound(p, a) && !Done(p) && p.preCheckRun && IsReadyToRun(Current(p), p.results)
    ensures Sound(Sent(p, now, entropy), a) && Poised(Sent(p, now, entropy))
  {
    assert Opened(RunSeal);
    SentListed(p, now, entropy);
  }

  lemma SentListed(p: State, now: Tick, entropy: Entropy)
    requires Listed(p) && !Done(p)
    ensures var t := Sent(p, now, entropy);
      && Listed(t) && !Done(t) && Over(t) == Over(p)
      && Current(t).kind == Current(p).kind && Current(t).completed == Current(p).completed
  {}

  /** What a test does with its response is just what the summary makes of it. */
  lemma ReplySummary(c: Config, a: Answers, k: Kind, y: Response, local: ValidAddress)
    requires Included(c, k) && Usable(k, y)
    requires TakenBefore(c, a, Position(c, k))
    requires Runnable(k, a)
    ensures ReplyResults(k, c, Summary(c, a, Position(c, k)), y, local)
         == Summary(c, a[k := Taking(y, local)], Position(c, k) + 1)
  {
    match k {
      case Binding => FirstReplySummary(c, a, y, local);
      case Behavior2 => SameIsEqual(y.mapped.value, MappedOf(a, Binding));
      case Behavior3 => SameIsEqual(y.mapped.value, MappedOf(a, Behavior2));
      case _ => FilteringReplySummary(c, a, k, y, local);
    }
  }

  lemma FilteringReplySummary(c: Config, a: Answers, k: Kind, y: Response, local: ValidAddress)
    requires Included(c, k) && k in {Filtering2, Filtering3}
    requires TakenBefore(c, a, Position(c, k)) && Runnable(k, a)
    ensures ReplyResults(k, c, Summary(c, a, Position(c, k)), y, local)
         == Summary(c, a[k := Taking(y, local)], Position(c, k) + 1)
  {}

  lemma FirstReplySummary(c: Config, a: Answers, y: Response, local: ValidAddress)
    requires TakenBefore(c, a, 0) && y.mapped.Some?
    ensures ReplyResults(Binding, c, Summary(c, a, 0), y, local) == Summary(c, a[Binding := Taking(y, local)], 1)
  {
    SameIsEqual(local, y.mapped.value);
  }

  lemma TakenMore(c: Config, a: Answers, k: Kind, taking: Taking)
    requires TakenBefore(c, a, Position(c, k)) && Included(c, k) && Usable(k, taking.reply) && Runnable(k, a)
    ensures TakenBefore(c, a[k := taking], Position(c, k) + 1)
  {}

  /** A response that is taken changes the results just as the summary says. */
  lemma TakenSound(s: State, a: Answers, bytes: seq<byte>, local: ValidAddress)
    requires Sound(s, a) && Poised(s) && Taken(s, bytes).Some?
    ensures Sound(Respond(s, bytes, local), a[Current(s).kind := Taking(Taken(s, bytes).value, local)])
  {
    assert Opened(RunSeal);
    KindAt(s.config, s.index);
    ReadyIsRunnable(s.config, a, Current(s).kind);
    ReplySummary(s.config, a, Current(s).kind, Taken(s, bytes).value, local);
    CompleteListed(s, Respond(s, bytes, local).results);
    TakenMore(s.config, a, Current(s).kind, Taking(Taken(s, bytes).value, local));
  }

  lemma CompleteListed(s: State, r: Results)
    requires Listed(s) && !Done(s)
    ensures var t := Complete(s).(results := r);
      Listed(t) && !Done(t) && Current(t).completed && Over(t) == s.index + 1
  {}

  lemma StepSound(p: State, a: Answers, now: Tick, entropy: Entropy)
    requires Sound(p, a) && !Done(p) && p.preCheckRun
    ensures var r := Step(p, now, entropy); Sound(r.0, a) && (r.1.Some? ==> Poised(r.0) && !Done(r.0))
  {
    assert Opened(RunSeal);
    if Current(p).completed || !IsReadyToRun(Current(p), p.results) {
      AdvanceSound(p, a);
    } else if Waiting(p, now) {
    } else if p.sendCount >= p.config.maxAttempts {
      TimeOutSound(p, a);
    } else {
      SentSound(p, a, now, entropy);
    }
  }

  lemma {:induction false} NextSound(s: State, a: Answers, now: Tick, entropy: Entropy)
    requires Sound(s, a)
    ensures var r := Next(s, now, entropy);
      Sound(r.0, a) && Poised(r.0) && (r.1 == ResultsReady <==> Done(r.0))
    decreases Remaining(s)
  {
    if !Done(s) {
      PreCheckSound(s, a);
      StepSound(PreChecked(s), a, now, entropy);
      TurnProgress(s, now, entropy);
      var r := Step(PreChecked(s), now, entropy);
      if r.1.None? {
        NextSound(r.0, a, now, entropy);
      }
    }
  }

  lemma {:induction false} NextConfig(s: State, now: Tick, entropy: Entropy)
    ensures Next(s, now, entropy).0.config == s.config
    decreases Remaining(s)
  {
    TurnProgress(s, now, entropy);
    var r := Turn(s, now, entropy);
    if r.1.None? {
      NextConfig(r.0, now, entropy);
    }
  }

  ghost predicate RunOk(c: Config, h: History) {
    && Sound(h.state, h.taken) && Poised(h.state)
    && h.state.config == Normalized(c) && Kinds(h.state.config) == Kinds(c)
    && (Done(h.state) <==> h.answer == Some(ResultsReady))
  }

  lemma AskSound(c: Config, h: History, now: Tick, entropy: Entropy)
    requires RunOk(c, h)
    ensures RunOk(c, After(h, Ask(now, entropy)))
  {
    assert Opened(RunSeal);
    NextSound(h.state, h.taken, now, entropy);
    NextConfig(h.state, now, entropy);
  }

  lemma GotSound(c: Config, h: History, bytes: seq<byte>, local: ValidAddress)
    requires RunOk(c, h)
    ensures RunOk(c, After(h, Got(bytes, local)))
  {
    assert Opened(RunSeal);
    if Taken(h.state, bytes).Some? {
      TakenSound(h.state, h.taken, bytes, local);
    }
  }

  /** The invariant, over every run. */
  lemma {:induction false} RunSound(c: Config, events: seq<Event>)
    ensures RunOk(c, Run(c, events))
    decreases |events|
  {
    if events == [] {
      StartSound(c);
    } else {
      var before := events[..|events| - 1];
      RunSound(c, before);
      match events[|events| - 1] {
        case Ask(now, entropy) => AskSound(c, Run(c, before), now, entropy);
        case Got(bytes, local) => GotSound(c, Run(c, before), bytes, local);
      }
    }
  }

  /** When the results are ready they are the summary of the responses taken. */
  lemma ResultsAre(c: Config, events: seq<Event>)
    requires Run(c, events).answer == Some(ResultsReady)
    ensures var h := Run(c, events);
      && h.state.results == Summary(Normalized(c), h.taken, |Kinds(c)|)
      && TakenBefore(Normalized(c), h.taken, |Kinds(c)|)
  {
    RunSound(c, events);
    AtEnd(Run(c, events).state, Run(c, events).taken);
  }

  lemma AtEnd(s: State, a: Answers)
    requires Sound(s, a) && Done(s)
    ensures Over(s) == |Kinds(s.config)| && TakenBefore(s.config, a, Over(s))
    ensures s.results == Summary(s.config, a, Over(s))
  {
    assert Opened(RunSeal);
  }

  /** Once the results are ready they stay as they are, whatever is called. */
  lemma ReadyIsFinal(c: Config, events: seq<Event>, e: Event)
    requires Run(c, events).answer == Some(ResultsReady)
    ensures var h, g := Run(c, events), Run(c, events + [e]);
      g.state == h.state && g.answer == h.answer && g.sent == h.sent && g.taken == h.taken
  {
    RunSound(c, events);
    assert (events + [e])[..|events|] == events;
  }

  // ---- which tests send ---------------------------------------------------------------------

  /** Of the tests that are over, just those that had reason to run have sent a request. The
      first one may be over without: before it has chosen an id it takes a response with
      an id of zeros. */
  ghost predicate Asked(s: State, a: Answers, requested: set<Kind>) {
    && (forall k <- requested :: Included(s.config, k) && Position(s.config, k) <= s.index && Runnable(k, a))
    && (forall k: Kind :: k != Binding && Included(s.config, k) && Position(s.config, k) < Over(s) && Runnable(k, a)
          ==> k in requested)
    && (!Done(s) && s.sendCount > 0 ==> Current(s).kind in requested)
    && (!Done(s) && Current(s).kind in requested ==> s.preCheckRun)
    && s.config.maxAttempts >= 1
  }

  lemma PreCheckAsked(s: State, a: Answers, requested: set<Kind>)
    requires Sound(s, a) && Asked(s, a, requested) && !Done(s)
    ensures Asked(PreChecked(s), a, requested)
  {
    assert Opened(RunSeal);
    KindAt(s.config, s.index);
  }

  lemma AdvanceAsked(p: State, a: Answers, requested: set<Kind>)
    requires Listed(p) && Asked(p, a, requested) && !Done(p)
    requires Current(p).completed || !Runnable(Current(p).kind, a)
    ensures Asked(Advance(p), a, requested)
  {
    KindAt(p.config, p.index);
    if p.index + 1 < |p.tests| {
      KindAt(p.config, p.index + 1);
    }
  }

  lemma TimeOutAsked(p: State, a: Answers, requested: set<Kind>)
    requires Sound(p, a) && Asked(p, a, requested) && !Done(p) && p.preCheckRun && p.sendCount > 0
    ensures Asked(TimeOut(p), a, requested)
  {
    assert Opened(RunSeal);
    KindAt(p.config, p.index);
  }

  lemma SentAsked(p: State, a: Answers, requested: set<Kind>, now: Tick, entropy: Entropy)
    requires Sound(p, a) && Asked(p, a, requested)
    requires !Done(p) && p.preCheckRun && IsReadyToRun(Current(p), p.results)
    ensures Asked(Sent(p, now, entropy), a, requested + {Current(p).kind})
  {
    assert Opened(RunSeal);
    KindAt(p.config, p.index);
    ReadyIsRunnable(p.config, a, Current(p).kind);
  }

  lemma StepAsked(p: State, a: Answers, requested: set<Kind>, now: Tick, entropy: Entropy)
    requires Sound(p, a) && Asked(p, a, requested) && !Done(p) && p.preCheckRun
    ensures var r := Step(p, now, entropy); Asked(r.0, a, Requested(requested, r.1))
    ensures var r := Step(p, now, entropy);
      r.1.Some? && !Done(r.0) ==> Current(r.0).kind in Requested(requested, r.1)
  {
    assert Opened(RunSeal);
    KindAt(p.config, p.index);
    if Current(p).completed || !IsReadyToRun(Current(p), p.results) {
      if !Current(p).completed {
        ReadyIsRunnable(p.config, a, Current(p).kind);
      }
      AdvanceAsked(p, a, requested);
    } else if Waiting(p, now) {
    } else if p.sendCount >= p.config.maxAttempts {
      TimeOutAsked(p, a, requested);
    } else {
      SentAsked(p, a, requested, now, entropy);
    }
  }

  lemma {:induction false} NextAsked(s: State, a: Answers, requested: set<Kind>, now: Tick, entropy: Entropy)
    requires Sound(s, a) && Asked(s, a, requested)
    ensures var r := Next(s, now, entropy);
      && Asked(r.0, a, Requested(requested, Some(r.1)))
      && (!Done(r.0) ==> Current(r.0).kind in Requested(requested, Some(r.1)))
    decreases Remaining(s)
  {
    assert Opened(RunSeal);
    if !Done(s) {
      PreCheckSound(s, a);
      PreCheckAsked(s, a, requested);
      StepSound(PreChecked(s), a, now, entropy);
      StepAsked(PreChecked(s), a, requested, now, entropy);
      TurnProgress(s, now, entropy);
      var r := Step(PreChecked(s), now, entropy);
      if r.1.None? {
        NextAsked(r.0, a, requested, now, entropy);
      }
    }
  }

  ghost predicate RequestsOk(h: History) {
    && Asked(h.state, h.taken, h.requested)
    && (!Done(h.state) && h.state.index > 0 ==> Current(h.state).kind in h.requested)
  }

  lemma GotRequests(c: Config, h: History, bytes: seq<byte>, local: ValidAddress)
    requires RunOk(c, h) && RequestsOk(h)
    ensures RequestsOk(After(h, Got(bytes, local)))
  {
    assert Opened(RunSeal);
    if Taken(h.state, bytes).Some? {
      var taking := Taking(Taken(h.state, bytes).value, local);
      TakenAsked(h.state, h.taken, h.requested, Respond(h.state, bytes, local).results, taking);
    }
  }

  /** Between calls, every test but the first that is reached has sent a request if it had
      reason to. */
  lemma {:induction false} RunRequests(c: Config, events: seq<Event>)
    ensures RequestsOk(Run(c, events))
    decreases |events|
  {
    if events != [] {
      var before := events[..|events| - 1];
      RunRequests(c, before);
      RunSound(c, before);
      var h := Run(c, before);
      match events[|events| - 1] {
        case Ask(now, entropy) => NextAsked(h.state, h.taken, h.requested, now, entropy);
        case Got(bytes, local) => GotRequests(c, h, bytes, local);
      }
    }
  }

  /** What a test took does not matter to it and to those before it. */
  lemma RunnableStays(c: Config, a: Answers, k: Kind, taking: Taking, j: Kind)
    requires Included(c, k) && Included(c, j) && Position(c, j) <= Position(c, k)
    ensures Runnable(j, a[k := taking]) == Runnable(j, a)
  {}

  lemma TakenAsked(s: State, a: Answers, requested: set<Kind>, r: Results, taking: Taking)
    requires Listed(s) && !Done(s) && Asked(s, a, requested)
    requires s.index > 0 ==> Current(s).kind in requested
    ensures Asked(Complete(s).(results := r), a[Current(s).kind := taking], requested)
  {
    KindAt(s.config, s.index);
    CompleteListed(s, r);
    var k := Current(s).kind;
    forall j: Kind | Included(s.config, j) && Position(s.config, j) <= s.index
      ensures Runnable(j, a[k := taking]) == Runnable(j, a)
    {
      RunnableStays(s.config, a, k, taking, j);
    }
  }

  // ---- what is sent ----------------------------------------------------------------------

  lemma {:induction false} NextMoves(s: State, now: Tick, entropy: Entropy)
    ensures var r := Next(s, now, entropy);
      && r.0.index >= s.index
      && (!Done(s) && Current(s).completed ==> r.0.index > s.index)
    decreases Remaining(s)
  {
    TurnProgress(s, now, entropy);
    var r := Turn(s, now, entropy);
    if r.1.None? {
      NextMoves(r.0, now, entropy);
    }
  }

  /** A request is that of the current test, with the id that this test expects back; one
      that repeats a request carries the same id and comes after the timeout. */
  lemma {:induction false} SendDescribed(s: State, now: Tick, entropy: Entropy)
    requires Next(s, now, entropy).1.Send?
    ensures var r := Next(s, now, entropy);
      && !Done(r.0) && Current(r.0) == Test(r.1.kind, false, r.1.id) && r.1.id != ZERO_ID
      && r.1.dest == Target(r.1.kind, r.0.config, r.0.results)
      && (r.0.index == s.index && s.sendCount > 0 && Current(s).transid != ZERO_ID ==>
            r.1.id == Current(s).transid && Elapsed(now, s.timeLastSent) >= s.config.timeoutSeconds)
    decreases Remaining(s)
  {
    TurnProgress(s, now, entropy);
    var r := Turn(s, now, entropy);
    if r.1.None? {
      SendDescribed(r.0, now, entropy);
      NextMoves(r.0, now, entropy);
    }
  }

  // ---- how much is sent, and how soon it ends ---------------------------------------------

  ghost predicate Frugal(s: State) {
    s.sendCount <= s.config.maxAttempts && s.index <= |s.tests| && (Done(s) ==> s.sendCount == 0)
  }

  function Spent(s: State): nat {
    s.config.maxAttempts * s.index + s.sendCount
  }

  lemma SpentBound(s: State)
    requires Frugal(s)
    ensures Spent(s) <= s.config.maxAttempts * |s.tests|
  {
    if !Done(s) {
      Times(s.config.maxAttempts, s.index + 1, |s.tests|);
      OneMoreTest(s.config.maxAttempts, s.index);
    }
  }

  lemma Times(n: nat, i: nat, j: nat)
    requires i <= j
    ensures n * i <= n * j
  {}

  lemma OneMoreTest(n: nat, i: nat)
    ensures n * (i + 1) == n * i + n
  {}

  lemma TurnSpends(s: State, now: Tick, entropy: Entropy)
    requires Frugal(s)
    ensures var r := Turn(s, now, entropy);
      && Frugal(r.0) && |r.0.tests| == |s.tests| && r.0.config == s.config
      && Spent(r.0) >= Spent(s) + SentBy(r.1)
  {
    OneMoreTest(s.config.maxAttempts, s.index);
  }

  lemma {:induction false} NextSpends(s: State, now: Tick, entropy: Entropy)
    requires Frugal(s)
    ensures var r := Next(s, now, entropy);
      && Frugal(r.0) && |r.0.tests| == |s.tests| && r.0.config == s.config
      && Spent(r.0) >= Spent(s) + SentBy(Some(r.1))
    decreases Remaining(s)
  {
    TurnSpends(s, now, entropy);
    TurnProgress(s, now, entropy);
    var r := Turn(s, now, entropy);
    if r.1.None? {
      NextSpends(r.0, now, entropy);
    }
  }

  lemma {:induction false} RunSpends(c: Config, events: seq<Event>)
    ensures var h := Run(c, events);
      && Frugal(h.state) && |h.state.tests| == |Kinds(c)| && h.state.config == Normalized(c)
      && h.sent <= Spent(h.state)
    decreases |events|
  {
    if events != [] {
      var before, e := events[..|events| - 1], events[|events| - 1];
      RunSpends(c, before);
      if e.Ask? {
        NextSpends(Run(c, before).state, e.now, e.entropy);
      }
    }
  }

  /** No run sends more than the allowed number of attempts for each test; two attempts
      where none are configured, and two tests for each group besides the first. */
  lemma SendsBounded(c: Config, events: seq<Event>)
    ensures |Kinds(c)| == 1 + (if c.behaviorTest then 2 else 0) + (if c.filteringTest then 2 else 0)
    ensures Run(c, events).sent <= (if c.maxAttempts == 0 then 2 else c.maxAttempts) * |Kinds(c)|
  {
    RunSpends(c, events);
    SpentBound(Run(c, events).state);
  }

  /** The client keeps its configuration, with the defaults filled in, over every run. */
  lemma RunConfig(c: Config, events: seq<Event>)
    ensures Run(c, events).state.config == Normalized(c)
  {
    RunSound(c, events);
  }

  /** In a client so configured, a call that repeats a request comes no sooner than the timeout;
      three seconds where none is configured, and at once where it is to be instant. */
  lemma RepeatsAfterTimeout(c: Config, s: State, now: Tick, entropy: Entropy)
    requires s.config == Normalized(c) && Next(s, now, entropy).1.Send?
    ensures var r := Next(s, now, entropy);
      r.0.index == s.index && s.sendCount > 0 && !Done(s) && Current(s).transid != ZERO_ID ==>
        && r.1.id == Current(s).transid
        && (now - s.timeLastSent) % 0x1_0000_0000 / 1000 >=
             if c.timeoutIsInstant then 0 else if c.timeoutSeconds == 0 then 3 else c.timeoutSeconds
  {
    SendDescribed(s, now, entropy);
  }

  /** While a test waits for its response, a call answers so just until the timeout is over. */
  lemma WaitsExactly(c: Config, s: State, now: Tick, entropy: Entropy)
    requires s.config == Normalized(c)
    requires !Done(s) && s.preCheckRun && IsReadyToRun(Current(s), s.results) && s.sendCount > 0
    ensures Next(s, now, entropy) == (s, StillWaiting) <==>
      (now - s.timeLastSent) % 0x1_0000_0000 / 1000 <
        if c.timeoutIsInstant then 0 else if c.timeoutSeconds == 0 then 3 else c.timeoutSeconds
  {
    if Elapsed(now, s.timeLastSent) >= s.config.timeoutSeconds {
      NextDoesNotWait(s, now, entropy);
    }
  }

  /** A caller that asks again only when the timeout has passed since the last request. */
  ghost predicate Patient(c: Config, events: seq<Event>) {
    events == [] || (
      var before, e := events[..|events| - 1], events[|events| - 1];
      && Patient(c, before)
      && (e.Ask? ==> Elapsed(e.now, Run(c, before).state.timeLastSent) >= Normalized(c).timeoutSeconds))
  }

  /** With an instant timeout every caller is patient. */
  lemma {:induction false} InstantIsPatient(c: Config, events: seq<Event>)
    requires c.timeoutIsInstant
    ensures Patient(c, events)
    decreases |events|
  {
    if events != [] {
      InstantIsPatient(c, events[..|events| - 1]);
    }
  }

  lemma {:induction false} NextDoesNotWait(s: State, now: Tick, entropy: Entropy)
    requires s.sendCount == 0 || Elapsed(now, s.timeLastSent) >= s.config.timeoutSeconds
    ensures Next(s, now, entropy).1 != StillWaiting
    decreases Remaining(s)
  {
    TurnProgress(s, now, entropy);
    var r := Turn(s, now, entropy);
    if r.1.None? {
      NextDoesNotWait(r.0, now, entropy);
    }
  }

  lemma {:induction false} PatientSends(c: Config, events: seq<Event>)
    requires Patient(c, events)
    ensures var h := Run(c, events); h.answer == Some(ResultsReady) || h.calls == h.sent
    decreases |events|
  {
    if events != [] {
      var before, e := events[..|events| - 1], events[|events| - 1];
      PatientSends(c, before);
      RunSound(c, before);
      RunSound(c, events);
      if e.Ask? {
        NextDoesNotWait(Run(c, before).state, e.now, e.entropy);
      }
    }
  }

  /** One call more than there can be requests, and the results are ready, whatever arrives. */
  lemma ResultsInTime(c: Config, events: seq<Event>)
    requires Patient(c, events)
    requires Run(c, events).calls > Normalized(c).maxAttempts * |Kinds(c)|
    ensures Run(c, events).answer == Some(ResultsReady)
  {
    PatientSends(c, events);
    SendsBounded(c, events);
  }
}
