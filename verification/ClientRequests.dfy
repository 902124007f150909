/** Which responses answer a request. A test takes a response with the id of its own request;
    but before the first request there is no id, and the first test takes one of zeros.
 */
module ClientRequests {
  import opened Bytes
  import opened StunFormat
  import opened StunMessage
  import opened StunQuery
  import opened SocketAddress
  import opened ClientSpec
  import opened ClientRuns
  import opened Seals
  import HandlerSpec
  import P = HandlerProofs

  /** Nothing but responses has happened. */
  predicate Unasked(events: seq<Event>) {
    forall i :: 0 <= i < |events| ==> events[i].Got?
  }

  /** A valid message with an id of zeros that has one of the three mapped addresses in it. */
  ghost predicate ZeroIdMessage(s: seq<byte>) {
    exists attrs :: Grammar(true, s, attrs) && s[4..HEADER_SIZE] == Zeros(16) && TellsMapped(s, attrs)
  }

  ghost predicate TellsMapped(s: seq<byte>, attrs: seq<StunAttribute>)
    requires Grammar(true, s, attrs)
  {
    GrammarWithin(true, s, attrs);
    || AddressOf(s, attrs, XORMAPPEDADDRESS).Some?
    || AddressOf(s, attrs, XORMAPPEDADDRESS_OPTIONAL).Some?
    || AddressOf(s, attrs, MAPPEDADDRESS).Some?
  }

  /** These are the messages that the first test takes before it has sent. */
  lemma TakenUnasked(c: Config, s: seq<byte>)
    ensures Taken(ClientSpec.Start(c), s).Some? <==> ZeroIdMessage(s)
  {
    if StateAfter(true, s) == BodyValidated {
      var attrs := AttributesOf(s);
      assert ZeroIdMessage(s) ==> s[4..HEADER_SIZE] == Zeros(16) && TellsMapped(s, attrs) by {
        forall other | Grammar(true, s, other) ensures other == attrs {
          AttributesAre(s, other);
        }
      }
    }
  }

  /** Such a message came before the first call of GetNextMessage. */
  ghost predicate TookEarly(events: seq<Event>) {
    exists i :: 0 <= i < |events| && EarlyAt(events, i)
  }

  ghost predicate EarlyAt(events: seq<Event>, i: nat)
    requires i < |events|
  {
    Unasked(events[..i + 1]) && ZeroIdMessage(events[i].bytes)
  }

  lemma EarlyNext(events: seq<Event>)
    requires events != []
    ensures var before, e := events[..|events| - 1], events[|events| - 1];
      && (Unasked(events) <==> Unasked(before) && e.Got?)
      && (TookEarly(events) <==>
            TookEarly(before) || (Unasked(before) && e.Got? && ZeroIdMessage(e.bytes)))
  {
    var before, n := events[..|events| - 1], |events| - 1;
    UnaskedNext(events);
    assert events[..n + 1] == events;
    assert EarlyAt(events, n) <==> Unasked(events) && ZeroIdMessage(events[n].bytes);
    forall i | 0 <= i < n ensures EarlyAt(events, i) == EarlyAt(before, i) {
      assert events[..i + 1] == before[..i + 1];
    }
    TookNext(events);
  }

  lemma UnaskedNext(events: seq<Event>)
    requires events != []
    ensures Unasked(events) <==> Unasked(events[..|events| - 1]) && events[|events| - 1].Got?
  {}

  lemma TookNext(events: seq<Event>)
    requires events != []
    requires var before := events[..|events| - 1];
      forall i :: 0 <= i < |before| ==> EarlyAt(events, i) == EarlyAt(before, i)
    ensures TookEarly(events) <==> TookEarly(events[..|events| - 1]) || EarlyAt(events, |events| - 1)
  {
    var before := events[..|events| - 1];
    if i :| 0 <= i < |before| && EarlyAt(before, i) {
      assert EarlyAt(events, i);
    }
  }

  /** What an early response does, and what holds without one. */
  ghost predicate Accounted(c: Config, events: seq<Event>, h: History) {
    AccountedFor(c, TookEarly(events), Unasked(events), h)
  }

  ghost predicate AccountedFor(c: Config, early: bool, unasked: bool, h: History) {
    && (unasked ==> h.requested == {})
    && (if early then
          && Binding in h.taken && Binding !in h.requested && h.taken.Keys <= h.requested + {Binding}
          && (!Done(h.state) && h.state.index == 0 ==> Current(h.state).completed)
        else
          && h.taken.Keys <= h.requested
          && (if unasked then h.state == ClientSpec.Start(c) else Binding in h.requested))
  }

  lemma FirstAsk(c: Config, now: Tick, entropy: Entropy)
    ensures var r := Next(ClientSpec.Start(c), now, entropy); r.1.Send? && r.1.kind == Binding
  {
    var s := ClientSpec.Start(c);
    assert Turn(s, now, entropy) == Step(PreChecked(s), now, entropy);
  }

  /** Once the first test is over it sends nothing. */
  lemma OverSendsNothing(s: State, a: Answers, now: Tick, entropy: Entropy)
    requires Sound(s, a)
    requires !Done(s) ==> s.index > 0 || Current(s).completed
    ensures var r := Next(s, now, entropy); r.0.index > 0 && (r.1.Send? ==> r.1.kind != Binding)
  {
    assert Opened(RunSeal);
    NextSound(s, a, now, entropy);
    NextMoves(s, now, entropy);
    NextConfig(s, now, entropy);
    var r := Next(s, now, entropy);
    if r.1.Send? {
      SendDescribed(s, now, entropy);
      KindAt(r.0.config, r.0.index);
    }
  }

  lemma AskAccounted(c: Config, h: History, early: bool, unasked: bool, e: Event)
    requires e.Ask? && RunOk(c, h) && AccountedFor(c, early, unasked, h)
    ensures AccountedFor(c, early, false, After(h, e))
  {
    if early {
      OverSendsNothing(h.state, h.taken, e.now, e.entropy);
    } else if unasked {
      FirstAsk(c, e.now, e.entropy);
    }
  }

  lemma GotAccounted(c: Config, h: History, early: bool, unasked: bool, e: Event)
    requires e.Got? && RunOk(c, h) && RequestsOk(h) && AccountedFor(c, early, unasked, h)
    ensures AccountedFor(c, early || (unasked && ZeroIdMessage(e.bytes)), unasked, After(h, e))
  {
    TakenUnasked(c, e.bytes);
    assert Opened(RunSeal);
    if Taken(h.state, e.bytes).Some? {
      KindAt(h.state.config, h.state.index);
    }
  }

  lemma {:induction false} RunAccounted(c: Config, events: seq<Event>)
    ensures Accounted(c, events, Run(c, events))
    decreases |events|
  {
    if events == [] {
      assert Run(c, events) == History(ClientSpec.Start(c), map[], {}, 0, 0, None);
    } else {
      var before, e := events[..|events| - 1], events[|events| - 1];
      RunAccounted(c, before);
      RunSound(c, before);
      RunRequests(c, before);
      EarlyNext(events);
      if e.Ask? {
        AskAccounted(c, Run(c, before), TookEarly(before), Unasked(before), e);
      } else {
        GotAccounted(c, Run(c, before), TookEarly(before), Unasked(before), e);
      }
    }
  }

  /** In every run, each response taken answers a request of the test that takes it, if and
      only if no message with an id of zeros and a mapped address came before the first call
      of GetNextMessage; otherwise it is the first test's response, and that one alone, that
      answers nothing. The first test has sent just if there was a call, and no such message
      before it. */
  lemma ResponsesAnswerRequests(c: Config, events: seq<Event>)
    ensures var h := Run(c, events);
      && (h.taken.Keys <= h.requested <==> !TookEarly(events))
      && (TookEarly(events) ==> h.taken.Keys - h.requested == {Binding})
      && (Binding in h.requested <==> !TookEarly(events) && !Unasked(events))
  {
    RunAccounted(c, events);
  }

  /** A caller that asks for a message first is safe from that. */
  lemma AskingFirstIsSafe(c: Config, events: seq<Event>)
    requires events != [] && events[0].Ask?
    ensures !TookEarly(events)
    ensures Run(c, events).taken.Keys <= Run(c, events).requested && Binding in Run(c, events).requested
  {
    forall i | 0 <= i < |events| ensures !EarlyAt(events, i) {
      assert events[..i + 1][0] == events[0];
    }
    ResponsesAnswerRequests(c, events);
  }

  /** A response that tells one address. */
  function Telling(id: TransId, a: ValidAddress): Message {
    Message(HandlerSpec.BINDING, 2, id, [Attr(MAPPEDADDRESS, AddressValue(a))])
  }

  lemma TellingRead(id: TransId, a: ValidAddress)
    ensures Read(Finished(Telling(id, a)), id) == Some(Response(Some(a), None))
  {
    var m := Telling(id, a);
    P.BodyOne(m.attrs[0]);
    RoundTrip(true, m);
    AttributesAre(Finished(m), Placement(m.attrs));
    AddressRoundTrip(a);
    P.ValueAt(m, 0);
    P.NoValue(m, XORMAPPEDADDRESS);
    P.NoValue(m, XORMAPPEDADDRESS_OPTIONAL);
    P.NoValue(m, OTHER_ADDRESS);
    P.NoValue(m, CHANGEDADDRESS);
  }

  /** A client that has not asked yet takes the address that a response with an id of zeros tells. */
  lemma ZeroIdTaken(c: Config, a: ValidAddress, local: ValidAddress)
    ensures var h := Run(c, [Got(Finished(Telling(ZERO_ID, a)), local)]);
      Binding in h.taken && h.requested == {} && h.state.results.addrMapped == a
  {
    var e := Got(Finished(Telling(ZERO_ID, a)), local);
    TellingRead(ZERO_ID, a);
    assert [e][..0] == [];
    assert Run(c, [e]) == After(Run(c, []), e);
    assert Taken(ClientSpec.Start(c), e.bytes) == Some(Response(Some(a), None));
  }
}
