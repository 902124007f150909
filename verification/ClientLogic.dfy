/** CStunClientLogic and its tests: objects that share the results and take turns. */
module ClientLogic {
  import opened Bytes
  import opened StunFormat
  import opened StunMessage
  import opened StunQuery
  import opened SocketAddress
  import opened DataStream
  import opened StunReader
  import opened StunBuilder
  import opened ClientSpec
  import HandlerSpec

  /** The results, as the tests share them. */
  class ResultsCell {
    var value: Results

    constructor ()
      ensures value == NO_RESULTS
    {
      value := NO_RESULTS;
    }
  }

  class ClientTest {
    const kind: Kind
    const config: Config
    const results: ResultsCell
    var completed: bool
    var transid: TransId

    ghost function Value(): Test
      reads this
    {
      Test(kind, completed, transid)
    }

    /** The test has this value, and shares these. */
    ghost predicate Is(v: Test, c: Config, r: ResultsCell)
      reads this
    {
      Value() == v && config == c && results == r
    }

    constructor (kind: Kind, config: Config, results: ResultsCell)
      ensures Value() == Test(kind, false, ZERO_ID) && this.config == config && this.results == results
    {
      this.kind, this.config, this.results := kind, config, results;
      completed, transid := false, ZERO_ID;
    }

    method PreRunCheck()
      modifies this`completed, results
      ensures var early := SettledEarly(kind, old(results.value));
        && Value() == (if early then old(Value()).(completed := true) else old(Value()))
        && results.value == (if early then EarlyResults(kind, old(results.value)) else old(results.value))
    {
      if kind == Behavior2 {
        if results.value.bindingTestSuccess && results.value.isDirect {
          completed := true;
          results.value := results.value.(behavior := DirectMapping, behaviorTestSuccess := true);
        }
      } else if kind == Filtering2 {
        if results.value.bindingTestSuccess && results.value.isDirect {
          completed := true;
          results.value := results.value.(filtering := EndpointIndependentFiltering, filteringTestSuccess := true);
        }
      }
    }

    /** Writes the request into the caller's buffer. */
    method GetMessage(buffer: Buffer, entropy: Entropy) returns (dest: ValidAddress)
      requires buffer.size <= buffer.data.Length && buffer.data.Length >= MAX_MESSAGE_SIZE
      modifies this`transid, buffer, buffer.data
      ensures Value() == old(Value()).(transid := RequestId(old(Value()), entropy))
      ensures buffer.data == old(buffer.data) && buffer.size <= buffer.data.Length
      ensures buffer.data[..buffer.size] == Finished(RequestMessage(kind, transid))
      ensures dest == Target(kind, config, results.value)
    {
      var changeIP := kind == Filtering2;
      var changePort := kind == Filtering2 || kind == Filtering3;
      WriteRequest(buffer, entropy, changeIP, changePort);
      match kind {
        case Behavior2 => dest := results.value.addrAP;
        case Behavior3 => dest := results.value.addrAA;
        case _ => dest := config.addrServer;
      }
    }

    method WriteRequest(buffer: Buffer, entropy: Entropy, changeIP: bool, changePort: bool)
      requires buffer.size <= buffer.data.Length && buffer.data.Length >= MAX_MESSAGE_SIZE
      requires (if changeIP then 4 else 0) + (if changePort then 2 else 0) == ChangeFlags(kind)
      modifies this`transid, buffer, buffer.data
      ensures Value() == old(Value()).(transid := RequestId(old(Value()), entropy))
      ensures buffer.data == old(buffer.data) && buffer.size <= buffer.data.Length
      ensures buffer.data[..buffer.size] == Finished(RequestMessage(kind, transid))
    {
      var builder := new Builder();
      builder.AttachTo(buffer);
      StartBindingRequest(builder, entropy);
      ghost var m := Message(HandlerSpec.BINDING, 0, transid, []);
      ghost var change := Attr(CHANGEREQUEST, Be32(ChangeFlags(kind)));
      MessageAdd(m, 0, change);
      builder.AddChangeRequest(changeIP, changePort);
      assert m.Add(change) == RequestMessage(kind, transid);
      PatchFinishes(RequestMessage(kind, transid), 0);
      var _ := builder.FixLengthField();
    }

    /** The header with the id of this test, which is chosen the first time. */
    method StartBindingRequest(builder: Builder, entropy: Entropy)
      requires builder.Valid() && builder.stream.bytes == [] && !builder.legacyMode
      requires builder.stream.buffer != null && builder.stream.buffer.data.Length >= MAX_MESSAGE_SIZE
      requires this !in builder.stream.Repr
      modifies this`transid, builder, builder.stream.Repr
      ensures Value() == old(Value()).(transid := RequestId(old(Value()), entropy))
      ensures builder.Valid() && !builder.legacyMode
      ensures builder.stream.buffer == old(builder.stream.buffer) && builder.stream.Repr == old(builder.stream.Repr)
      ensures builder.stream.buffer.data == old(builder.stream.buffer.data)
      ensures builder.stream.bytes == MessageBytes(Message(HandlerSpec.BINDING, 0, transid, []), 0)
    {
      builder.AddHeader(HandlerSpec.BINDING, 0);
      if transid != ZERO_ID {
        builder.AddTransactionId(transid);
      } else {
        transid := builder.AddRandomTransactionId(entropy);
      }
    }

    method IsReadyToRun() returns (ready: bool)
      ensures ready == ClientSpec.IsReadyToRun(Value(), results.value)
    {
      var r := results.value;
      match kind {
        case Binding =>
          ready := !completed;
        case Behavior2 =>
          ready := !completed && r.bindingTestSuccess && r.hasOtherAddress && !r.behaviorTestSuccess;
        case Behavior3 =>
          ready := !completed && r.bindingTestSuccess && r.hasOtherAddress && !r.behaviorTestSuccess;
          ready := ready && !r.addrMappingAP.IsIPAddressZero();
        case _ =>
          ready := !completed && r.bindingTestSuccess && r.hasOtherAddress && !r.filteringTestSuccess
                   && !r.gotTest2Response;
      }
    }

    method NotifyTimeout()
      modifies this`completed, results
      ensures Value() == old(Value()).(completed := true)
      ensures results.value == TimeoutResults(kind, old(results.value))
    {
      completed := true;
      match kind {
        case Binding => results.value := results.value.(bindingTestSuccess := false);
        case Behavior2 => results.value := results.value.(behaviorTestSuccess := false);
        case Behavior3 => results.value := results.value.(behaviorTestSuccess := false);
        case Filtering2 =>
        case Filtering3 =>
          results.value := results.value.(filteringTestSuccess := true);
          results.value := results.value.(filtering := AddressAndPortDependentFiltering);
      }
    }

    /** BasicReaderValidation: a valid message with this test's id, of whatever class. */
    method BasicReaderValidation(bytes: seq<byte>) returns (reader: Reader, ok: bool)
      ensures fresh(reader) && reader.Valid()
      ensures ok <==> Read(bytes, transid).Some?
      ensures ok ==> reader.state == BodyValidated && reader.fed == bytes && reader.attrs == AttributesOf(bytes)
    {
      reader := new Reader();
      var readerstate := reader.AddBytes(bytes);
      assert [] + bytes == bytes;
      if readerstate != BodyValidated {
        return reader, false;
      }
      AttributesAre(bytes, reader.attrs);
      ok := reader.transactionid == transid;
    }

    /** The masked address, or else the plain one. */
    method GetMapped(reader: Reader) returns (mapped: Option<ValidAddress>)
      requires reader.Valid() && reader.state == BodyValidated
      ensures Within(reader.fed, reader.attrs) && mapped == ReplyOf(reader.fed, reader.attrs).mapped
    {
      var x := reader.GetXorMappedAddress();
      AddressesValid(reader.fed, reader.attrs);
      if x.Some? {
        return Some(x.value);
      }
      var a := reader.GetAddressHelper(MAPPEDADDRESS);
      mapped := a;
    }

    method ProcessResponse(bytes: seq<byte>, local: ValidAddress) returns (ok: bool)
      modifies this`completed, results
      ensures var y := Read(bytes, transid);
        && (ok <==> y.Some? && Usable(kind, y.value))
        && Value() == (if ok then old(Value()).(completed := true) else old(Value()))
        && results.value == if ok then ReplyResults(kind, config, old(results.value), y.value, local) else old(results.value)
    {
      var reader;
      reader, ok := BasicReaderValidation(bytes);
      if !ok {
        return;
      }
      if kind == Filtering2 || kind == Filtering3 {
        completed := true;
        FilteringResponse();
        return;
      }
      ok := TakeAddresses(reader, local);
    }

    /** A mapping test drops a response without a mapped address. */
    method TakeAddresses(reader: Reader, local: ValidAddress) returns (ok: bool)
      requires reader.Valid() && reader.state == BodyValidated && kind != Filtering2 && kind != Filtering3
      modifies this`completed, results
      ensures Within(reader.fed, reader.attrs)
      ensures var y := ReplyOf(reader.fed, reader.attrs);
        && ok == y.mapped.Some? && completed == (ok || old(completed))
        && results.value == if ok then ReplyResults(kind, config, old(results.value), y, local) else old(results.value)
    {
      var mapped := GetMapped(reader);
      if mapped.None? {
        return false;
      }
      var other := reader.GetOtherAddress();
      AddressesValid(reader.fed, reader.attrs);
      completed := true;
      MappingResponse(mapped.value, other, local);
      return true;
    }

    method FilteringResponse()
      requires kind == Filtering2 || kind == Filtering3
      modifies results
      ensures forall y, local :: results.value == ReplyResults(kind, config, old(results.value), y, local)
    {
      if kind == Filtering3 {
        results.value := results.value.(gotTest3Response := true, filteringTestSuccess := true);
        results.value := results.value.(filtering := AddressDependentFiltering);
      } else {
        results.value := results.value.(gotTest2Response := true, filteringTestSuccess := true);
        results.value := results.value.(filtering := EndpointIndependentFiltering);
      }
    }

    method MappingResponse(addrMapped: ValidAddress, other: Option<ValidAddress>, local: ValidAddress)
      requires kind == Binding || kind == Behavior2 || kind == Behavior3
      modifies results
      ensures results.value == ReplyResults(kind, config, old(results.value), Response(Some(addrMapped), other), local)
    {
      var r := results.value;
      if kind == Binding {
        r := r.(bindingTestSuccess := true, isDirect := local.IsSameIP_and_Port(addrMapped));
        r := r.(addrLocal := local, addrMapped := addrMapped, hasOtherAddress := other.Some?);
        if other.Some? {
          r := r.(addrAA := other.value);
          r := r.(addrPA := config.addrServer.SetPort(other.value.GetPort()));
          r := r.(addrAP := other.value.SetPort(config.addrServer.GetPort()));
        }
      } else if kind == Behavior3 {
        r := r.(addrMappingAA := addrMapped, behaviorTestSuccess := true);
        if addrMapped.IsSameIP_and_Port(r.addrMappingAP) {
          r := r.(behavior := AddressDependentMapping);
        } else {
          r := r.(behavior := AddressAndPortDependentMapping);
        }
      } else {
        r := r.(addrMappingAP := addrMapped);
        if addrMapped.IsSameIP_and_Port(r.addrMapped) {
          r := r.(behaviorTestSuccess := true, behavior := EndpointIndependentMapping);
        }
      }
      results.value := r;
    }
  }

  datatype CallResult = Failed | Answered(answer: Answer)

  class ClientLogic {
    const results: ResultsCell
    var initialized: bool
    var config: Config
    var timeLastMessageSent: Tick
    var sendCount: nat
    var preCheckRunOnTest: bool
    var testlist: seq<ClientTest>
    var nTestIndex: nat

    /** The values of the tests. */
    ghost var tests: seq<Test>

    ghost function S(): State
      reads this, results
    {
      State(config, results.value, tests, nTestIndex, sendCount, preCheckRunOnTest, timeLastMessageSent)
    }

    ghost predicate Valid()
      reads this, results, testlist
    {
      Consistent() && (!initialized ==> results.value == NO_RESULTS && sendCount == 0)
    }

    ghost predicate Consistent()
      reads this, testlist
    {
      && |tests| == |testlist| && nTestIndex <= |testlist|
      && (forall i :: 0 <= i < |testlist| ==> testlist[i].Is(tests[i], config, results))
      && (forall i, j :: 0 <= i < j < |testlist| ==> testlist[i] != testlist[j])
    }

    constructor ()
      ensures Valid() && !initialized && fresh(results)
    {
      results := new ResultsCell();
      initialized := false;
      config := Config(ZERO_ADDRESS, false, 0, 0, false, false);
      timeLastMessageSent, sendCount, preCheckRunOnTest, nTestIndex := 0, 0, false, 0;
      testlist, tests := [], [];
    }

    /** A client is set up once, for a server with an address and a port. */
    method Initialize(c: Config) returns (ok: bool)
      requires Valid()
      modifies this
      ensures Valid()
      ensures ok <==> !old(initialized) && !c.addrServer.IsIPAddressZero() && c.addrServer.GetPort() != 0
      ensures ok ==> initialized && S() == ClientSpec.Start(c) && fresh(testlist)
      ensures !ok ==> initialized == old(initialized) && S() == old(S())
    {
      if initialized {
        return false;
      }
      if c.addrServer.IsIPAddressZero() || c.addrServer.GetPort() == 0 {
        return false;
      }
      initialized := true;
      StoreConfig(c);
      nTestIndex := 0;
      preCheckRunOnTest := false;
      timeLastMessageSent := 0;
      testlist, tests := [], [];
      AddTests();
      return true;
    }

    /** The configuration with its defaults filled in. */
    method StoreConfig(c: Config)
      modifies this`config
      ensures config == Normalized(c)
    {
      config := c;
      if config.timeoutIsInstant {
        config := config.(timeoutSeconds := 0);
      } else if config.timeoutSeconds == 0 {
        config := config.(timeoutSeconds := 3);
      }
      if config.maxAttempts <= 0 {
        config := config.(maxAttempts := 2);
      }
    }

    method AddTests()
      requires Consistent() && testlist == []
      modifies this`testlist, this`tests
      ensures Consistent() && tests == NewTests(Kinds(config)) && fresh(testlist)
    {
      AddTest(Binding);
      if config.behaviorTest {
        AddTest(Behavior2);
        AddTest(Behavior3);
      }
      if config.filteringTest {
        AddTest(Filtering2);
        AddTest(Filtering3);
      }
    }

    method AddTest(kind: Kind)
      requires Consistent()
      modifies this`testlist, this`tests
      ensures Consistent() && tests == old(tests) + [Test(kind, false, ZERO_ID)]
      ensures |testlist| == |old(testlist)| + 1 && testlist[..|old(testlist)|] == old(testlist)
      ensures fresh(testlist[|old(testlist)|])
    {
      var t := new ClientTest(kind, config, results);
      testlist := testlist + [t];
      tests := tests + [Test(kind, false, ZERO_ID)];
    }

    // ---- one turn of the loop in GetNextMessage -------------------------------------------

    method PreCheck()
      requires Valid() && initialized && nTestIndex < |testlist|
      modifies this`tests, this`preCheckRunOnTest, results, testlist
      ensures Valid() && S() == PreChecked(old(S()))
    {
      if !preCheckRunOnTest {
        var current := testlist[nTestIndex];
        assert current.Is(tests[nTestIndex], config, results);
        current.PreRunCheck();
        tests := tests[nTestIndex := current.Value()];
        preCheckRunOnTest := true;
      }
    }

    /** The rest of the turn. A message to send is in the caller's buffer. */
    method DoStep(buffer: Buffer, now: Tick, entropy: Entropy) returns (answer: Option<Answer>)
      requires Valid() && initialized && nTestIndex < |testlist|
      requires buffer.size <= buffer.data.Length && buffer.data.Length >= MAX_MESSAGE_SIZE
      modifies this`tests, this`nTestIndex, this`sendCount, this`preCheckRunOnTest, this`timeLastMessageSent
      modifies results, testlist, buffer, buffer.data
      ensures Valid() && (S(), answer) == Step(old(S()), now, entropy)
      ensures buffer.data == old(buffer.data) && buffer.size <= buffer.data.Length
      ensures answer.Some? && answer.value.Send? ==> Holds(buffer, answer.value)
    {
      var current := testlist[nTestIndex];
      assert current.Is(tests[nTestIndex], config, results);
      var ready := current.IsReadyToRun();
      if current.completed || !ready {
        nTestIndex := nTestIndex + 1;
        sendCount := 0;
        preCheckRunOnTest := false;
        return None;
      }
      var diff := (now - timeLastMessageSent) % TICKS / 1000;
      if diff < config.timeoutSeconds && sendCount != 0 {
        return Some(StillWaiting);
      }
      if sendCount >= config.maxAttempts {
        current.NotifyTimeout();
        tests := tests[nTestIndex := current.Value()];
        return None;
      }
      var send := DoSend(buffer, now, entropy);
      return Some(send);
    }

    method DoSend(buffer: Buffer, now: Tick, entropy: Entropy) returns (send: Answer)
      requires Valid() && initialized && nTestIndex < |testlist|
      requires buffer.size <= buffer.data.Length && buffer.data.Length >= MAX_MESSAGE_SIZE
      modifies this`tests, this`sendCount, this`timeLastMessageSent, testlist, buffer, buffer.data
      ensures Valid() && S() == Sent(old(S()), now, entropy)
      ensures var t := old(Current(S()));
        send == Send(t.kind, RequestId(t, entropy), old(Target(Current(S()).kind, config, results.value)))
      ensures buffer.data == old(buffer.data) && Holds(buffer, send)
    {
      var current := testlist[nTestIndex];
      assert current.Is(tests[nTestIndex], config, results);
      var dest := current.GetMessage(buffer, entropy);
      tests := tests[nTestIndex := current.Value()];
      sendCount := sendCount + 1;
      timeLastMessageSent := now;
      return Send(current.kind, current.transid, dest);
    }

    /** The buffer holds the request of the answer. */
    ghost predicate Holds(buffer: Buffer, answer: Answer)
      requires answer.Send?
      reads buffer, buffer.data
    {
      && buffer.size <= buffer.data.Length
      && buffer.data[..buffer.size] == Finished(RequestMessage(answer.kind, answer.id))
    }

    /** The next request, or the reason why there is none now. */
    method GetNextMessage(buffer: Buffer, now: Tick, entropy: Entropy) returns (result: CallResult)
      requires Valid() && buffer.size <= buffer.data.Length
      modifies this`tests, this`nTestIndex, this`sendCount, this`preCheckRunOnTest, this`timeLastMessageSent
      modifies results, testlist, buffer, buffer.data
      ensures Valid() && buffer.data == old(buffer.data)
      ensures result.Failed? <==> !initialized || buffer.data.Length < MAX_MESSAGE_SIZE
      ensures result.Failed? ==> S() == old(S())
      ensures result.Answered? ==> (S(), result.answer) == Next(old(S()), now, entropy)
      ensures result.Answered? && result.answer.Send? ==> Holds(buffer, result.answer)
    {
      if !initialized || buffer.data.Length < MAX_MESSAGE_SIZE {
        return Failed;
      }
      ghost var s := S();
      var answer: Option<Answer> := None;
      while answer.None?
        invariant Valid() && initialized
        invariant buffer.data == old(buffer.data) && buffer.size <= buffer.data.Length
        invariant answer.None? ==> Next(S(), now, entropy) == Next(s, now, entropy)
        invariant answer.Some? ==> (S(), answer.value) == Next(s, now, entropy)
        invariant answer.Some? && answer.value.Send? ==> Holds(buffer, answer.value)
        decreases answer.None?, Remaining(S())
      {
        TurnProgress(S(), now, entropy);
        answer := TakeTurn(buffer, now, entropy);
      }
      return Answered(answer.value);
    }

    method TakeTurn(buffer: Buffer, now: Tick, entropy: Entropy) returns (answer: Option<Answer>)
      requires Valid() && initialized
      requires buffer.size <= buffer.data.Length && buffer.data.Length >= MAX_MESSAGE_SIZE
      modifies this`tests, this`nTestIndex, this`sendCount, this`preCheckRunOnTest, this`timeLastMessageSent
      modifies results, testlist, buffer, buffer.data
      ensures Valid() && (S(), answer) == Turn(old(S()), now, entropy)
      ensures buffer.data == old(buffer.data) && buffer.size <= buffer.data.Length
      ensures answer.Some? && answer.value.Send? ==> Holds(buffer, answer.value)
    {
      if nTestIndex >= |testlist| {
        return Some(ResultsReady);
      }
      PreCheck();
      answer := DoStep(buffer, now, entropy);
    }

    /** Hands a response to the current test. */
    method ProcessResponse(bytes: seq<byte>, local: ValidAddress) returns (ok: bool)
      requires Valid()
      modifies this`tests, results, testlist
      ensures Valid()
      ensures S() == if initialized then Respond(old(S()), bytes, local) else old(S())
      ensures ok <==> initialized && Taken(old(S()), bytes).Some?
    {
      if !initialized || bytes == [] || nTestIndex >= |testlist| {
        return false;
      }
      var current := testlist[nTestIndex];
      assert current.Is(tests[nTestIndex], config, results);
      if current.completed {
        return false;
      }
      ok := current.ProcessResponse(bytes, local);
      tests := tests[nTestIndex := current.Value()];
    }

    method GetResults() returns (r: Results)
      requires Valid()
      ensures r == S().results
    {
      r := results.value;
    }
  }
}
