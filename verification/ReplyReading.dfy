/** Which of several addresses in a response the client takes, for any message a server may
    send it.
 */
module ReplyReading {
  import opened Bytes
  import opened StunFormat
  import opened StunMessage
  import opened StunQuery
  import opened SocketAddress
  import opened ClientSpec
  import I = Integrity

  /** The last attribute of this type has this value. */
  predicate Has(m: Message, t: nat, v: seq<byte>) {
    exists i :: 0 <= i < |m.attrs| && m.attrs[i] == Attr(t, v) && forall j :: i < j < |m.attrs| ==> m.attrs[j].atype != t
  }

  predicate Lacks(m: Message, t: nat) {
    forall i :: 0 <= i < |m.attrs| ==> m.attrs[i].atype != t
  }

  lemma HasRead(m: Message, t: nat, v: seq<byte>)
    requires m.Fits() && Has(m, t, v)
    ensures Within(Finished(m), Placement(m.attrs))
    ensures AttributeValue(Finished(m), Placement(m.attrs), t) == Some(v)
  {
    var i :| 0 <= i < |m.attrs| && m.attrs[i] == Attr(t, v) && forall j :: i < j < |m.attrs| ==> m.attrs[j].atype != t;
    RoundTrip(true, m);
    GrammarWithin(true, Finished(m), Placement(m.attrs));
    I.FindIs(Placement(m.attrs), t, i);
  }

  lemma LacksRead(m: Message, t: nat)
    requires m.Fits() && Lacks(m, t)
    ensures Within(Finished(m), Placement(m.attrs))
    ensures AttributeValue(Finished(m), Placement(m.attrs), t) == None
  {
    RoundTrip(true, m);
    GrammarWithin(true, Finished(m), Placement(m.attrs));
    I.FindIs(Placement(m.attrs), t, -1);
  }

  /** The reading of a finished message is that of its attributes. */
  lemma ReadIs(m: Message)
    requires m.Fits()
    ensures Within(Finished(m), Placement(m.attrs)) && TransactionId(Finished(m)) == m.tid
    ensures Read(Finished(m), m.tid) == Some(ReplyOf(Finished(m), Placement(m.attrs)))
  {
    RoundTrip(true, m);
    AttributesAre(Finished(m), Placement(m.attrs));
  }

  /** No address of this type: there is no attribute, or its value is none. */
  predicate NoAddress(m: Message, t: nat) {
    Lacks(m, t) || exists a <- m.attrs :: Has(m, t, a.value) && DecodeAddress(a.value) == None
  }

  lemma NoAddressRead(m: Message, t: nat)
    requires m.Fits() && NoAddress(m, t)
    ensures Within(Finished(m), Placement(m.attrs)) && AddressOf(Finished(m), Placement(m.attrs), t) == None
  {
    if Lacks(m, t) {
      LacksRead(m, t);
    } else {
      var a :| a in m.attrs && Has(m, t, a.value) && DecodeAddress(a.value) == None;
      HasRead(m, t, a.value);
    }
  }

  lemma AddressRead(m: Message, t: nat, a: ValidAddress)
    requires m.Fits() && Has(m, t, AddressValue(a))
    ensures Within(Finished(m), Placement(m.attrs)) && AddressOf(Finished(m), Placement(m.attrs), t) == Some(a)
  {
    HasRead(m, t, AddressValue(a));
    AddressRoundTrip(a);
  }

  /** The masked address is taken, whatever else the message says: nothing on the way has
      rewritten it. */
  lemma MaskedIsTaken(m: Message, a: ValidAddress)
    requires m.Fits()
    requires Has(m, XORMAPPEDADDRESS, AddressValue(Masked(a, m.tid)))
    ensures Read(Finished(m), m.tid).Some? && Read(Finished(m), m.tid).value.mapped == Some(a)
  {
    ReadIs(m);
    XorMapTwice(a, m.tid);
    AddressRead(m, XORMAPPEDADDRESS, Masked(a, m.tid));
  }

  function Masked(a: ValidAddress, id: TransId): ValidAddress {
    XorMapTwice(a, id);
    a.XorMap(id)
  }

  /** Without it, the masked address of the older type. */
  lemma OlderMaskedIsTaken(m: Message, a: ValidAddress)
    requires m.Fits() && NoAddress(m, XORMAPPEDADDRESS)
    requires Has(m, XORMAPPEDADDRESS_OPTIONAL, AddressValue(Masked(a, m.tid)))
    ensures Read(Finished(m), m.tid).Some? && Read(Finished(m), m.tid).value.mapped == Some(a)
  {
    ReadIs(m);
    XorMapTwice(a, m.tid);
    NoAddressRead(m, XORMAPPEDADDRESS);
    AddressRead(m, XORMAPPEDADDRESS_OPTIONAL, Masked(a, m.tid));
  }

  /** Without either, the address in the clear; and without that, none. */
  lemma PlainIsTakenLast(m: Message, a: ValidAddress)
    requires m.Fits() && NoAddress(m, XORMAPPEDADDRESS) && NoAddress(m, XORMAPPEDADDRESS_OPTIONAL)
    ensures Read(Finished(m), m.tid).Some?
    ensures Has(m, MAPPEDADDRESS, AddressValue(a)) ==> Read(Finished(m), m.tid).value.mapped == Some(a)
    ensures NoAddress(m, MAPPEDADDRESS) ==> Read(Finished(m), m.tid).value.mapped == None
  {
    ReadIs(m);
    NoAddressRead(m, XORMAPPEDADDRESS);
    NoAddressRead(m, XORMAPPEDADDRESS_OPTIONAL);
    if Has(m, MAPPEDADDRESS, AddressValue(a)) {
      AddressRead(m, MAPPEDADDRESS, a);
    }
    if NoAddress(m, MAPPEDADDRESS) {
      NoAddressRead(m, MAPPEDADDRESS);
    }
  }

  /** The other address comes before the changed address of the older format. */
  lemma OtherIsTaken(m: Message, a: ValidAddress)
    requires m.Fits()
    ensures Read(Finished(m), m.tid).Some?
    ensures var y := Read(Finished(m), m.tid).value;
      && (Has(m, OTHER_ADDRESS, AddressValue(a)) ==> y.other == Some(a))
      && (NoAddress(m, OTHER_ADDRESS) && Has(m, CHANGEDADDRESS, AddressValue(a)) ==> y.other == Some(a))
      && (NoAddress(m, OTHER_ADDRESS) && NoAddress(m, CHANGEDADDRESS) ==> y.other == None)
  {
    ReadIs(m);
    if Has(m, OTHER_ADDRESS, AddressValue(a)) {
      AddressRead(m, OTHER_ADDRESS, a);
    }
    if NoAddress(m, OTHER_ADDRESS) {
      NoAddressRead(m, OTHER_ADDRESS);
    }
    if Has(m, CHANGEDADDRESS, AddressValue(a)) {
      AddressRead(m, CHANGEDADDRESS, a);
    }
    if NoAddress(m, CHANGEDADDRESS) {
      NoAddressRead(m, CHANGEDADDRESS);
    }
  }

  /** What an address attribute says, exactly: port and ip as they follow the family, which
      is the first of the two or else the second; more bytes may follow. */
  lemma DecodedExactly(v: seq<byte>, a: ValidAddress)
    ensures DecodeAddress(v) == Some(a) <==>
      var w := AddressValue(a);
      && |v| >= |w| && v[2..|w|] == w[2..]
      && (if a.family == IPv4 then v[1] == 1 else v[1] != 1)
  {
    var w := AddressValue(a);
    assert w[2..4] == a.port && w[4..] == a.ip;
    if |v| >= |w| {
      assert v[2..|w|] == v[2..4] + v[4..|w|] && w[2..] == w[2..4] + w[4..];
      assert v[2..|w|][..2] == v[2..4] && v[2..|w|][2..] == v[4..|w|];
    }
  }
}
