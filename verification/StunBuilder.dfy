/** CStunMessageBuilder: appends a message piece by piece and patches its length. */
module StunBuilder {
  import opened Bytes
  import opened StunFormat
  import opened StunMessage
  import opened DataStream
  import opened StunQuery
  import SA = SocketAddress
  import F = Fingerprint

  /** The value of an error code attribute: class and number behind two zero bytes. */
  function ErrorValue(errorNumber: nat, reason: seq<byte>): (r: seq<byte>)
    requires 300 <= errorNumber <= 600
  {
    [0, 0, errorNumber / 100, errorNumber % 100] + reason
  }

  class Builder {
    const stream: Stream
    var transactionid: seq<byte>
    var legacyMode: bool

    ghost predicate Valid()
      reads this, stream, stream.Repr
    {
      && this !in stream.Repr && stream in stream.Repr
      && stream.Valid() && stream.pos == |stream.bytes| && !stream.noGrow
      && |transactionid| == TRANSACTION_ID_LENGTH
    }

    /** The stream grew by these bytes; a buffer with room for them was not replaced. */
    twostate predicate Appended(data: seq<byte>)
      reads this, stream, stream.Repr
    {
      && Valid() && fresh(stream.Repr - old(stream.Repr))
      && stream.bytes == old(stream.bytes) + data
      && (old(stream.buffer) != null && |stream.bytes| <= old(stream.buffer.data.Length) ==>
        stream.buffer == old(stream.buffer) && stream.Repr == old(stream.Repr)
        && stream.buffer.data == old(stream.buffer.data))
      && legacyMode == old(legacyMode)
    }

    constructor ()
      ensures Valid() && fresh(this) && fresh(stream) && fresh(stream.Repr)
      ensures stream.bytes == [] && !legacyMode
    {
      stream := new Stream();
      transactionid := Zeros(TRANSACTION_ID_LENGTH);
      legacyMode := false;
    }

    /** builder.GetStream().Attach(buffer, true). */
    method AttachTo(b: Buffer)
      requires Valid() && b.size <= b.data.Length && this as object != b
      modifies stream, b
      ensures Valid() && stream.bytes == [] && stream.buffer == b && b.data == old(b.data)
      ensures stream.Repr == {stream, b, b.data}
    {
      stream.Attach(b, true);
    }

    method Put(data: seq<byte>)
      requires Valid() && data != []
      modifies stream.Repr
      ensures Appended(data) && transactionid == old(transactionid)
    {
      var _ := stream.Write(data);
    }

    /** A run of bytes that may be empty, as the callers guard it. */
    method PutIfAny(data: seq<byte>)
      requires Valid()
      modifies stream.Repr
      ensures Appended(data) && transactionid == old(transactionid)
    {
      if |data| > 0 {
        Put(data);
      }
    }

    method SetLegacyMode(legacy: bool)
      requires Valid()
      modifies this`legacyMode
      ensures Valid() && legacyMode == legacy
    {
      legacyMode := legacy;
    }

    /** The type field and a place holder for the length. */
    method AddHeader(msgType: nat, msgClass: nat)
      requires Valid()
      modifies stream.Repr
      ensures Valid() && fresh(stream.Repr - old(stream.Repr))
      ensures stream.bytes == old(stream.bytes) + (Be16(TypeField(msgType, msgClass)) + Be16(0))
      ensures old(stream.buffer) != null && 200 <= old(stream.buffer.data.Length)
              && |stream.bytes| <= old(stream.buffer.data.Length) ==>
        stream.buffer == old(stream.buffer) && stream.Repr == old(stream.Repr)
        && stream.buffer.data == old(stream.buffer.data)
      ensures legacyMode == old(legacyMode) && transactionid == old(transactionid)
      ensures stream.buffer != null && 200 <= stream.buffer.data.Length
    {
      ghost var s := stream.bytes;
      var _ := stream.Grow(200);
      Put(Be16(TypeField(msgType, msgClass)));
      Put(Be16(0));
      Join(s, Be16(TypeField(msgType, msgClass)), Be16(0), []);
    }

    method AddTransactionId(id: seq<byte>)
      requires Valid() && |id| == TRANSACTION_ID_LENGTH
      modifies this`transactionid, stream.Repr
      ensures Appended(id) && transactionid == id
    {
      transactionid := id;
      Put(id);
    }

    /** A new id: the cookie, eight random bytes, and four that are whatever was in memory.
        Any twelve bytes may follow the cookie here. */
    method AddRandomTransactionId(entropy: seq<byte>) returns (id: seq<byte>)
      requires Valid() && |entropy| == 12
      modifies this`transactionid, stream.Repr
      ensures id == Be32(COOKIE) + entropy && Appended(id) && transactionid == id
    {
      id := Be32(COOKIE) + entropy;
      AddTransactionId(id);
    }

    /** The flags of a change request: bit 2 for the ip, bit 1 for the port. */
    method AddChangeRequest(changeIP: bool, changePort: bool)
      requires Valid()
      modifies stream.Repr
      ensures Appended(AttrBytes(Attr(CHANGEREQUEST, Be32((if changeIP then 4 else 0) + (if changePort then 2 else 0)))))
      ensures transactionid == old(transactionid)
    {
      var changeData := 0;
      if changeIP {
        changeData := changeData + 4;
      }
      if changePort {
        changeData := changeData + 2;
      }
      WholeWire(legacyMode, Be32(changeData));
      AddAttribute(CHANGEREQUEST, Be32(changeData));
    }

    method AddAttributeHeader(t: nat, size: nat)
      requires Valid()
      modifies stream.Repr
      ensures Appended(Be16(t) + Be16(size)) && transactionid == old(transactionid)
    {
      Put(Be16(t));
      Put(Be16(size));
    }

    /** An attribute whose value is a run of bytes, padded with zeros; in legacy mode the
        announced size includes the padding. */
    method AddAttribute(t: nat, data: seq<byte>)
      requires Valid()
      modifies stream.Repr
      ensures Appended(AttrBytes(Attr(t, WireValue(legacyMode, data)))) && transactionid == old(transactionid)
    {
      var sizeheader := |data|;
      var padding := if |data| % 4 != 0 then 4 - |data| % 4 else 0;
      if legacyMode {
        sizeheader := sizeheader + padding;
      }
      ghost var s := stream.bytes;
      WireBytes(t, legacyMode, data);
      AddAttributeHeader(t, sizeheader);
      PutIfAny(data);
      PutIfAny(Zeros(padding));
      Join(s, Be16(t) + Be16(sizeheader), data, Zeros(padding));
    }

    method AddErrorCode(errorNumber: nat, reason: seq<byte>) returns (ok: bool)
      requires Valid()
      modifies stream.Repr
      ensures ok <==> |reason| < 128 && 300 <= errorNumber <= 600
      ensures ok ==> Appended(AttrBytes(Attr(ERRORCODE, WireValue(legacyMode, ErrorValue(errorNumber, reason)))))
      ensures !ok ==> Appended([])
      ensures transactionid == old(transactionid)
    {
      if |reason| >= 128 || errorNumber < 300 || errorNumber > 600 {
        return false;
      }
      PutErrorCode(errorNumber, reason);
      return true;
    }

    method PutErrorCode(errorNumber: nat, reason: seq<byte>)
      requires Valid() && 300 <= errorNumber <= 600
      modifies stream.Repr
      ensures Appended(AttrBytes(Attr(ERRORCODE, WireValue(legacyMode, ErrorValue(errorNumber, reason)))))
      ensures transactionid == old(transactionid)
    {
      var size := |reason| + 4;
      var padding := if size % 4 != 0 then 4 - size % 4 else 0;
      var sizeheader := if legacyMode then size + padding else size;
      ghost var s := stream.bytes;
      WireBytes(ERRORCODE, legacyMode, ErrorValue(errorNumber, reason));
      AddAttributeHeader(ERRORCODE, sizeheader);
      PutErrorBody(errorNumber, reason, padding);
      Join(s, Be16(ERRORCODE) + Be16(sizeheader), ErrorValue(errorNumber, reason) + Zeros(padding), []);
      assert Be16(ERRORCODE) + Be16(sizeheader) + (ErrorValue(errorNumber, reason) + Zeros(padding))
          == Be16(ERRORCODE) + Be16(sizeheader) + ErrorValue(errorNumber, reason) + Zeros(padding);
    }

    method PutErrorBody(errorNumber: nat, reason: seq<byte>, padding: nat)
      requires Valid() && 300 <= errorNumber <= 600
      modifies stream.Repr
      ensures Appended(ErrorValue(errorNumber, reason) + Zeros(padding)) && transactionid == old(transactionid)
    {
      ghost var s := stream.bytes;
      PutErrorValue(errorNumber, reason);
      PutIfAny(Zeros(padding));
      Join(s, ErrorValue(errorNumber, reason), Zeros(padding), []);
    }

    method PutErrorValue(errorNumber: nat, reason: seq<byte>)
      requires Valid() && 300 <= errorNumber <= 600
      modifies stream.Repr
      ensures Appended(ErrorValue(errorNumber, reason)) && transactionid == old(transactionid)
    {
      ghost var s := stream.bytes;
      Put([0, 0]);
      Put([errorNumber / 100]);
      Put([errorNumber % 100]);
      PutIfAny(reason);
      Join(s, [0, 0], [errorNumber / 100], [errorNumber % 100]);
      Join(s, [0, 0] + [errorNumber / 100] + [errorNumber % 100], reason, []);
    }

    method AddMappedAddressImpl(t: nat, a: SA.Address)
      requires Valid() && a.Valid()
      modifies stream.Repr
      ensures Appended(AttrBytes(Attr(t, SA.AddressValue(a)))) && transactionid == old(transactionid)
    {
      var size := if a.family == SA.IPv4 then 8 else 20;
      ghost var s := stream.bytes;
      AddAttributeHeader(t, size);
      PutAddress(a);
      Join(s, Be16(t) + Be16(size), SA.AddressValue(a), []);
      WireBytes(t, false, SA.AddressValue(a));
      assert Zeros(Padding(size)) == [];
    }

    method PutAddress(a: SA.Address)
      requires Valid() && a.Valid()
      modifies stream.Repr
      ensures Appended(SA.AddressValue(a)) && transactionid == old(transactionid)
    {
      ghost var s := stream.bytes;
      var family := if a.family == SA.IPv4 then 1 else 2;
      Put([0]);
      Put([family]);
      Put(a.port);
      Put(a.ip);
      Join(s, [0], [family], a.port);
      Join(s, [0] + [family] + a.port, a.ip, []);
    }

    method AddMappedAddress(a: SA.Address)
      requires Valid() && a.Valid()
      modifies stream.Repr
      ensures Appended(AttrBytes(Attr(MAPPEDADDRESS, SA.AddressValue(a)))) && transactionid == old(transactionid)
    {
      AddMappedAddressImpl(MAPPEDADDRESS, a);
    }

    method AddResponseOriginAddress(a: SA.Address)
      requires Valid() && a.Valid()
      modifies stream.Repr
      ensures Appended(AttrBytes(Attr(if legacyMode then SOURCEADDRESS else RESPONSE_ORIGIN, SA.AddressValue(a))))
      ensures transactionid == old(transactionid)
    {
      AddMappedAddressImpl(if legacyMode then SOURCEADDRESS else RESPONSE_ORIGIN, a);
    }

    method AddOtherAddress(a: SA.Address)
      requires Valid() && a.Valid()
      modifies stream.Repr
      ensures Appended(AttrBytes(Attr(if legacyMode then CHANGEDADDRESS else OTHER_ADDRESS, SA.AddressValue(a))))
      ensures transactionid == old(transactionid)
    {
      AddMappedAddressImpl(if legacyMode then CHANGEDADDRESS else OTHER_ADDRESS, a);
    }

    /** The address, masked with the transaction id that was added before. */
    method AddXorMappedAddress(a: SA.Address)
      requires Valid() && a.Valid()
      modifies stream.Repr
      ensures Appended(AttrBytes(Attr(if legacyMode then XORMAPPEDADDRESS_OPTIONAL else XORMAPPEDADDRESS,
                                      SA.AddressValue(a.XorMap(old(transactionid))))))
      ensures transactionid == old(transactionid)
    {
      var masked := SA.ApplyStunXorMap(a, transactionid);
      AddMappedAddressImpl(if legacyMode then XORMAPPEDADDRESS_OPTIONAL else XORMAPPEDADDRESS, masked);
    }

    /** Seeks back, writes the length, and returns to where it was. */
    method FixLengthField() returns (ok: bool)
      requires Valid()
      modifies stream.Repr
      ensures Valid() && fresh(stream.Repr - old(stream.Repr))
      ensures ok <==> |old(stream.bytes)| >= HEADER_SIZE
      ensures stream.bytes == if ok then Patch(old(stream.bytes)) else old(stream.bytes)
      ensures stream.buffer == old(stream.buffer) && stream.Repr == old(stream.Repr)
      ensures stream.buffer != null ==> stream.buffer.data == old(stream.buffer.data)
      ensures transactionid == old(transactionid) && legacyMode == old(legacyMode)
    {
      var size := stream.GetSize();
      var currentPos := stream.pos;
      if size < HEADER_SIZE {
        return false;
      }
      var _ := stream.SeekDirect(2);
      var _ := stream.Write(Be16(size - HEADER_SIZE));
      var _ := stream.SeekDirect(currentPos);
      return true;
    }

    method AddMessageIntegrityImpl(c: Crypto, key: seq<byte>) returns (ok: bool)
      requires Valid()
      modifies stream.Repr
      ensures Valid() && fresh(stream.Repr - old(stream.Repr))
      ensures ok <==> key != []
      ensures stream.bytes == if ok then AddIntegrity(c, old(stream.bytes), key) else old(stream.bytes)
      ensures old(stream.buffer) != null && |old(stream.bytes)| + 24 <= old(stream.buffer.data.Length) ==>
        stream.buffer == old(stream.buffer) && stream.Repr == old(stream.Repr)
        && stream.buffer.data == old(stream.buffer.data)
      ensures transactionid == old(transactionid) && legacyMode == old(legacyMode)
    {
      if key == [] {
        return false;
      }
      WholeWire(legacyMode, Zeros(20));
      AddAttribute(MESSAGEINTEGRITY, Zeros(20));
      var _ := FixLengthField();
      FillDigest(c, key);
      return true;
    }

    /** Hashes all but the last 24 bytes straight into the last 20. */
    method FillDigest(c: Crypto, key: seq<byte>)
      requires Valid() && |stream.bytes| >= 24
      modifies stream.Repr
      ensures Valid() && stream.buffer == old(stream.buffer) && stream.Repr == old(stream.Repr)
      ensures stream.buffer != null && stream.buffer.data == old(stream.buffer.data)
      ensures var p := old(stream.bytes); stream.bytes == p[..|p| - 20] + c.hmac(key, p[..|p| - 24])
      ensures transactionid == old(transactionid) && legacyMode == old(legacyMode)
    {
      var size := stream.GetSize();
      var length := size - 24;
      assert stream.buffer.data[..length] == stream.bytes[..length];
      var mac := c.hmac(key, stream.buffer.data[..length]);
      assert |mac| == 20;
      stream.Poke(length + 4, mac);
    }

    /** Fails where the length field cannot be patched; the zero value is there even so. */
    method AddFingerprintAttribute(c: F.CrcCrypto) returns (ok: bool)
      requires Valid()
      modifies stream.Repr
      ensures Valid() && fresh(stream.Repr - old(stream.Repr))
      ensures ok <==> |old(stream.bytes)| + 8 >= HEADER_SIZE
      ensures stream.bytes == if ok then AddFingerprint(c, old(stream.bytes))
                              else old(stream.bytes) + AttrBytes(FingerprintAttr(Zeros(4)))
      ensures transactionid == old(transactionid) && legacyMode == old(legacyMode)
    {
      ok := PatchedZeroFingerprint();
      if ok {
        FillFingerprint(c);
      }
    }

    /** A zero value first, and the length that counts it. */
    method PatchedZeroFingerprint() returns (ok: bool)
      requires Valid()
      modifies stream.Repr
      ensures Valid() && fresh(stream.Repr - old(stream.Repr))
      ensures ok <==> |old(stream.bytes)| + 8 >= HEADER_SIZE
      ensures var zero := old(stream.bytes) + AttrBytes(FingerprintAttr(Zeros(4)));
        stream.bytes == if ok then Patch(zero) else zero
      ensures transactionid == old(transactionid) && legacyMode == old(legacyMode)
    {
      PutZeroFingerprint();
      ok := FixLengthField();
    }

    method PutZeroFingerprint()
      requires Valid()
      modifies stream.Repr
      ensures Appended(AttrBytes(FingerprintAttr(Zeros(4)))) && transactionid == old(transactionid)
    {
      ghost var s := stream.bytes;
      Put(Be16(FINGERPRINT));
      Put(Be16(4));
      Put(Zeros(4));
      Join(s, Be16(FINGERPRINT), Be16(4), Zeros(4));
      WireBytes(FINGERPRINT, false, Zeros(4));
      assert Zeros(Padding(4)) == [];
    }

    /** Writes the checksum of all but the last 8 bytes over the last 4. */
    method FillFingerprint(c: F.CrcCrypto)
      requires Valid() && |stream.bytes| >= 8
      modifies stream.Repr
      ensures Valid() && fresh(stream.Repr - old(stream.Repr))
      ensures stream.bytes == StunMessage.FillFingerprint(c, old(stream.bytes))
      ensures transactionid == old(transactionid) && legacyMode == old(legacyMode)
    {
      ghost var p := stream.bytes;
      var size := stream.GetSize();
      assert stream.buffer.data[..size - 8] == p[..size - 8];
      var value := F.ComputeFingerprint(c, stream.buffer.data[..size - 8]);
      var _ := stream.SeekRelative(-4);
      var _ := stream.Write(Be32(value));
    }
  }

  /** Data of whole words goes onto the wire as it is. */
  lemma WholeWire(legacy: bool, data: seq<byte>)
    requires |data| % 4 == 0
    ensures WireValue(legacy, data) == data
  {
    assert Zeros(0) == [];
  }

  lemma Join(s: seq<byte>, a: seq<byte>, b: seq<byte>, c: seq<byte>)
    ensures s + a + b + c == s + (a + b + c)
    ensures c == [] ==> s + a + b == s + (a + b)
  {}

  /** Header, data and padding as they are written are the attribute's bytes. */
  lemma WireBytes(t: nat, legacy: bool, data: seq<byte>)
    ensures var p := Padding(|data|);
      AttrBytes(Attr(t, WireValue(legacy, data)))
        == Be16(t) + Be16(if legacy then |data| + p else |data|) + data + Zeros(p)
  {
    var v := WireValue(legacy, data);
    if legacy {
      assert Padding(|v|) == 0;
      assert Zeros(0) == [];
    }
  }
}
