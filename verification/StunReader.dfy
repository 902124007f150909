/** CStunMessageReader: an incremental parser that is fed a message in pieces. */
module StunReader {
  import opened Bytes
  import opened AssocList
  import opened StunFormat
  import opened StunRecords
  import opened StunMessage
  import opened Integrity
  import opened DataStream
  import opened StunQuery
  import SA = SocketAddress
  import FastHash
  import F = Fingerprint

  /** FastHash_Hash of an attribute type. */
  function TypeHash(t: nat): nat {
    t
  }

  class Reader {
    const stream: Stream
    const mapAttributes: FastHash.FastHash<nat, StunAttribute>
    var allowLegacyFormat: bool
    var messageIsLegacyFormat: bool
    var state: ReaderParseState
    var indexFingerprint: int
    var indexMessageIntegrity: int
    var countAttributes: nat
    var transactionid: seq<byte>
    var msgTypeNormalized: nat
    var msgClass: nat
    var msgLength: nat

    /** All bytes fed since the last reset, and whether legacy messages were allowed when
        the header was examined. */
    ghost var fed: seq<byte>
    ghost var mode: bool
    /** The attributes recorded: those of a validated message, or those up to an error. */
    ghost var attrs: seq<StunAttribute>

    /** The parts share no objects, and the stream may grow. */
    ghost predicate Separate()
      reads this, stream
    {
      && this !in stream.Repr && this !in mapAttributes.Repr
      && stream.Repr !! mapAttributes.Repr
      && stream in stream.Repr && !stream.noGrow
    }

    /** What the fields say about the header of s, once it has been read. */
    ghost predicate HeaderFields(s: seq<byte>)
      requires |s| >= HEADER_SIZE
      reads this
    {
      && transactionid == s[4..HEADER_SIZE]
      && msgTypeNormalized == NormalizedType(s) && msgClass == ClassOf(s)
      && msgLength == U16(s, 2)
      && messageIsLegacyFormat == !HasCookie(s)
    }

    ghost predicate HeaderRead()
      reads this
    {
      |fed| >= HEADER_SIZE && HeaderOk(mode, fed) && HeaderFields(fed)
    }

    /** What the fields say about these attributes. */
    ghost predicate Listed(list: seq<StunAttribute>)
      reads this, mapAttributes
    {
      && mapAttributes.contents == Table(list) && mapAttributes.pristine
      && countAttributes == |list|
      && indexFingerprint == Find(list, FINGERPRINT)
      && indexMessageIntegrity == Find(list, MESSAGEINTEGRITY)
    }

    ghost predicate Valid()
      reads this, stream, stream.Repr, mapAttributes, mapAttributes.Repr
    {
      && Separate() && stream.Valid() && mapAttributes.Valid()
      && mapAttributes.fsize == MAX_NUM_ATTRIBUTES
      && state == StateAfter(mode, fed)
      && (state == HeaderNotRead ==> mode == allowLegacyFormat)
      && (state != ParseError ==> stream.bytes == fed && stream.pos <= |fed|)
      && Listed(attrs)
      && (state == HeaderNotRead || state == HeaderValidated ==> attrs == [])
      && (state == HeaderValidated || state == BodyValidated ==> HeaderRead())
      && (state == BodyValidated ==> Grammar(mode, fed, attrs))
      && (state == ParseError ==> Stopped(stream.bytes, fed, attrs, transactionid))
    }

    constructor ()
      ensures Valid() && fed == [] && state == HeaderNotRead && allowLegacyFormat
      ensures fresh(this) && fresh(stream) && fresh(stream.Repr) && fresh(mapAttributes.Repr)
    {
      stream := new Stream();
      mapAttributes := new FastHash.FastHash<nat, StunAttribute>(MAX_NUM_ATTRIBUTES, 53, TypeHash);
      allowLegacyFormat, messageIsLegacyFormat, state := true, false, HeaderNotRead;
      indexFingerprint, indexMessageIntegrity, countAttributes := -1, -1, 0;
      transactionid, msgTypeNormalized, msgClass, msgLength := Zeros(16), 0xffff, 0xff, 0;
      fed, mode, attrs := [], true, [];
    }

    method SetAllowLegacyFormat(allow: bool)
      requires Valid()
      modifies this`allowLegacyFormat, this`mode
      ensures Valid() && allowLegacyFormat == allow
      ensures mode == if state == HeaderNotRead then allow else old(mode)
    {
      allowLegacyFormat := allow;
      if state == HeaderNotRead {
        mode := allow;
      }
    }

    /** Ready for another message, of either format. */
    method Reset()
      requires Valid()
      modifies this, stream, mapAttributes.Repr
      ensures Valid() && fresh(stream.Repr - old(stream.Repr))
      ensures fed == [] && state == HeaderNotRead && allowLegacyFormat && mode
    {
      Forget();
      NothingListed();
      mapAttributes.Reset();
    }

    method Forget()
      requires Separate()
      modifies this, stream
      ensures stream.Valid() && stream.bytes == [] && stream.Repr == {stream} && !stream.noGrow
      ensures state == HeaderNotRead && allowLegacyFormat && mode && fed == [] && attrs == []
      ensures indexFingerprint == -1 && indexMessageIntegrity == -1 && countAttributes == 0
    {
      stream.Reset();
      allowLegacyFormat, messageIsLegacyFormat, state := true, false, HeaderNotRead;
      indexFingerprint, indexMessageIntegrity, countAttributes := -1, -1, 0;
      transactionid, msgTypeNormalized, msgClass, msgLength := Zeros(16), 0xffff, 0xff, 0;
      fed, mode, attrs := [], true, [];
    }

    /** Feeds more bytes. The state depends on all the bytes fed so far taken together,
        and on nothing else; and so does, short of an error, everything that was read. */
    method AddBytes(data: seq<byte>) returns (result: ReaderParseState)
      requires Valid()
      modifies this, stream.Repr, mapAttributes.Repr
      ensures Valid() && fresh(stream.Repr - old(stream.Repr))
      ensures fed == old(fed) + data
      ensures result == state == StateAfter(mode, old(fed) + data)
      ensures mode == old(mode) && allowLegacyFormat == old(allowLegacyFormat)
    {
      if state == ParseError {
        ErrorSticks(mode, fed, data);
        StoppedFed(stream.bytes, fed, attrs, transactionid, data);
        fed := fed + data;
        return ParseError;
      }
      if data == [] {
        assert fed + data == fed;
        return state;
      }
      AddSome(data);
      return state;
    }

    method AddSome(data: seq<byte>)
      requires Valid() && state != ParseError && data != []
      modifies this, stream.Repr, mapAttributes.Repr
      ensures Valid() && fresh(stream.Repr - old(stream.Repr)) && fed == old(fed) + data
      ensures mode == old(mode) && allowLegacyFormat == old(allowLegacyFormat)
    {
      ErrorSticks(mode, fed, data);
      var currentSize := Extend(data);
      Advance(currentSize);
    }

    /** Appends the bytes; what was read of the header stays as it is. */
    method Extend(data: seq<byte>) returns (currentSize: nat)
      requires Valid() && state != ParseError && data != []
      modifies this`fed, stream.Repr
      ensures Growing() && fresh(stream.Repr - old(stream.Repr))
      ensures fed == old(fed) + data && currentSize == |fed|
    {
      ghost var before := fed;
      currentSize := Append(data);
      fed := fed + data;
      if |before| >= HEADER_SIZE {
        HeaderFixed(mode, before, data);
      }
      if state == BodyValidated {
        StoppedBehind(mode, before, attrs, transactionid, data);
      }
    }

    /** More bytes are there than the state tells. */
    ghost predicate Growing()
      reads this, stream, stream.Repr, mapAttributes, mapAttributes.Repr
    {
      && Separate() && stream.Valid() && mapAttributes.Valid() && stream.bytes == fed
      && mapAttributes.fsize == MAX_NUM_ATTRIBUTES
      && Listed(attrs) && (state != BodyValidated ==> attrs == [])
      && (state == HeaderNotRead ==> mode == allowLegacyFormat)
      && (state == HeaderValidated ==> HeaderRead())
      && (state == BodyValidated ==> HeaderRead() && |fed| > HEADER_SIZE + U16(fed, 2))
      && (state == BodyValidated ==> Stopped(fed, fed, attrs, transactionid))
      && state != ParseError
    }

    /** Moves the state as far as the bytes allow. */
    method Advance(currentSize: nat)
      requires Growing() && currentSize == |fed|
      modifies this`messageIsLegacyFormat, this`msgTypeNormalized, this`msgLength, this`transactionid, this`msgClass,
               this`indexFingerprint, this`indexMessageIntegrity, this`countAttributes, this`attrs,
               this`state, stream`pos, mapAttributes.Repr
      ensures Valid()
    {
      if state == HeaderNotRead {
        StartMessage(currentSize);
      }
      if state == HeaderValidated {
        TryBody(currentSize);
      }
      CheckExcess(currentSize);
    }

    /** What holds before it is asked whether there are bytes behind the message. */
    ghost predicate Unchecked()
      reads this, stream, stream.Repr, mapAttributes, mapAttributes.Repr
    {
      && Separate() && stream.Valid() && mapAttributes.Valid()
      && mapAttributes.fsize == MAX_NUM_ATTRIBUTES && stream.bytes == fed && Listed(attrs)
      && (state == HeaderNotRead ==> mode == allowLegacyFormat && attrs == [])
      && (state == HeaderValidated ==> HeaderRead() && attrs == [])
      && (state != BodyValidated ==> state == StateAfter(mode, fed))
      && (state == BodyValidated ==> HeaderRead() && |fed| >= HEADER_SIZE + U16(fed, 2))
      && (state == BodyValidated && |fed| == HEADER_SIZE + U16(fed, 2) ==> Grammar(mode, fed, attrs))
      && (state == BodyValidated || state == ParseError ==> Stopped(fed, fed, attrs, transactionid))
    }

    /** No bytes may follow a complete message. */
    method CheckExcess(currentSize: nat)
      requires Unchecked() && currentSize == |fed|
      modifies this`state
      ensures Valid()
    {
      if state == BodyValidated {
        if currentSize > msgLength + HEADER_SIZE {
          state := ParseError;
        }
      }
    }

    /** What the two steps below work on: the bytes are there, nothing is recorded yet. */
    ghost predicate Pending()
      reads this, stream, stream.Repr, mapAttributes, mapAttributes.Repr
    {
      && Separate() && stream.Valid() && mapAttributes.Valid()
      && mapAttributes.fsize == MAX_NUM_ATTRIBUTES && Listed([]) && attrs == []
      && stream.bytes == fed
    }

    method StartMessage(currentSize: nat)
      requires Pending() && currentSize == |fed| && state == HeaderNotRead && mode == allowLegacyFormat
      modifies this`messageIsLegacyFormat, this`msgTypeNormalized, this`msgLength, this`transactionid, this`msgClass,
               this`state, stream`pos
      ensures state == HeaderValidated ==> Pending() && HeaderRead()
      ensures state != HeaderValidated ==> Unchecked()
    {
      TryHeader(currentSize);
      EmptyBody(mode, fed);
      StoppedEmpty(fed, transactionid);
    }

    method TryHeader(currentSize: nat)
      requires Pending() && currentSize == |fed| && state == HeaderNotRead && mode == allowLegacyFormat
      modifies this`messageIsLegacyFormat, this`msgTypeNormalized, this`msgLength, this`transactionid, this`msgClass,
               this`state, stream`pos
      ensures Pending()
      ensures state == if |fed| < HEADER_SIZE then HeaderNotRead
                       else if !HeaderOk(mode, fed) then ParseError
                       else if U16(fed, 2) == 0 then BodyValidated
                       else HeaderValidated
      ensures state == HeaderValidated || state == BodyValidated ==> HeaderRead()
    {
      if currentSize >= HEADER_SIZE {
        var ok := ReadHeader();
        state := if ok then HeaderValidated else ParseError;
        if ok && msgLength == 0 {
          state := BodyValidated;
        }
      }
    }

    method TryBody(currentSize: nat)
      requires Pending() && currentSize == |fed| && state == HeaderValidated && HeaderRead()
      modifies this`indexFingerprint, this`indexMessageIntegrity, this`countAttributes, this`attrs,
               this`state, stream`pos, mapAttributes.Repr
      ensures Unchecked()
    {
      if currentSize >= msgLength + HEADER_SIZE {
        if currentSize == msgLength + HEADER_SIZE {
          TakeBody();
        } else {
          state := ParseError;
          StoppedEmpty(fed, transactionid);
        }
      }
    }

    /** All bytes of the message are there. */
    method TakeBody()
      requires Pending() && HeaderRead() && |fed| == U16(fed, 2) + HEADER_SIZE
      modifies this`indexFingerprint, this`indexMessageIntegrity, this`countAttributes, this`attrs,
               this`state, stream`pos, mapAttributes.Repr
      ensures stream.Valid() && mapAttributes.Valid() && Listed(attrs)
      ensures state == StateAfter(mode, fed) && state in {BodyValidated, ParseError}
      ensures state == BodyValidated ==> Grammar(mode, fed, attrs)
      ensures Stopped(fed, fed, attrs, transactionid)
    {
      var ok := ReadBody();
      state := if ok then BodyValidated else ParseError;
      ReadingIsGrammar(mode, fed);
    }

    /** Writes at the end of what there is. */
    method Append(data: seq<byte>) returns (size: nat)
      requires Separate() && stream.Valid() && data != []
      modifies stream.Repr
      ensures Separate() && stream.Valid() && fresh(stream.Repr - old(stream.Repr))
      ensures stream.bytes == old(stream.bytes) + data
      ensures size == |stream.bytes|
    {
      var n := stream.GetSize();
      var _ := stream.SeekDirect(n);
      var _ := stream.Write(data);
      size := stream.GetSize();
    }

    method ReadHeader() returns (ok: bool)
      requires Separate() && stream.Valid() && |stream.bytes| >= HEADER_SIZE
      modifies this`messageIsLegacyFormat, this`msgTypeNormalized, this`msgLength, this`transactionid, this`msgClass,
               stream`pos
      ensures stream.Valid()
      ensures ok == HeaderOk(allowLegacyFormat, stream.bytes)
      ensures ok ==> HeaderFields(stream.bytes)
    {
      var _ := stream.SeekDirect(0);
      var _, t := stream.Read(2);
      var _, l := stream.Read(2);
      var _, id := stream.Read(TRANSACTION_ID_LENGTH);
      var msgType, length, cookie := U16(t, 0), U16(l, 0), U32(id, 0);
      HeaderIs(stream.bytes, t, l, id);
      messageIsLegacyFormat := !(cookie == COOKIE);
      var headerValid := msgType < 0x4000 && length % 4 == 0;
      headerValid := headerValid && (allowLegacyFormat || !messageIsLegacyFormat);
      if !headerValid {
        return false;
      }
      msgTypeNormalized := NormalizedType(t);
      msgLength := length;
      transactionid := id;
      if msgLength > MAX_MESSAGE_SIZE {
        return false;
      }
      // bits 8 and 4: neither is a request, only 4 an indication, only 8 a success, both a failure
      var high, low := msgType / 0x100 % 2 == 1, msgType / 0x10 % 2 == 1;
      if !high && !low {
        msgClass := 0;
      } else if !high && low {
        msgClass := 1;
      } else if high && !low {
        msgClass := 2;
      } else {
        msgClass := 3;
      }
      return true;
    }

    /** Reads the attributes up to the end of the stream. */
    method ReadBody() returns (ok: bool)
      requires Separate() && stream.Valid() && Worded()
      requires mapAttributes.Valid() && mapAttributes.fsize == MAX_NUM_ATTRIBUTES && Listed([])
      modifies this`indexFingerprint, this`indexMessageIntegrity, this`countAttributes, this`attrs,
               stream`pos, mapAttributes.Repr
      ensures stream.Valid() && mapAttributes.Valid() && Listed(attrs)
      ensures ok <==> !NoReading(stream.bytes)
      ensures ok ==> Tiles(stream.bytes, attrs, |stream.bytes|) && |attrs| <= MAX_NUM_ATTRIBUTES
      ensures Stopped(stream.bytes, stream.bytes, attrs, transactionid)
    {
      var currentSize := stream.GetSize();
      var bytesConsumed := HEADER_SIZE;
      var _ := stream.SeekDirect(HEADER_SIZE);
      attrs := [];
      ok := true;
      while ok && bytesConsumed < currentSize
        invariant stream.Valid() && mapAttributes.Valid() && Listed(attrs)
        invariant HEADER_SIZE <= bytesConsumed <= currentSize
        invariant ok ==> stream.pos == bytesConsumed && Tiles(stream.bytes, attrs, bytesConsumed)
        invariant ok ==> |attrs| <= MAX_NUM_ATTRIBUTES
        invariant !ok ==> bytesConsumed < currentSize && NoReading(stream.bytes)
        invariant !ok ==> Stopped(stream.bytes, stream.bytes, attrs, transactionid)
        decreases currentSize - bytesConsumed, ok
      {
        ghost var before := attrs;
        var used;
        ok, used := ReadAttribute();
        TurnedTiles(stream.bytes, before, bytesConsumed, ok, used, attrs, transactionid);
        if ok {
          bytesConsumed := bytesConsumed + used;
        }
      }
      if ok {
        StoppedTiles(stream.bytes, attrs, bytesConsumed, transactionid);
      }
      ok := bytesConsumed == currentSize;
    }

    /** The header has been read, and the bytes come in words. */
    ghost predicate Worded()
      reads this, stream
    {
      && |stream.bytes| >= HEADER_SIZE && |stream.bytes| % 4 == 0
      && transactionid == stream.bytes[4..HEADER_SIZE]
    }

    /** One turn of the loop: an attribute is read, or none can be. */
    method ReadAttribute() returns (ok: bool, used: nat)
      requires Separate() && stream.Valid()
      requires mapAttributes.Valid() && mapAttributes.fsize == MAX_NUM_ATTRIBUTES && Listed(attrs)
      modifies this`indexFingerprint, this`indexMessageIntegrity, this`countAttributes, this`attrs,
               stream`pos, mapAttributes.Repr
      ensures stream.Valid() && mapAttributes.Valid() && Listed(attrs)
      ensures ok ==> stream.pos == old(stream.pos) + used
      ensures Turned(stream.bytes, old(attrs), old(stream.pos), ok, used, attrs)
    {
      used := 0;
      var attrib;
      ok, attrib := ReadAndRecord();
      if ok {
        ok, used := SkipValue(attrib.size);
        used := used + 4;
      }
    }

    /** Reads the header of an attribute and enters it in the table. */
    method ReadAndRecord() returns (ok: bool, attrib: StunAttribute)
      requires Separate() && stream.Valid()
      requires mapAttributes.Valid() && mapAttributes.fsize == MAX_NUM_ATTRIBUTES && Listed(attrs)
      modifies this`indexFingerprint, this`indexMessageIntegrity, this`countAttributes, this`attrs,
               stream`pos, mapAttributes.Repr
      ensures stream.Valid() && mapAttributes.Valid() && Listed(attrs)
      ensures var s, at := stream.bytes, old(stream.pos);
        && (ok <==> at + 4 <= |s| && U16(s, at + 2) <= MAX_ATTRIBUTE_SIZE && |old(attrs)| < MAX_NUM_ATTRIBUTES)
        && (ok ==> stream.pos == at + 4 && attrib == StunAttribute(U16(s, at), U16(s, at + 2), at + 4))
      ensures attrs == if ok then old(attrs) + [attrib] else old(attrs)
    {
      ok, attrib := ReadAttributeHeader();
      if ok {
        ok := Record(attrib);
      }
    }

    method ReadAttributeHeader() returns (ok: bool, attrib: StunAttribute)
      requires stream.Valid()
      modifies stream`pos
      ensures stream.Valid()
      ensures var s, at := stream.bytes, old(stream.pos);
        && (ok <==> at + 4 <= |s| && U16(s, at + 2) <= MAX_ATTRIBUTE_SIZE)
        && (ok ==> stream.pos == at + 4 && attrib == StunAttribute(U16(s, at), U16(s, at + 2), at + 4))
    {
      attrib := StunAttribute(0, 0, 0);
      var okType, t := stream.Read(2);
      if !okType {
        return false, attrib;
      }
      var okLength, l := stream.Read(2);
      if !okLength {
        return false, attrib;
      }
      attrib := StunAttribute(U16(t, 0), U16(l, 0), stream.pos);
      ok := attrib.size <= MAX_ATTRIBUTE_SIZE;
    }

    /** Moves past a value and its padding. */
    method SkipValue(attributeLength: nat) returns (ok: bool, used: nat)
      requires stream.Valid()
      modifies stream`pos
      ensures stream.Valid()
      ensures used == attributeLength + Padding(attributeLength)
      ensures ok <==> old(stream.pos) + used <= |stream.bytes|
      ensures ok ==> stream.pos == old(stream.pos) + used
    {
      var paddingLength := 0;
      if attributeLength % 4 != 0 {
        paddingLength := 4 - attributeLength % 4;
      }
      used := attributeLength + paddingLength;
      ok := stream.SeekRelative(attributeLength);
      if ok && paddingLength > 0 {
        ok := stream.SeekRelative(paddingLength);
      }
    }

    /** Enters an attribute in the table, if there is room, and notes the two trailers. */
    method Record(attrib: StunAttribute) returns (ok: bool)
      requires Separate()
      requires mapAttributes.Valid() && mapAttributes.fsize == MAX_NUM_ATTRIBUTES && Listed(attrs)
      modifies this`indexFingerprint, this`indexMessageIntegrity, this`countAttributes, this`attrs, mapAttributes.Repr
      ensures mapAttributes.Valid() && Listed(attrs)
      ensures ok <==> |old(attrs)| < MAX_NUM_ATTRIBUTES
      ensures attrs == if ok then old(attrs) + [attrib] else old(attrs)
    {
      TableAdd(attrs, attrib);
      var result := mapAttributes.Insert(attrib.attributeType, attrib);
      ok := result >= 0;
      if ok {
        if attrib.attributeType == FINGERPRINT {
          indexFingerprint := countAttributes;
        }
        if attrib.attributeType == MESSAGEINTEGRITY {
          indexMessageIntegrity := countAttributes;
        }
        countAttributes := countAttributes + 1;
        attrs := attrs + [attrib];
      }
    }

    // ---- what was read -----------------------------------------------------------------

    method HowManyBytesNeeded() returns (n: nat)
      requires Valid()
      ensures n == BytesNeeded(mode, fed)
    {
      var currentSize := stream.GetSize();
      if state == HeaderNotRead {
        return HEADER_SIZE - currentSize;
      }
      if state == HeaderValidated {
        return msgLength + HEADER_SIZE - currentSize;
      }
      return 0;
    }

    /** The last attribute of a type among those recorded, in whatever state. */
    method GetAttributeByType(t: nat) returns (r: SA.Option<StunAttribute>)
      requires Valid()
      ensures r == if Find(attrs, t) == -1 then SA.None else SA.Some(attrs[Find(attrs, t)])
    {
      var slot := mapAttributes.Lookup(t);
      if slot == -1 {
        return SA.None;
      }
      r := SA.Some(mapAttributes.nodes[slot].value);
    }

    /** The attribute at a position among those recorded, in whatever state. */
    method GetAttributeByIndex(index: nat) returns (r: SA.Option<StunAttribute>)
      requires Valid()
      modifies mapAttributes.Repr
      ensures Valid() && fed == old(fed) && attrs == old(attrs)
      ensures r == if index < |attrs| then SA.Some(attrs[index]) else SA.None
    {
      var slot := mapAttributes.LookupByIndex(index);
      if slot == -1 {
        return SA.None;
      }
      mapAttributes.ValueAt(index);
      r := SA.Some(mapAttributes.nodes[slot].value);
    }

    /** After an error, all recorded attributes but the last lie within the bytes there are;
        the last one does exactly if it was read to its end. */
    lemma RecordedAfterError()
      requires Valid() && state == ParseError
      ensures stream.bytes <= fed
      ensures forall i :: 0 <= i < |attrs| - 1 ==> attrs[i].offset + attrs[i].size <= |stream.bytes|
      ensures attrs != [] ==>
        var s, last := stream.bytes, |attrs| - 1;
        && |s| >= HEADER_SIZE && transactionid == s[4..HEADER_SIZE] && attrs[last].offset <= |s|
        && (attrs[last].offset + attrs[last].size <= |s| <==> Placed(s, attrs, last))
    {
      StoppedWithin(stream.bytes, fed, attrs, transactionid);
    }

    /** The last attribute of this type, if there is one, lies within the bytes there are. */
    ghost predicate Readable(t: nat)
      reads this, stream
    {
      Find(attrs, t) != -1 ==> attrs[Find(attrs, t)].offset + attrs[Find(attrs, t)].size <= |stream.bytes|
    }

    /** Its bytes. */
    ghost function ValueHere(t: nat): SA.Option<seq<byte>>
      requires Readable(t)
      reads this, stream
    {
      if Find(attrs, t) == -1 then SA.None else SA.Some(ValueOf(stream.bytes, attrs[Find(attrs, t)]))
    }

    ghost function AddressHere(t: nat): SA.Option<SA.Address>
      requires Readable(t)
      reads this, stream
    {
      match ValueHere(t)
      case None => SA.None
      case Some(v) => SA.DecodeAddress(v)
    }

    /** An attribute that may be read, and if it is no address, its older equivalent too. */
    ghost predicate EitherReadable(t: nat, older: nat)
      reads this, stream
    {
      Readable(t) && (AddressHere(t) == SA.None ==> Readable(older))
    }

    ghost function EitherHere(t: nat, older: nat): SA.Option<SA.Address>
      requires EitherReadable(t, older)
      reads this, stream
    {
      if AddressHere(t).Some? then AddressHere(t) else AddressHere(older)
    }

    /** The bytes of the last attribute of a type; none before the message is complete, and
        after an error those that were recorded, if they are there. */
    method GetValue(t: nat) returns (r: SA.Option<seq<byte>>)
      requires Valid() && (state == ParseError ==> Readable(t))
      ensures state != BodyValidated && state != ParseError ==> r == SA.None
      ensures state == BodyValidated ==> Within(fed, attrs) && r == AttributeValue(fed, attrs, t)
      ensures state == ParseError ==> r == ValueHere(t)
    {
      var a := GetAttributeByType(t);
      if state == BodyValidated {
        GrammarWithin(mode, fed, attrs);
      }
      if a == SA.None {
        return SA.None;
      }
      if state == ParseError {
        RecordedAfterError();
      }
      var v := ReadValue(a.value);
      r := SA.Some(v);
    }

    method ReadValue(a: StunAttribute) returns (v: seq<byte>)
      requires stream.Valid() && stream.bytes != [] && a.offset + a.size <= |stream.bytes|
      ensures v == ValueOf(stream.bytes, a)
    {
      v := stream.buffer.data[a.offset..a.offset + a.size];
      var size := stream.GetSize();
      assert v == stream.buffer.data[..size][a.offset..a.offset + a.size];
    }

    method GetAddressHelper(t: nat) returns (r: SA.Option<SA.Address>)
      requires Valid() && (state == ParseError ==> Readable(t))
      ensures state != BodyValidated && state != ParseError ==> r == SA.None
      ensures state == BodyValidated ==> Within(fed, attrs) && r == AddressOf(fed, attrs, t)
      ensures state == ParseError ==> r == AddressHere(t)
      ensures r.Some? ==> r.value.Valid()
    {
      var v := GetValue(t);
      if v == SA.None {
        return SA.None;
      }
      r := SA.GetMappedAddress(v.value);
    }

    method GetOtherAddress() returns (r: SA.Option<SA.Address>)
      requires Valid() && (state == ParseError ==> EitherReadable(OTHER_ADDRESS, CHANGEDADDRESS))
      ensures state != BodyValidated && state != ParseError ==> r == SA.None
      ensures state == BodyValidated ==> Within(fed, attrs) && r == OtherAddress(fed, attrs)
      ensures state == ParseError ==> r == EitherHere(OTHER_ADDRESS, CHANGEDADDRESS)
    {
      r := GetAddressHelper(OTHER_ADDRESS);
      if r == SA.None {
        r := GetAddressHelper(CHANGEDADDRESS);
      }
    }

    method GetXorMappedAddress() returns (r: SA.Option<SA.Address>)
      requires Valid() && (state == ParseError ==> EitherReadable(XORMAPPEDADDRESS, XORMAPPEDADDRESS_OPTIONAL))
      ensures state != BodyValidated && state != ParseError ==> r == SA.None
      ensures state == BodyValidated ==> Within(fed, attrs) && r == XorMappedAddress(fed, attrs)
      ensures state == ParseError ==>
        var e := EitherHere(XORMAPPEDADDRESS, XORMAPPEDADDRESS_OPTIONAL);
        && (e.Some? ==> e.value.Valid() && |transactionid| == TRANSACTION_ID_LENGTH)
        && r == if e.None? then SA.None else SA.Some(e.value.XorMap(transactionid))
    {
      var e := GetEither(XORMAPPEDADDRESS, XORMAPPEDADDRESS_OPTIONAL);
      if e == SA.None {
        return SA.None;
      }
      IdRead();
      var a := SA.ApplyStunXorMap(e.value, transactionid);
      r := SA.Some(a);
    }

    /** An address attribute, or its older equivalent. */
    method GetEither(t: nat, older: nat) returns (r: SA.Option<SA.Address>)
      requires Valid() && (state == ParseError ==> EitherReadable(t, older))
      ensures state != BodyValidated && state != ParseError ==> r == SA.None
      ensures state == BodyValidated ==> Within(fed, attrs) && r == EitherAddress(fed, attrs, t, older)
      ensures state == ParseError ==> r == EitherHere(t, older)
      ensures r.Some? ==> r.value.Valid()
    {
      r := GetAddressHelper(t);
      if r == SA.None {
        r := GetAddressHelper(older);
      }
    }

    /** Once an attribute was recorded, the transaction id is that of the message. */
    lemma IdRead()
      requires Valid()
      ensures state == BodyValidated ==> |fed| >= HEADER_SIZE && transactionid == TransactionId(fed)
      ensures state == ParseError && attrs != [] ==> |transactionid| == TRANSACTION_ID_LENGTH
    {
      if state == ParseError {
        RecordedAfterError();
      }
    }

    method IsFingerprintAttributeValid(c: F.CrcCrypto) returns (valid: bool)
      requires Valid()
      ensures state == BodyValidated ==> (valid <==> FingerprintValid(c, fed, attrs))
      ensures state != BodyValidated ==> !valid
    {
      if state != BodyValidated {
        return false;
      }
      valid := CheckFingerprint(c);
    }

    method CheckFingerprint(c: F.CrcCrypto) returns (valid: bool)
      requires Valid() && state == BodyValidated
      ensures valid <==> FingerprintValid(c, fed, attrs)
    {
      var a := GetAttributeByType(FINGERPRINT);
      FingerprintIs(c, mode, fed, attrs, a);
      valid := FingerprintFits(c, a);
    }

    method FingerprintFits(ghost c: F.CrcCrypto, a: SA.Option<StunAttribute>) returns (valid: bool)
      requires Separate() && stream.Valid() && |stream.bytes| >= HEADER_SIZE
      requires a.Some? ==> a.value.offset + a.value.size <= |stream.bytes|
      ensures var s := stream.bytes;
        valid <==> a.Some? && a.value.size == 4 && ValueOf(s, a.value) == c.fingerprint(s[..|s| - 8])
    {
      valid := a.Some? && a.value.size == 4;
      if valid {
        valid := FingerprintMatches(c, a.value);
      }
    }

    method FingerprintMatches(ghost c: F.CrcCrypto, a: StunAttribute) returns (same: bool)
      requires a.size == 4
      requires Separate() && stream.Valid() && |stream.bytes| >= HEADER_SIZE && a.offset + a.size <= |stream.bytes|
      ensures var s := stream.bytes; same <==> ValueOf(s, a) == c.fingerprint(s[..|s| - 8])
    {
      var size := stream.GetSize();
      var used := stream.buffer.data[..size];
      assert used == stream.bytes;
      same := F.SameFingerprint(c, used[a.offset..a.offset + 4], used[..size - 8]);
    }

    /** Recomputes the digest with the length field as it was when it was taken. */
    method ValidateMessageIntegrity(c: Crypto, key: seq<byte>) returns (valid: bool)
      requires Valid()
      ensures state == BodyValidated ==> (valid <==> IntegrityValid(c, fed, attrs, key))
      ensures state != BodyValidated ==> !valid
    {
      var lastAttributeIndex := countAttributes - 1;
      if state != BodyValidated || countAttributes == 0 || indexMessageIntegrity == -1 || key == [] {
        return false;
      }
      GrammarWithin(mode, fed, attrs);
      var a := GetAttributeByType(MESSAGEINTEGRITY);
      if a == SA.None || a.value.size != 20 {
        return false;
      }
      InBounds(fed, attrs, Find(attrs, MESSAGEINTEGRITY));
      var noOtherAttributesAfterIntegrity := indexMessageIntegrity == lastAttributeIndex
        || (indexMessageIntegrity == lastAttributeIndex - 1 && indexFingerprint == lastAttributeIndex);
      if !noOtherAttributesAfterIntegrity {
        return false;
      }
      var fingerprintAdjustment := indexMessageIntegrity == lastAttributeIndex - 1;
      OffsetAligned(fed, attrs, Find(attrs, MESSAGEINTEGRITY));
      var hashed := HashedBytes(a.value.offset, fingerprintAdjustment);
      var hmaccomputed := c.hmac(key, hashed);
      var expected := ReadValue(a.value);
      valid := hmaccomputed == expected;
    }

    /** The bytes fed to the digest, piece by piece: the type, the adjusted length, and the
        rest in chunks of four up to the attribute's header. */
    method HashedBytes(offset: nat, adjust: bool) returns (hashed: seq<byte>)
      requires Separate() && stream.Valid() && stream.buffer != null
      requires HEADER_SIZE + 4 <= offset <= |stream.bytes| && offset % 4 == 0
      ensures hashed == Covered(stream.bytes, offset, adjust)
    {
      var reading := new Stream();
      reading.Attach(stream.buffer, false);
      var _, chunk16 := reading.Read(2);
      hashed := chunk16;
      var _, length := reading.Read(2);
      if adjust {
        length := Be16((U16(length, 0) - 8) % 0x1_0000);
      } else {
        Be16U16(length, 0);
      }
      var nChunks := (offset - 4 - 4) / 4;
      assert 4 + 4 * nChunks == offset - 4;
      var rest := ReadChunks(reading, nChunks);
      hashed := hashed + length + rest;
    }
  }

  /** The next bytes, read in chunks of four. */
  method ReadChunks(reading: Stream, nChunks: nat) returns (read: seq<byte>)
    requires reading.Valid() && reading.pos + 4 * nChunks <= |reading.bytes|
    modifies reading`pos
    ensures reading.Valid()
    ensures read == reading.bytes[old(reading.pos)..old(reading.pos) + 4 * nChunks]
  {
    read := [];
    for count := 0 to nChunks
      invariant reading.Valid() && reading.pos == old(reading.pos) + 4 * count
      invariant read == reading.bytes[old(reading.pos)..reading.pos]
    {
      var _, chunk32 := reading.Read(4);
      read := read + chunk32;
    }
  }

  /** The check on a fingerprint, for the attribute that is found. */
  lemma FingerprintIs(c: Crypto, allowLegacy: bool, s: seq<byte>, attrs: seq<StunAttribute>, a: SA.Option<StunAttribute>)
    requires Grammar(allowLegacy, s, attrs)
    requires a == if Find(attrs, FINGERPRINT) == -1 then SA.None else SA.Some(attrs[Find(attrs, FINGERPRINT)])
    ensures a.Some? ==> a.value.offset + a.value.size <= |s|
    ensures FingerprintValid(c, s, attrs) <==>
      a.Some? && a.value.size == 4 && ValueOf(s, a.value) == c.fingerprint(s[..|s| - 8])
  {
    if a.Some? {
      InBounds(s, attrs, Find(attrs, FINGERPRINT));
    }
  }

  lemma OffsetAligned(s: seq<byte>, attrs: seq<StunAttribute>, i: nat)
    requires Tiles(s, attrs, |s|) && i < |attrs|
    ensures attrs[i].offset % 4 == 0
  {
    BytesBehind(s, attrs, |s|, 0, i);
    StartOf(s, attrs, i);
  }

  lemma StartOf(s: seq<byte>, attrs: seq<StunAttribute>, i: nat)
    requires i < |attrs| && Placed(s, attrs, i)
    ensures attrs[i].offset == Start(attrs, i) + 4
  {}

  /** No list of attributes within the limit tiles the message. */
  ghost predicate NoReading(s: seq<byte>) {
    forall list :: Tiles(s, list, |s|) ==> |list| > MAX_NUM_ATTRIBUTES
  }

  lemma ReadingIsGrammar(allowLegacy: bool, s: seq<byte>)
    requires |s| >= HEADER_SIZE && HeaderOk(allowLegacy, s) && |s| == HEADER_SIZE + U16(s, 2)
    ensures (exists list :: Grammar(allowLegacy, s, list)) <==> !NoReading(s)
  {
    if !NoReading(s) {
      var list :| Tiles(s, list, |s|) && |list| <= MAX_NUM_ATTRIBUTES;
      assert Grammar(allowLegacy, s, list);
    }
  }

  lemma EmptyBody(allowLegacy: bool, s: seq<byte>)
    ensures |s| == HEADER_SIZE && HeaderOk(allowLegacy, s) && U16(s, 2) == 0 ==> Grammar(allowLegacy, s, [])
  {}

  lemma HeaderIs(s: seq<byte>, t: seq<byte>, l: seq<byte>, id: seq<byte>)
    requires |s| >= HEADER_SIZE && t == s[0..2] && l == s[2..4] && id == s[4..HEADER_SIZE]
    ensures U16(t, 0) == U16(s, 0) && U16(l, 0) == U16(s, 2) && U32(id, 0) == U32(s, 4)
  {}

  lemma NothingListed()
    ensures Table([]) == [] && Find([], FINGERPRINT) == -1 && Find([], MESSAGEINTEGRITY) == -1
  {}

  lemma TableAdd(list: seq<StunAttribute>, a: StunAttribute)
    ensures Table(list + [a]) == Table(list) + [(a.attributeType, a)]
    ensures forall t :: Find(list + [a], t) == if t == a.attributeType then |list| else Find(list, t)
  {
    forall t ensures Find(list + [a], t) == if t == a.attributeType then |list| else Find(list, t) {
      FindIs(list + [a], t, if t == a.attributeType then |list| else Find(list, t));
    }
  }

  /** What one turn of the loop over the attributes does at this place: one more attribute is
      recorded if its header is there, it is not too long and the table has room; and the
      reading goes on if its value and padding are there too. */
  ghost predicate Turned(s: seq<byte>, before: seq<StunAttribute>, at: nat, ok: bool, used: nat, after: seq<StunAttribute>) {
    if at + 4 > |s| || U16(s, at + 2) > MAX_ATTRIBUTE_SIZE || |before| >= MAX_NUM_ATTRIBUTES then !ok && after == before
    else
      var a := StunAttribute(U16(s, at), U16(s, at + 2), at + 4);
      && after == before + [a]
      && used == 4 + a.size + Padding(a.size)
      && (ok <==> at + used <= |s|)
  }

  lemma TurnedTiles(s: seq<byte>, before: seq<StunAttribute>, at: nat, ok: bool, used: nat, after: seq<StunAttribute>,
                    id: seq<byte>)
    requires Turned(s, before, at, ok, used, after)
    requires Tiles(s, before, at) && at < |s| && |before| <= MAX_NUM_ATTRIBUTES
    requires |s| >= HEADER_SIZE && |s| % 4 == 0 && id == s[4..HEADER_SIZE]
    ensures ok ==> used >= 4 && Tiles(s, after, at + used) && |after| <= MAX_NUM_ATTRIBUTES
    ensures !ok ==> NoReading(s) && Stopped(s, s, after, id)
  {
    if ok {
      TilesAdd(s, before, at, StunAttribute(U16(s, at), U16(s, at + 2), at + 4));
    } else {
      NextAttribute(s, before, at);
      if after == before {
        StoppedTiles(s, before, at, id);
      } else {
        StoppedShort(s, before, at, StunAttribute(U16(s, at), U16(s, at + 2), at + 4), id);
      }
    }
  }

  /** Anything that stops the reading here rules out every other reading as well. */
  lemma NextAttribute(s: seq<byte>, list: seq<StunAttribute>, at: nat)
    requires Tiles(s, list, at) && at < |s|
    ensures NoReading(s) || (
      && |list| < MAX_NUM_ATTRIBUTES
      && at + 4 <= |s|
      && U16(s, at + 2) <= MAX_ATTRIBUTE_SIZE
      && at + 4 + U16(s, at + 2) + Padding(U16(s, at + 2)) <= |s|)
  {
    if !NoReading(s) {
      var full :| Tiles(s, full, |s|) && |full| <= MAX_NUM_ATTRIBUTES;
      TilesNext(s, list, at, full);
    }
  }
}
