/** What a reader has recorded when it stops at an error: attributes one behind the other, of
    which only the last can run past the bytes there are.
 */
module StunRecords {
  import opened Bytes
  import opened StunFormat
  import opened Seals

  /** All but the last attribute lie within the bytes; of the last one the header does, and
      its value does exactly if the reading could have gone on behind it. */
  ghost predicate Recorded(s: seq<byte>, attrs: seq<StunAttribute>) {
    && |attrs| <= MAX_NUM_ATTRIBUTES
    && (forall i :: 0 <= i < |attrs| - 1 ==> Placed(s, attrs, i))
    && (attrs != [] ==> Headed(s, attrs, |attrs| - 1))
  }

  predicate Headed(s: seq<byte>, attrs: seq<StunAttribute>, i: nat)
    requires i < |attrs|
  {
    var at, a := Start(attrs, i), attrs[i];
    && at + 4 <= |s| && a == StunAttribute(U16(s, at), U16(s, at + 2), at + 4) && a.size <= MAX_ATTRIBUTE_SIZE
    && (a.offset + a.size <= |s| <==> Placed(s, attrs, i))
  }

  /** Seals what is known after an error. */
  datatype StopSeal = StopSeal

  /** A reader that was fed these bytes has kept the first of them, s, and recorded this. */
  ghost predicate Stopped(s: seq<byte>, fed: seq<byte>, attrs: seq<StunAttribute>, id: seq<byte>) {
    SealedStopped(s, fed, attrs, id) == true
  }

  ghost predicate SealedStopped(s: seq<byte>, fed: seq<byte>, attrs: seq<StunAttribute>, id: seq<byte>) {
    forall u: StopSeal {:trigger Opened(u)} :: Opened(u) ==> StoppedParts(s, fed, attrs, id)
  }

  ghost predicate StoppedParts(s: seq<byte>, fed: seq<byte>, attrs: seq<StunAttribute>, id: seq<byte>) {
    && s <= fed && Recorded(s, attrs)
    && (attrs != [] ==> |s| >= HEADER_SIZE && id == s[4..HEADER_SIZE])
  }

  lemma StoppedEmpty(s: seq<byte>, id: seq<byte>)
    ensures Stopped(s, s, [], id)
  {}

  lemma StoppedFed(s: seq<byte>, fed: seq<byte>, attrs: seq<StunAttribute>, id: seq<byte>, data: seq<byte>)
    requires Stopped(s, fed, attrs, id)
    ensures Stopped(s, fed + data, attrs, id)
  {
    assert Opened(StopSeal);
  }

  /** Attributes that tile the bytes up to some place. */
  lemma StoppedTiles(s: seq<byte>, attrs: seq<StunAttribute>, at: nat, id: seq<byte>)
    requires Tiles(s, attrs, at) && |attrs| <= MAX_NUM_ATTRIBUTES
    requires |s| >= HEADER_SIZE && id == s[4..HEADER_SIZE]
    ensures Stopped(s, s, attrs, id)
  {
    if attrs != [] {
      assert Placed(s, attrs, |attrs| - 1);
    }
  }

  /** One more attribute, whose value or padding runs past the bytes. */
  lemma StoppedShort(s: seq<byte>, attrs: seq<StunAttribute>, at: nat, a: StunAttribute, id: seq<byte>)
    requires Tiles(s, attrs, at) && |attrs| < MAX_NUM_ATTRIBUTES && at + 4 <= |s| && |s| % 4 == 0
    requires a == StunAttribute(U16(s, at), U16(s, at + 2), at + 4) && a.size <= MAX_ATTRIBUTE_SIZE
    requires at + 4 + a.size + Padding(a.size) > |s|
    requires |s| >= HEADER_SIZE && id == s[4..HEADER_SIZE]
    ensures Stopped(s, s, attrs + [a], id)
  {
    var r := attrs + [a];
    BytesBehind(s, attrs, at, 0, |attrs|);
    PastEnd(at, a.size, |s|);
    forall i | 0 <= i < |r| ensures Start(r, i) == Start(attrs, i) {}
    forall i | 0 <= i < |attrs| ensures Placed(s, r, i) {
      assert Placed(s, attrs, i) && Start(r, i + 1) == Start(attrs, i + 1);
    }
    assert Headed(s, r, |attrs|);
  }

  /** Where bytes come in words, a value runs past the end if its padding does. */
  lemma PastEnd(at: nat, size: nat, n: nat)
    requires at % 4 == 0 && n % 4 == 0 && at + 4 + size + Padding(size) > n
    ensures at + 4 + size > n
  {
    assert (at + 4 + (size + Padding(size))) % 4 == 0;
  }

  /** Bytes behind a message change nothing in it. */
  lemma StoppedBehind(allowLegacy: bool, s: seq<byte>, attrs: seq<StunAttribute>, id: seq<byte>, data: seq<byte>)
    requires Grammar(allowLegacy, s, attrs) && id == s[4..HEADER_SIZE]
    ensures Stopped(s + data, s + data, attrs, id)
  {
    forall i | 0 <= i < |attrs| ensures Placed(s + data, attrs, i) {
      assert Placed(s, attrs, i);
    }
    assert (s + data)[4..HEADER_SIZE] == s[4..HEADER_SIZE];
    StoppedTiles(s + data, attrs, |s|, id);
  }

  /** What was recorded, opened. */
  lemma StoppedWithin(s: seq<byte>, fed: seq<byte>, attrs: seq<StunAttribute>, id: seq<byte>)
    requires Stopped(s, fed, attrs, id)
    ensures s <= fed && |attrs| <= MAX_NUM_ATTRIBUTES
    ensures forall i :: 0 <= i < |attrs| - 1 ==> attrs[i].offset + attrs[i].size <= |s|
    ensures attrs != [] ==>
      var last := |attrs| - 1;
      && |s| >= HEADER_SIZE && id == s[4..HEADER_SIZE]
      && HEADER_SIZE + 4 <= attrs[last].offset <= |s|
      && (attrs[last].offset + attrs[last].size <= |s| <==> Placed(s, attrs, last))
  {
    assert Opened(StopSeal);
    forall i | 0 <= i < |attrs| - 1 ensures attrs[i].offset + attrs[i].size <= |s| {
      assert Placed(s, attrs, i);
    }
    if attrs != [] {
      StartsBehind(s, attrs, |attrs| - 1);
    }
  }

  lemma {:induction false} StartsBehind(s: seq<byte>, attrs: seq<StunAttribute>, i: nat)
    requires i < |attrs| && forall j :: 0 <= j < i ==> Placed(s, attrs, j)
    ensures Start(attrs, i) >= HEADER_SIZE
    decreases i
  {
    if i > 0 {
      StartsBehind(s, attrs, i - 1);
      assert Placed(s, attrs, i - 1);
    }
  }
}
