/** CSocketAddress, and its encoding in the address attributes of a message. */
module SocketAddress {
  import opened Bytes
  import opened DataStream

  datatype Family = IPv4 | IPv6

  datatype Option<+T> = None | Some(value: T)

  /** An address as the socket structures hold it: port and ip in network byte order. */
  datatype Address = Address(family: Family, port: seq<byte>, ip: seq<byte>)
  {
    predicate Valid() {
      |port| == 2 && |ip| == (if family == IPv4 then 4 else 16)
    }

    predicate IsIPAddressZero() {
      ip == Zeros(|ip|)
    }

    predicate IsSameIP(other: Address) {
      family == other.family && ip == other.ip
    }

    predicate IsSameIP_and_Port(other: Address)
      requires Valid() && other.Valid()
    {
      IsSameIP(other) && U16(port, 0) == U16(other.port, 0)
    }

    function GetPort(): nat
      requires Valid()
    {
      U16(port, 0)
    }

    function SetPort(p: nat): Address {
      this.(port := Be16(p))
    }

    /** Port and ip exclusive-ored with the start of the transaction id. */
    function XorMap(tid: seq<byte>): Address
      requires Valid() && |tid| == 16
    {
      Address(family, XorBytes(port, tid), XorBytes(ip, tid))
    }
  }

  /** Two valid addresses with the same ip and port are the same address. */
  lemma SameIsEqual(a: Address, b: Address)
    requires a.Valid() && b.Valid()
    ensures a.IsSameIP_and_Port(b) <==> a == b
  {
    Be16U16(a.port, 0);
    Be16U16(b.port, 0);
    assert a.port[0..2] == a.port && b.port[0..2] == b.port;
  }

  /** Masking twice with one transaction id gives the address back. */
  lemma XorMapTwice(a: Address, tid: seq<byte>)
    requires a.Valid() && |tid| == 16
    ensures a.XorMap(tid).Valid() && a.XorMap(tid).XorMap(tid) == a
  {
    XorBytesTwice(a.port, tid);
    XorBytesTwice(a.ip, tid);
  }

  /** ApplyStunXorMap: the port bytes, then a loop over the ip bytes. */
  method ApplyStunXorMap(a: Address, tid: seq<byte>) returns (r: Address)
    requires a.Valid() && |tid| == 16
    ensures r == a.XorMap(tid)
  {
    var port := [XorByte(a.port[0], tid[0]), XorByte(a.port[1], tid[1])];
    var ip := a.ip;
    for i := 0 to |a.ip|
      invariant |ip| == |a.ip|
      invariant forall j :: 0 <= j < |ip| ==> ip[j] == if j < i then XorByte(a.ip[j], tid[j]) else a.ip[j]
    {
      ip := ip[i := XorByte(ip[i], tid[i])];
    }
    assert port == XorBytes(a.port, tid);
    assert ip == XorBytes(a.ip, tid);
    r := Address(a.family, port, ip);
  }

  // ---- the address attributes -------------------------------------------------------

  /** The value of an address attribute: a zero byte, the family, the port, the ip. */
  function AddressValue(a: Address): (r: seq<byte>)
    requires a.Valid()
    ensures |r| == if a.family == IPv4 then 8 else 20
  {
    [0, if a.family == IPv4 then 1 else 2] + a.port + a.ip
  }

  /** The address in an attribute value: whatever family is not IPv4 is taken for IPv6,
      and bytes beyond the address are not looked at. */
  function DecodeAddress(v: seq<byte>): Option<Address> {
    if |v| < 4 then None
    else if v[1] == 1 then
      if |v| < 8 then None else Some(Address(IPv4, v[2..4], v[4..8]))
    else
      if |v| < 20 then None else Some(Address(IPv6, v[2..4], v[4..20]))
  }

  lemma AddressRoundTrip(a: Address)
    requires a.Valid()
    ensures DecodeAddress(AddressValue(a)) == Some(a)
  {
    var v := AddressValue(a);
    assert v[2..4] == a.port;
    assert v[4..4 + |a.ip|] == a.ip;
  }

  /** ::GetMappedAddress, reading through a stream over the attribute's bytes. */
  method GetMappedAddress(v: seq<byte>) returns (r: Option<Address>)
    ensures r == DecodeAddress(v)
  {
    var b := new Buffer(|v|);
    b.CopyFrom(0, v);
    assert b.data[..b.size] == v;
    var stream := new Stream();
    stream.Attach(b, false);
    var ok := stream.SeekDirect(1);
    if !ok {
      return None;
    }
    var okFamily, family := stream.Read(1);
    if !okFamily {
      return None;
    }
    var okPort, port := stream.Read(2);
    if !okPort {
      return None;
    }
    var n := if family[0] == 1 then 4 else 16;
    var okIp, ip := stream.Read(n);
    if !okIp {
      return None;
    }
    r := Some(Address(if family[0] == 1 then IPv4 else IPv6, port, ip));
  }
}
