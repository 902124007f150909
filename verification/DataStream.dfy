/** CBuffer and CDataStream: a byte buffer that knows its allocation, and a cursor that
    reads, overwrites and appends, growing the buffer when it must.
 */
module DataStream {
  import opened Bytes

  /** A return code is a failure if it is negative. */
  predicate Succeeded(hr: int) {
    hr >= 0
  }

  class Buffer {
    var data: array<byte>
    var size: nat

    constructor (capacity: nat)
      ensures size == capacity && data.Length == capacity && fresh(data)
    {
      data := new byte[capacity];
      size := capacity;
    }

    /** CBuffer::SetSize. Its comparison result is stored as the return code, so the call
        always reports success, and always assigns. */
    method SetSize(n: nat) returns (hr: int)
      modifies this`size
      ensures hr == if n <= data.Length then 1 else 0
      ensures Succeeded(hr) && size == n
    {
      hr := if n <= data.Length then 1 else 0;
      if Succeeded(hr) {
        size := n;
      }
    }

    method CopyFrom(at: nat, bytes: seq<byte>)
      requires at + |bytes| <= data.Length
      modifies data
      ensures data[..] == old(data[..at]) + bytes + old(data[at + |bytes|..])
    {
      for i := 0 to |bytes|
        invariant data[..at] == old(data[..at])
        invariant data[at..at + i] == bytes[..i]
        invariant data[at + |bytes|..] == old(data[at + |bytes|..])
      {
        data[at + i] := bytes[i];
      }
      assert data[..] == data[..at] + data[at..at + |bytes|] + data[at + |bytes|..];
    }
  }

  /** What the stream holds after writing at a position inside it or at its end. */
  function Overwrite(s: seq<byte>, at: nat, bytes: seq<byte>): (r: seq<byte>)
    requires at <= |s|
  {
    if at + |bytes| <= |s| then s[..at] + bytes + s[at + |bytes|..] else s[..at] + bytes
  }

  class Stream {
    var buffer: Buffer?
    var pos: nat
    var noGrow: bool

    /** The bytes of the stream: the used part of its buffer. */
    ghost var bytes: seq<byte>
    ghost var Repr: set<object>

    ghost predicate Valid()
      reads this, Repr
    {
      && this in Repr
      && pos <= |bytes|
      && (buffer == null ==> bytes == [])
      && (buffer != null ==>
        && buffer in Repr && buffer.data in Repr
        && buffer.size <= buffer.data.Length
        && bytes == buffer.data[..buffer.size])
    }

    constructor ()
      ensures Valid() && fresh(Repr) && bytes == [] && pos == 0 && buffer == null && !noGrow
    {
      buffer, pos, noGrow := null, 0, false;
      bytes, Repr := [], {this};
    }

    method Reset()
      modifies this
      ensures Valid() && Repr == {this} && bytes == [] && pos == 0 && buffer == null && !noGrow
    {
      buffer, pos, noGrow := null, 0, false;
      bytes, Repr := [], {this};
    }

    /** Takes over a caller's buffer; for writing, from the start. */
    method Attach(b: Buffer, forWriting: bool)
      requires b.size <= b.data.Length
      modifies {this} + (if forWriting then {b} else {})
      ensures Valid() && buffer == b && pos == 0 && b.data == old(b.data) && !noGrow
      ensures Repr == {this, b, b.data}
      ensures bytes == if forWriting then [] else old(b.data[..b.size])
    {
      Reset();
      buffer := b;
      if forWriting {
        var _ := b.SetSize(0);
      }
      Repr := {this, b, b.data};
      bytes := b.data[..b.size];
    }

    method GetSize() returns (n: nat)
      requires Valid()
      ensures n == |bytes|
    {
      n := if buffer == null then 0 else buffer.size;
    }

    /** From now on writing must do with the room there is, or need not. */
    method SetNoGrow(no: bool)
      requires Valid()
      modifies this`noGrow
      ensures Valid() && noGrow == no
    {
      noGrow := no;
    }

    /** The bytes the buffer has room for. */
    function Capacity(): nat
      reads this, buffer
    {
      if buffer == null then 0 else buffer.data.Length
    }

    /** Makes room for n bytes, if there is not and may be. The buffer stays the same one if it
        has room already, and is replaced by one at least twice as large if not. */
    method Grow(n: nat) returns (ok: bool)
      requires Valid()
      modifies this`buffer, this`Repr
      ensures Valid() && fresh(Repr - old(Repr))
      ensures ok <==> n <= old(Capacity()) || !noGrow
      ensures Capacity() == if !ok || n <= old(Capacity()) then old(Capacity())
                            else if n > 2 * old(Capacity()) then n else 2 * old(Capacity())
      ensures !ok || n <= old(Capacity()) ==> buffer == old(buffer) && Repr == old(Repr)
    {
      var capacity := if buffer == null then 0 else buffer.data.Length;
      var currentSize := GetSize();
      if n <= capacity {
        return true;
      }
      if noGrow {
        return false;
      }
      var b := new Buffer(if n > capacity * 2 then n else capacity * 2);
      var _ := b.SetSize(currentSize);
      if buffer != null && currentSize > 0 {
        b.CopyFrom(0, buffer.data[..buffer.size]);
      }
      buffer := b;
      Repr := Repr + {b, b.data};
      return true;
    }

    /** Writing nothing fails, and so does writing where there is no room and may not be;
        otherwise the bytes go in at the cursor. */
    method Write(data: seq<byte>) returns (ok: bool)
      requires Valid()
      modifies Repr
      ensures Valid() && fresh(Repr - old(Repr)) && noGrow == old(noGrow)
      ensures ok <==> data != [] && (old(pos) + |data| <= old(Capacity()) || !noGrow)
      ensures bytes == if ok then Overwrite(old(bytes), old(pos), data) else old(bytes)
      ensures pos == if ok then old(pos) + |data| else old(pos)
      ensures old(buffer) != null && old(pos) + |data| <= old(buffer.data.Length) ==>
        buffer == old(buffer) && Repr == old(Repr)
      ensures buffer != null && buffer == old(buffer) ==> buffer.data == old(buffer.data)
    {
      if data == [] {
        return false;
      }
      ok := Grow(|data| + pos);
      if ok {
        Place(data);
      }
    }

    /** Writes at the cursor, where there is room. */
    method Place(data: seq<byte>)
      requires Valid() && buffer != null && pos + |data| <= buffer.data.Length
      modifies this`pos, this`bytes, buffer`size, buffer.data
      ensures Valid() && buffer.data == old(buffer.data)
      ensures bytes == Overwrite(old(bytes), old(pos), data) && pos == old(pos) + |data|
    {
      var newposition := |data| + pos;
      var currentSize := GetSize();
      buffer.CopyFrom(pos, data);
      if newposition > currentSize {
        var _ := buffer.SetSize(newposition);
      }
      bytes := Overwrite(bytes, pos, data);
      pos := newposition;
    }

    /** Writing through the buffer's data pointer, inside what is there. */
    method Poke(at: nat, data: seq<byte>)
      requires Valid() && buffer != null && at + |data| <= |bytes|
      modifies this`bytes, buffer.data
      ensures Valid() && bytes == Overwrite(old(bytes), at, data)
    {
      buffer.CopyFrom(at, data);
      bytes := Overwrite(bytes, at, data);
    }

    method Read(n: nat) returns (ok: bool, data: seq<byte>)
      requires Valid()
      modifies this`pos
      ensures Valid()
      ensures ok <==> old(pos) + n <= |bytes|
      ensures ok ==> data == bytes[old(pos)..old(pos) + n] && pos == old(pos) + n
      ensures !ok ==> data == [] && pos == old(pos)
    {
      var newpos := n + pos;
      var currentSize := GetSize();
      if newpos > currentSize {
        return false, [];
      }
      data := if n == 0 then [] else buffer.data[pos..newpos];
      pos := newpos;
      return true, data;
    }

    method SeekDirect(p: int) returns (ok: bool)
      requires Valid()
      modifies this`pos
      ensures Valid()
      ensures ok <==> 0 <= p <= |bytes|
      ensures pos == if ok then p else old(pos)
    {
      var currentSize := GetSize();
      ok := 0 <= p <= currentSize;
      if ok {
        pos := p;
      }
    }

    method SeekRelative(offset: int) returns (ok: bool)
      requires Valid()
      modifies this`pos
      ensures Valid()
      ensures ok <==> 0 <= old(pos) + offset <= |bytes|
      ensures pos == if ok then old(pos) + offset else old(pos)
    {
      ok := SeekDirect(offset + pos);
    }
  }
}
