/** The state of CPoll of polling.cpp as values: the vector of registered sockets, the
    entries of the hash table from socket to position, and the events of the last poll().
 */
module PollState {
  import opened Seals
  import opened Seqs
  import opened AssocList

  datatype PollFd = PollFd(fd: int, events: bv16, revents: bv16)

  /** An event waiting to be delivered: a socket and what poll() reported for it. */
  type Event = (int, bv16)

  ghost function Pending(fds: seq<PollFd>): set<Event> {
    set i | 0 <= i < |fds| && fds[i].revents != 0 :: (fds[i].fd, fds[i].revents)
  }

  /** What is still pending, what poll() last marked, what has been handed out of it since,
      in order, and what was lost because its socket was removed. */
  datatype History = History(pending: set<Event>, marked: set<Event>, delivered: seq<Event>, dropped: set<Event>)
  {
    /** Every marked event is delivered once, dropped or still pending, and only one of these. */
    ghost predicate Accounted() {
      && Distinct(delivered)
      && marked == pending + dropped + Handed(delivered)
      && pending !! dropped && Handed(delivered) !! pending && Handed(delivered) !! dropped
    }

    ghost function Deliver(e: Event): History {
      this.(pending := pending - {e}, delivered := delivered + [e])
    }

    ghost function Drop(rest: set<Event>): History {
      this.(pending := rest, dropped := dropped + (pending - rest))
    }

    /** A socket is gone, and with it whatever was pending on it. */
    ghost function Unregister(fd: int): History {
      Drop(set e | e in pending && e.0 != fd)
    }
  }

  ghost function Handed(s: seq<Event>): set<Event> {
    set e | e in s
  }

  ghost predicate DistinctFds(fds: seq<PollFd>) {
    forall i, j :: 0 <= i < j < |fds| ==> fds[i].fd != fds[j].fd
  }

  /** The vector after poll() has stored its findings. */
  function Polled(fds: seq<PollFd>, ready: seq<bv16>): (r: seq<PollFd>)
    requires |ready| == |fds|
    ensures |r| == |fds|
    ensures forall i :: 0 <= i < |r| ==> r[i] == fds[i].(revents := ready[i])
  {
    seq(|fds|, i requires 0 <= i < |fds| => fds[i].(revents := ready[i]))
  }

  /** The same sockets at the same places, with the same event masks. */
  ghost predicate SameSockets(a: seq<PollFd>, b: seq<PollFd>) {
    |a| == |b| && forall i :: 0 <= i < |a| ==> a[i].fd == b[i].fd && a[i].events == b[i].events
  }

  // ---- what each change of the vector does to the pending events --------------------

  lemma PendingPush(fds: seq<PollFd>, p: PollFd)
    requires p.revents == 0
    ensures Pending(fds + [p]) == Pending(fds)
  {
    forall e | e in Pending(fds) ensures e in Pending(fds + [p]) {
      var i :| 0 <= i < |fds| && fds[i].revents != 0 && e == (fds[i].fd, fds[i].revents);
      assert (fds + [p])[i] == fds[i];
    }
  }

  lemma PendingClear(fds: seq<PollFd>, i: nat)
    requires i < |fds| && DistinctFds(fds) && fds[i].revents != 0
    ensures (fds[i].fd, fds[i].revents) in Pending(fds)
    ensures Pending(fds[i := fds[i].(revents := 0)]) == Pending(fds) - {(fds[i].fd, fds[i].revents)}
  {
    var r := fds[i := fds[i].(revents := 0)];
    forall e | e in Pending(fds) && e != (fds[i].fd, fds[i].revents) ensures e in Pending(r) {
      var j :| 0 <= j < |fds| && fds[j].revents != 0 && e == (fds[j].fd, fds[j].revents);
      assert r[j] == fds[j];
    }
  }

  lemma PendingEvents(fds: seq<PollFd>, i: nat, events: bv16)
    requires i < |fds|
    ensures Pending(fds[i := fds[i].(events := events)]) == Pending(fds)
  {
    var r := fds[i := fds[i].(events := events)];
    forall e | e in Pending(fds) ensures e in Pending(r) {
      var j :| 0 <= j < |fds| && fds[j].revents != 0 && e == (fds[j].fd, fds[j].revents);
      assert r[j].revents == fds[j].revents && r[j].fd == fds[j].fd;
    }
  }

  /** The vector with slot i overwritten by the last one and the last one dropped. */
  function SwapOut(fds: seq<PollFd>, i: nat): (r: seq<PollFd>)
    requires i < |fds|
    ensures |r| == |fds| - 1
  {
    fds[i := fds[|fds| - 1]][..|fds| - 1]
  }

  lemma PendingSwapOut(fds: seq<PollFd>, i: nat)
    requires i < |fds| && DistinctFds(fds)
    ensures Pending(SwapOut(fds, i)) == set e | e in Pending(fds) && e.0 != fds[i].fd
    ensures DistinctFds(SwapOut(fds, i))
  {
    var r := SwapOut(fds, i);
    var n := |fds| - 1;
    forall e | e in Pending(fds) && e.0 != fds[i].fd ensures e in Pending(r) {
      var j :| 0 <= j < |fds| && fds[j].revents != 0 && e == (fds[j].fd, fds[j].revents);
      assert r[if j == n then i else j] == fds[j];
    }
  }

  /** The vector and the entries of the hash table say the same, slot by slot. */
  ghost predicate AgreeOn(fds: seq<PollFd>, c: seq<(int, nat)>) {
    && |c| == |fds|
    && DistinctKeys(c)
    && forall k: int, v: nat :: (k, v) in c <==> v < |fds| && fds[v].fd == k
  }

  lemma AgreeDistinct(fds: seq<PollFd>, c: seq<(int, nat)>)
    requires AgreeOn(fds, c)
    ensures DistinctFds(fds)
  {
    forall i, j | 0 <= i < j < |fds| ensures fds[i].fd != fds[j].fd {
      assert (fds[i].fd, i) in c && (fds[j].fd, j) in c;
    }
  }

  /** Looking a socket up finds its slot, and fails exactly when it is not registered. */
  lemma AgreeFind(fds: seq<PollFd>, c: seq<(int, nat)>, k: int)
    requires AgreeOn(fds, c)
    ensures LastIndex(c, k) == -1 <==> forall p :: p in fds ==> p.fd != k
    ensures LastIndex(c, k) != -1 ==> c[LastIndex(c, k)].1 < |fds| && fds[c[LastIndex(c, k)].1].fd == k
  {
    if LastIndex(c, k) != -1 {
      assert (k, c[LastIndex(c, k)].1) in c;
    } else {
      forall i | 0 <= i < |fds| ensures fds[i].fd != k {
        assert (fds[i].fd, i) in c;
      }
    }
  }

  lemma AgreeLast(fds: seq<PollFd>, c: seq<(int, nat)>, j: int)
    requires AgreeOn(fds, c) && fds != [] && j == LastIndex(c, fds[|fds| - 1].fd)
    ensures 0 <= j < |c| && c[j] == (fds[|fds| - 1].fd, |fds| - 1)
  {
    var e := (fds[|fds| - 1].fd, |fds| - 1);
    assert e in c;
    LastOfDistinct(c, e);
  }

  lemma AgreeAdd(fds: seq<PollFd>, c: seq<(int, nat)>, p: PollFd)
    requires AgreeOn(fds, c) && LastIndex(c, p.fd) == -1
    ensures AgreeOn(fds + [p], c + [(p.fd, |fds|)])
  {
    AgreeFind(fds, c, p.fd);
  }

  /** Removing slot i: the last socket moves into it, and its entry is corrected. */
  lemma AgreeRemove(fds: seq<PollFd>, c: seq<(int, nat)>, i: nat, j: nat)
    requires AgreeOn(fds, c) && i < |fds|
    requires j < |c| && c[j] == (fds[|fds| - 1].fd, |fds| - 1)
    ensures AgreeOn(SwapOut(fds, i), Pop(c[j := (c[j].0, i)], fds[i].fd))
  {
    var n := |fds| - 1;
    var d, r := c[j := (c[j].0, i)], SwapOut(fds, i);
    var fd := fds[i].fd;
    AgreeDistinct(fds, c);
    forall k: int, v: nat ensures (k, v) in Pop(d, fd) <==> v < |r| && r[v].fd == k {
      MemberStore(c, j, i, (k, v));
      MemberPop(d, fd, (k, v));
    }
    MemberStore(c, j, i, (fd, i));
    MemberPop(d, fd, (fd, i));
    assert (fd, i) in c;
    MemberStore(c, j, i, (fd, i));
    LastOfDistinct(d, (fd, i));
  }

  /** Changing anything but the socket of a slot leaves the agreement alone. */
  lemma AgreeSlot(fds: seq<PollFd>, c: seq<(int, nat)>, i: nat, p: PollFd)
    requires AgreeOn(fds, c) && i < |fds| && p.fd == fds[i].fd
    ensures AgreeOn(fds[i := p], c)
  {}

  // ---- the invariant of the poller ----------------------------------------------------

  /** Seals the invariant, so that whoever only passes it on does not carry its parts along. */
  datatype PollerSeal = PollerSeal

  ghost predicate Ok(fds: seq<PollFd>, c: seq<(int, nat)>, unread: nat, h: History) {
    forall u: PollerSeal {:trigger Opened(u)} :: Opened(u) ==> OkParts(fds, c, unread, h)
  }

  /** Vector and table agree, and no more events are pending than are counted unread. */
  ghost predicate OkParts(fds: seq<PollFd>, c: seq<(int, nat)>, unread: nat, h: History) {
    && AgreeOn(fds, c)
    && h.pending == Pending(fds)
    && |h.pending| <= unread
    && h.Accounted()
  }

  lemma OkEmpty()
    ensures Ok([], [], 0, History({}, {}, [], {}))
  {}

  /** A poller whose vector is longer than its table has no valid state. */
  lemma OkLengths(fds: seq<PollFd>, c: seq<(int, nat)>, unread: nat, h: History)
    requires Ok(fds, c, unread, h)
    ensures |fds| == |c|
    ensures unread == 0 ==> h.pending == {}
    ensures (forall i :: 0 <= i < |fds| ==> fds[i].revents == 0) ==> h.pending == {}
  {
    assert Opened(PollerSeal);
  }

  lemma OkFind(fds: seq<PollFd>, c: seq<(int, nat)>, unread: nat, h: History, k: int)
    requires Ok(fds, c, unread, h)
    ensures LastIndex(c, k) == -1 <==> forall p :: p in fds ==> p.fd != k
    ensures LastIndex(c, k) != -1 ==> c[LastIndex(c, k)].1 < |fds| && fds[c[LastIndex(c, k)].1].fd == k
  {
    assert Opened(PollerSeal);
    AgreeFind(fds, c, k);
  }

  lemma KeepAdd(fds: seq<PollFd>, c: seq<(int, nat)>, unread: nat, h: History, p: PollFd)
    requires Ok(fds, c, unread, h) && LastIndex(c, p.fd) == -1 && p.revents == 0
    ensures Ok(fds + [p], c + [(p.fd, |fds|)], unread, h)
  {
    assert Opened(PollerSeal);
    PendingPush(fds, p);
    AgreeAdd(fds, c, p);
  }

  lemma DropAccounted(h: History, rest: set<Event>)
    requires h.Accounted() && rest <= h.pending
    ensures h.Drop(rest).Accounted() && |rest| <= |h.pending|
  {
    assert h.pending == rest + (h.pending - rest);
  }

  lemma KeepRemove(fds: seq<PollFd>, c: seq<(int, nat)>, unread: nat, h: History, i: nat, j: int)
    requires Ok(fds, c, unread, h) && i < |fds| && j == LastIndex(c, fds[|fds| - 1].fd)
    ensures 0 <= j < |c| && c[j] == (fds[|fds| - 1].fd, |fds| - 1)
    ensures Ok(SwapOut(fds, i), Pop(c[j := (c[j].0, i)], fds[i].fd), unread, h.Unregister(fds[i].fd))
  {
    assert Opened(PollerSeal);
    AgreeLast(fds, c, j);
    AgreeRemove(fds, c, i, j);
    AgreeDistinct(fds, c);
    PendingSwapOut(fds, i);
    DropAccounted(h, Pending(SwapOut(fds, i)));
  }

  lemma KeepChange(fds: seq<PollFd>, c: seq<(int, nat)>, unread: nat, h: History, i: nat, events: bv16)
    requires Ok(fds, c, unread, h) && i < |fds|
    ensures Ok(fds[i := fds[i].(events := events)], c, unread, h)
  {
    assert Opened(PollerSeal);
    PendingEvents(fds, i, events);
    AgreeSlot(fds, c, i, fds[i].(events := events));
  }

  lemma DeliverAccounted(h: History, e: Event)
    requires h.Accounted() && e in h.pending
    ensures h.Deliver(e).Accounted() && |h.pending - {e}| == |h.pending| - 1
  {
    assert e !in Handed(h.delivered);
    assert Handed(h.delivered + [e]) == Handed(h.delivered) + {e};
  }

  lemma KeepDeliver(fds: seq<PollFd>, c: seq<(int, nat)>, unread: nat, h: History, i: nat)
    requires Ok(fds, c, unread, h) && i < |fds| && fds[i].revents != 0
    ensures (fds[i].fd, fds[i].revents) in h.pending && unread > 0
    ensures Ok(fds[i := fds[i].(revents := 0)], c, unread - 1, h.Deliver((fds[i].fd, fds[i].revents)))
  {
    assert Opened(PollerSeal);
    var e := (fds[i].fd, fds[i].revents);
    AgreeDistinct(fds, c);
    PendingClear(fds, i);
    AgreeSlot(fds, c, i, fds[i].(revents := 0));
    DeliverAccounted(h, e);
  }

  /** Once nothing is pending, everything marked was delivered or dropped, and the next
      poll() starts a new account. */
  lemma KeepPoll(fds: seq<PollFd>, c: seq<(int, nat)>, unread: nat, h: History, ready: seq<bv16>)
    requires Ok(fds, c, unread, h) && h.pending == {} && |ready| == |fds|
    ensures h.marked == h.dropped + Handed(h.delivered)
    ensures var p := Pending(Polled(fds, ready)); Ok(Polled(fds, ready), c, |p|, History(p, p, [], {}))
  {
    assert Opened(PollerSeal);
    AgreePolled(fds, c, ready);
  }

  lemma AgreePolled(fds: seq<PollFd>, c: seq<(int, nat)>, ready: seq<bv16>)
    requires AgreeOn(fds, c) && |ready| == |fds|
    ensures AgreeOn(Polled(fds, ready), c)
  {}
}

/** CPoll of polling.cpp: a dense vector of registered sockets, a hash table from socket
    to position, and a rotating scan that hands out the events the last poll() found.
 */
module Polling {
  import opened AssocList
  import opened PollState
  import FastHash
  import CircularIndex
  import Primes

  datatype WaitResult = Failed | NoEvent | Delivered(fd: int, eventflags: bv32)

  /** FastHash_Hash of a signed int: the value modulo the size of size_t. */
  function SizeHash(x: int): nat {
    x % 0x1_0000_0000_0000_0000
  }

  /** Where a scan starts: the rotation, unless the vector has become too short for it. */
  function Turn(rotation: nat, size: nat): nat {
    if rotation < size then rotation else 0
  }

  /** The slot k places after `start` is the first with an event. */
  ghost predicate FirstAt(fds: seq<PollFd>, start: nat, k: nat) {
    && start < |fds| && k < |fds| && fds[CircularIndex.Slot(start, k, |fds|)].revents != 0
    && forall j :: 0 <= j < k ==> fds[CircularIndex.Slot(start, j, |fds|)].revents == 0
  }

  /** The event handed out is that of the first slot that has one, from the rotation on and
      around the end; it is cleared, nothing else changes, and the next scan starts one slot
      further on. */
  ghost predicate TakesTurn(before: seq<PollFd>, rotation: nat, after: seq<PollFd>, next: nat, r: WaitResult) {
    exists k: nat :: FirstAt(before, Turn(rotation, |before|), k) && Cleared(before, rotation, k, after, next, r)
  }

  ghost predicate Cleared(before: seq<PollFd>, rotation: nat, k: nat, after: seq<PollFd>, next: nat, r: WaitResult)
    requires FirstAt(before, Turn(rotation, |before|), k)
  {
    var i := CircularIndex.Slot(Turn(rotation, |before|), k, |before|);
    && after == before[i := before[i].(revents := 0)]
    && r.Delivered? && r.fd == before[i].fd && next == Turn(rotation, |before|) + 1
  }

  /** The rotation after so many deliveries, as long as no socket comes or goes. */
  function Rotated(rotation: nat, size: nat, deliveries: nat): nat {
    if deliveries == 0 then rotation else Turn(Rotated(rotation, size, deliveries - 1), size) + 1
  }

  /** The scans start at one slot after the other, around the end and on: in as many
      deliveries as there are slots, each slot is looked at first once. */
  lemma {:induction false} TurnsCycle(rotation: nat, size: nat, deliveries: nat)
    requires deliveries < size
    ensures Turn(Rotated(rotation, size, deliveries), size)
         == CircularIndex.Slot(if rotation < size then rotation else 0, deliveries, size)
    decreases deliveries
  {
    if deliveries > 0 {
      TurnsCycle(rotation, size, deliveries - 1);
    }
  }

  /** A slot that is looked at first and has an event has it handed out. */
  lemma FirstLookWins(before: seq<PollFd>, rotation: nat, after: seq<PollFd>, next: nat, r: WaitResult)
    requires TakesTurn(before, rotation, after, next, r)
    requires before != [] && before[Turn(rotation, |before|)].revents != 0
    ensures var i := Turn(rotation, |before|); r.Delivered? && r.fd == before[i].fd && after[i].revents == 0
  {
    var k: nat :| FirstAt(before, Turn(rotation, |before|), k) && Cleared(before, rotation, k, after, next, r);
    assert CircularIndex.Slot(Turn(rotation, |before|), 0, |before|) == Turn(rotation, |before|);
    if k > 0 {
      assert false;
    }
  }

  class CPoll {
    const toNative: bv32 -> bv16
    const fromNative: bv16 -> bv32
    var fds: seq<PollFd>
    var rotation: nat
    var unreadcount: nat
    var initialized: bool
    var hashtable: FastHash.FastHash<int, nat>
    ghost var h: History

    ghost predicate Valid()
      reads this, hashtable, hashtable.Repr
    {
      && hashtable.Valid() && this !in hashtable.Repr
      && Ok(fds, hashtable.contents, unreadcount, h)
    }

    constructor (maxSockets: nat, toNative: bv32 -> bv16, fromNative: bv16 -> bv32)
      requires maxSockets > 0
      ensures Valid() && fresh(this) && fresh(hashtable.Repr)
      ensures initialized && fds == [] && hashtable.fsize == maxSockets
      ensures Primes.IsPrime(hashtable.tsize) && hashtable.tsize >= maxSockets
      ensures forall q: nat :: Primes.IsPrime(q) && q >= maxSockets ==> hashtable.tsize <= q
      ensures h == History({}, {}, [], {})
      ensures this.toNative == toNative && this.fromNative == fromNative
    {
      var width := Primes.FindPrime(maxSockets);
      hashtable := new FastHash.FastHash<int, nat>(maxSockets, width, SizeHash);
      this.toNative, this.fromNative := toNative, fromNative;
      fds, rotation, unreadcount, initialized := [], 0, 0, true;
      h := History({}, {}, [], {});
      OkEmpty();
    }

    method Close()
      requires Valid()
      modifies this
      ensures fds == [] && !initialized && hashtable == old(hashtable)
    {
      fds := [];
      initialized := false;
    }

    /** The agreement survives exactly when the table was not full: the insertion's
        result is not looked at, so a socket too many is polled but never found again. */
    method Add(fd: int, eventflags: bv32) returns (ok: bool)
      requires Valid()
      modifies this`fds, hashtable.Repr
      ensures ok <==> initialized && forall p :: p in old(fds) ==> p.fd != fd
      ensures fds == if ok then old(fds) + [PollFd(fd, toNative(eventflags), 0)] else old(fds)
      ensures ok ==> (Valid() <==> |old(fds)| < hashtable.fsize)
      ensures !ok ==> Valid()
    {
      var pos := |fds|;
      if !initialized {
        return false;
      }
      var slot := hashtable.Lookup(fd);
      OkFind(fds, hashtable.contents, unreadcount, h, fd);
      if slot != -1 {
        return false;
      }
      var pfd := PollFd(fd, toNative(eventflags), 0);
      KeepAdd(fds, hashtable.contents, unreadcount, h, pfd);
      fds := fds + [pfd];
      OkLengths(fds[..pos], hashtable.contents, unreadcount, h);
      var _ := hashtable.Insert(fd, pos);
      if Ok(fds, hashtable.contents, unreadcount, h) {
        OkLengths(fds, hashtable.contents, unreadcount, h);
      }
      return true;
    }

    /** The slot of a registered socket. */
    method Position(fd: int) returns (pos: int)
      requires Valid()
      ensures pos == -1 <==> forall p :: p in fds ==> p.fd != fd
      ensures pos != -1 ==> 0 <= pos < |fds| && fds[pos].fd == fd
    {
      var slot := hashtable.Lookup(fd);
      OkFind(fds, hashtable.contents, unreadcount, h, fd);
      if slot == -1 {
        return -1;
      }
      pos := hashtable.nodes[slot].value;
    }

    /** Unregisters a socket; its pending event, if any, is dropped. */
    method Remove(fd: int) returns (ok: bool)
      requires Valid()
      modifies this`fds, this`h, hashtable.Repr
      ensures Valid()
      ensures ok <==> initialized && exists p :: p in old(fds) && p.fd == fd
      ensures !ok ==> fds == old(fds) && h == old(h)
      ensures ok ==> exists i :: 0 <= i < |old(fds)| && old(fds)[i].fd == fd && fds == SwapOut(old(fds), i)
      ensures ok ==> h == old(h).Unregister(fd)
    {
      if !initialized || |fds| == 0 {
        return false;
      }
      var pos := Position(fd);
      if pos == -1 || pos >= |fds| || fds[pos].fd != fd {
        return false;
      }
      RemoveSlot(fd, pos);
      return true;
    }

    /** The part of Remove that runs once the slot is found. */
    method RemoveSlot(fd: int, pos: nat)
      requires Valid() && pos < |fds| && fds[pos].fd == fd
      modifies this`fds, this`h, hashtable.Repr
      ensures Valid() && fds == SwapOut(old(fds), pos)
      ensures h == old(h).Unregister(fd)
    {
      ghost var j := LastIndex(hashtable.contents, fds[|fds| - 1].fd);
      KeepRemove(fds, hashtable.contents, unreadcount, h, pos, j);
      Unlink(fd, pos, j);
      h := h.Unregister(fd);
    }

    method Unlink(fd: int, pos: nat, ghost j: int)
      requires hashtable.Valid() && this !in hashtable.Repr && pos < |fds|
      requires 0 <= j < |hashtable.contents| && j == LastIndex(hashtable.contents, fds[|fds| - 1].fd)
      requires hashtable.contents[j] == (fds[|fds| - 1].fd, |fds| - 1)
      modifies this`fds, hashtable.Repr
      ensures hashtable.Valid() && fds == SwapOut(old(fds), pos)
      ensures hashtable.contents == Pop(old(hashtable.contents)[j := (old(fds)[|old(fds)| - 1].fd, pos)], fd)
    {
      MoveLast(pos, j);
      var _ := hashtable.Remove(fd);
      fds := fds[..|fds| - 1];
    }

    /** Moves the last socket into a slot, in the vector and in the table. */
    method MoveLast(pos: nat, ghost j: int)
      requires hashtable.Valid() && this !in hashtable.Repr && pos < |fds|
      requires 0 <= j < |hashtable.contents| && j == LastIndex(hashtable.contents, fds[|fds| - 1].fd)
      requires hashtable.contents[j] == (fds[|fds| - 1].fd, |fds| - 1)
      modifies this`fds, hashtable.Repr
      ensures hashtable.Valid()
      ensures fds == old(fds)[pos := old(fds)[|old(fds)| - 1]]
      ensures hashtable.contents == old(hashtable.contents)[j := (old(fds)[|old(fds)| - 1].fd, pos)]
    {
      var size := |fds|;
      if pos != size - 1 {
        fds := fds[pos := fds[size - 1]];
        var slot := hashtable.Lookup(fds[pos].fd);
        hashtable.Store(slot, pos, j);
      }
    }

    method ChangeEventSet(fd: int, eventflags: bv32) returns (ok: bool)
      requires Valid()
      modifies this`fds
      ensures Valid()
      ensures ok <==> initialized && exists p :: p in old(fds) && p.fd == fd
      ensures !ok ==> fds == old(fds)
      ensures ok ==> exists i :: (0 <= i < |old(fds)| && old(fds)[i].fd == fd
        && fds == old(fds)[i := old(fds)[i].(events := toNative(eventflags))])
    {
      if !initialized || |fds| == 0 {
        return false;
      }
      var pos := Position(fd);
      if pos == -1 || pos >= |fds| || fds[pos].fd != fd {
        return false;
      }
      KeepChange(fds, hashtable.contents, unreadcount, h, pos, toNative(eventflags));
      fds := fds[pos := fds[pos].(events := toNative(eventflags))];
      return true;
    }

    /** What poll() would find is given by ret and ready: negative for an error, zero for
        a timeout, otherwise the number of slots of `ready` that are not zero.
        An event still pending from the last poll() is handed out and poll() is not
        called; otherwise poll() is called, and every event of the last one has by then
        been delivered once or dropped. */
    method WaitForNextEvent(ret: int, ready: seq<bv16>) returns (r: WaitResult, ghost polled: bool)
      requires Valid()
      requires |ready| == |fds|
      requires ret > 0 ==> ret == |Pending(Polled(fds, ready))|
      modifies this`fds, this`rotation, this`unreadcount, this`h
      ensures Valid() && SameSockets(old(fds), fds)
      ensures polled <==> initialized && fds != [] && old(h).pending == {}
      ensures r == Failed <==> !initialized || (polled && ret < 0)
      ensures r == NoEvent <==> initialized && (fds == [] || (polled && ret == 0))
      ensures polled ==> old(h).marked == old(h).dropped + Handed(old(h).delivered)
      ensures r.Delivered? ==>
        var found := Pending(Polled(old(fds), ready));
        var before := if polled then History(found, found, [], {}) else old(h);
        HandsOut(before, r)
      ensures !r.Delivered? ==> h == old(h) && fds == old(fds)
      ensures r.Delivered? ==>
        TakesTurn(if polled then Polled(old(fds), ready) else old(fds), old(rotation), fds, rotation, r)
    {
      polled := false;
      if !initialized {
        return Failed, false;
      }
      if |fds| == 0 {
        return NoEvent, false;
      }
      r := FindNextEvent();
      if r == NoEvent {
        polled := true;
        r := PollAndFind(ret, ready);
      }
    }

    /** The part of WaitForNextEvent that calls poll(). */
    method PollAndFind(ret: int, ready: seq<bv16>) returns (r: WaitResult)
      requires Valid() && fds != [] && h.pending == {}
      requires |ready| == |fds|
      requires ret > 0 ==> ret == |Pending(Polled(fds, ready))|
      modifies this`fds, this`rotation, this`unreadcount, this`h
      ensures Valid() && SameSockets(old(fds), fds)
      ensures old(h).marked == old(h).dropped + Handed(old(h).delivered)
      ensures (r == Failed <==> ret < 0) && (r == NoEvent <==> ret == 0)
      ensures ret > 0 ==> var found := Pending(Polled(old(fds), ready)); HandsOut(History(found, found, [], {}), r)
      ensures ret > 0 ==> TakesTurn(Polled(old(fds), ready), old(rotation), fds, rotation, r)
      ensures ret <= 0 ==> h == old(h) && fds == old(fds)
    {
      StorePolled(ret, ready);
      if ret < 0 {
        return Failed;
      }
      if ret == 0 {
        return NoEvent;
      }
      r := FindNextEvent();
    }

    /** r is an event that was pending before, and it is pending no more. */
    ghost predicate HandsOut(before: History, r: WaitResult)
      reads this
    {
      exists e :: e in before.pending && r == Delivered(e.0, fromNative(e.1)) && h == before.Deliver(e)
    }

    /** The unread count and the vector as the call of poll() leaves them. */
    method StorePolled(ret: int, ready: seq<bv16>)
      requires Valid() && h.pending == {}
      requires |ready| == |fds|
      requires ret > 0 ==> ret == |Pending(Polled(fds, ready))|
      modifies this`fds, this`unreadcount, this`h
      ensures Valid() && SameSockets(old(fds), fds)
      ensures old(h).marked == old(h).dropped + Handed(old(h).delivered)
      ensures ret <= 0 ==> fds == old(fds) && h == old(h)
      ensures ret > 0 ==> fds == Polled(old(fds), ready) && h == History(Pending(fds), Pending(fds), [], {})
      ensures ret > 0 ==> h.pending != {}
    {
      KeepPoll(fds, hashtable.contents, unreadcount, h, ready);
      unreadcount := 0;
      if ret > 0 {
        fds := Polled(fds, ready);
        unreadcount := ret;
        h := History(Pending(fds), Pending(fds), [], {});
      }
    }

    method Deliver(slot: nat) returns (r: WaitResult)
      requires Valid() && slot < |fds| && fds[slot].revents != 0
      modifies this`fds, this`rotation, this`unreadcount, this`h
      ensures Valid() && fds == old(fds)[slot := old(fds)[slot].(revents := 0)] && rotation == old(rotation) + 1
      ensures r == Delivered(old(fds)[slot].fd, fromNative(old(fds)[slot].revents))
      ensures HandsOut(old(h), r) && old(h).pending != {}
    {
      KeepDeliver(fds, hashtable.contents, unreadcount, h, slot);
      ghost var e := (fds[slot].fd, fds[slot].revents);
      r := Delivered(fds[slot].fd, fromNative(fds[slot].revents));
      h := h.Deliver(e);
      fds := fds[slot := fds[slot].(revents := 0)];
      rotation := rotation + 1;
      unreadcount := unreadcount - 1;
    }

    /** Hands out the event of the first slot, from the rotation on, that has one. */
    method FindNextEvent() returns (r: WaitResult)
      requires Valid() && fds != []
      modifies this`fds, this`rotation, this`unreadcount, this`h
      ensures Valid() && SameSockets(old(fds), fds)
      ensures r == NoEvent <==> old(h).pending == {}
      ensures r == NoEvent ==> fds == old(fds) && h == old(h)
      ensures r != NoEvent ==> r.Delivered? && HandsOut(old(h), r)
      ensures r == NoEvent ==> Turn(rotation, |fds|) == Turn(old(rotation), |fds|)
      ensures r != NoEvent ==> TakesTurn(old(fds), old(rotation), fds, rotation, r)
    {
      var size := |fds|;
      OkLengths(fds, hashtable.contents, unreadcount, h);
      if unreadcount == 0 {
        return NoEvent;
      }
      if rotation >= size {
        rotation := 0;
      }
      for index := 0 to size
        invariant forall i :: 0 <= i < index ==> fds[CircularIndex.Slot(rotation, i, size)].revents == 0
      {
        var slot := (index + rotation) % size;
        assert slot == CircularIndex.Slot(rotation, index, size);
        if fds[slot].revents != 0 {
          assert FirstAt(fds, rotation, index);
          r := Deliver(slot);
          assert Cleared(old(fds), old(rotation), index, fds, rotation, r);
          return;
        }
      }
      forall s | 0 <= s < size ensures fds[s].revents == 0 {
        var i := if s >= rotation then s - rotation else s - rotation + size;
        assert CircularIndex.Slot(rotation, i, size) == s;
      }
      return NoEvent;
    }
  }

  /** A poller of any size, given one socket more than it has room for, is out of step. */
  method OneTooMany(n: nat, toNative: bv32 -> bv16, fromNative: bv16 -> bv32) returns (p: CPoll)
    requires n > 0
    ensures fresh(p) && p.hashtable.fsize == n && |p.fds| == n + 1 && !p.Valid()
  {
    p := new CPoll(n, toNative, fromNative);
    for i := 0 to n
      invariant p.Valid() && p.initialized && |p.fds| == i && p.hashtable.fsize == n
      invariant fresh(p.hashtable.Repr)
      invariant forall j :: 0 <= j < i ==> p.fds[j].fd == j
    {
      var _ := p.Add(i, 0);
    }
    var _ := p.Add(n, 0);
  }
}
