/** How the hash table of fasthash.h lies in its node array: which cells each bucket
    chain and the free list thread together, and what inserting and removing do to them.
    Nothing here mentions keys: `bucket` says where the key stored in a node hashes to.
 */
module FastHashLayout {
  import opened Seals
  import opened Seqs

  /** A link cell; `next` is the position of the next cell, or -1 for a null pointer. */
  datatype ItemNode = ItemNode(index: int, next: int)

  /** The ghost account of the table. Every list is written with its head last. */
  datatype Layout = Layout(
    order: seq<nat>,       // the live nodes, oldest first
    stamp: seq<nat>,       // when each node was last inserted
    clock: nat,
    chains: seq<seq<nat>>, // the bucket chains
    free: seq<nat>)        // the free list

  /** The list with this head runs through these cells. */
  ghost predicate Linked(cells: seq<ItemNode>, head: int, c: seq<nat>) {
    && head == Before(c, |c|)
    && (forall p :: 0 <= p < |c| ==> c[p] < |cells|)
    && (forall p {:trigger Before(c, p)} :: 0 <= p < |c| ==> cells[c[p]].next == Before(c, p))
  }

  ghost function Before(c: seq<nat>, p: nat): int
    requires p <= |c|
  {
    if p == 0 then -1 else c[p - 1]
  }

  /** The stamps of the listed nodes strictly increase. */
  ghost predicate Rising(stamp: seq<nat>, c: seq<nat>) {
    && (forall i :: 0 <= i < |c| ==> c[i] < |stamp|)
    && forall i, j :: 0 <= i < j < |c| ==> stamp[c[i]] < stamp[c[j]]
  }

  /** Chain t holds live nodes that hash to t, newest at the head. */
  ghost predicate ChainOk(bucket: seq<nat>, cells: seq<ItemNode>, head: int, l: Layout, t: nat)
    requires t < |l.chains|
  {
    && Linked(cells, head, l.chains[t])
    && Rising(l.stamp, l.chains[t])
    && forall p :: 0 <= p < |l.chains[t]| ==> OnChain(bucket, l, t, l.chains[t][p])
  }

  ghost predicate OnChain(bucket: seq<nat>, l: Layout, t: nat, x: nat) {
    x in l.order && x < |bucket| && bucket[x] == t
  }

  ghost predicate ChainsOk(bucket: seq<nat>, cells: seq<ItemNode>, table: seq<int>, l: Layout) {
    && |l.chains| == |table|
    && (forall t :: 0 <= t < |table| ==> ChainOk(bucket, cells, table[t], l, t))
    && (forall x :: x in l.order ==> x < |bucket| && bucket[x] < |table| && x in l.chains[bucket[x]])
  }

  ghost predicate FreeOk(cells: seq<ItemNode>, freelist: int, l: Layout) {
    && Linked(cells, freelist, l.free)
    && Distinct(l.free)
    && (forall x :: x in l.free ==> x !in l.order)
    && (forall x :: 0 <= x < |cells| ==> x in l.order || x in l.free)
    && |l.free| + |l.order| == |cells|
  }

  ghost predicate OrderOk(l: Layout) {
    && Rising(l.stamp, l.order)
    && (forall i :: 0 <= i < |l.order| ==> l.stamp[l.order[i]] < l.clock)
  }

  ghost predicate LayoutParts(bucket: seq<nat>, cells: seq<ItemNode>, table: seq<int>, freelist: int, l: Layout) {
    && |bucket| == |cells| == |l.stamp|
    && OrderOk(l)
    && ChainsOk(bucket, cells, table, l)
    && FreeOk(cells, freelist, l)
  }

  /** Seals a layout, so that whoever only passes it on does not carry its parts along. */
  datatype LayoutSeal = LayoutSeal

  ghost predicate LayoutOk(bucket: seq<nat>, cells: seq<ItemNode>, table: seq<int>, freelist: int, l: Layout) {
    && |bucket| == |cells| == |l.stamp| && |l.chains| == |table|
    && |l.free| + |l.order| == |cells|
    && (forall i :: 0 <= i < |l.order| ==> l.order[i] < |cells|)
    && forall u: LayoutSeal {:trigger Opened(u)} :: Opened(u) ==> LayoutParts(bucket, cells, table, freelist, l)
  }

  /** The nodes are partitioned: each is live or free but not both, each live node is
      on exactly one chain, the one its key hashes to, and every list is free of cycles. */
  lemma Partition(bucket: seq<nat>, cells: seq<ItemNode>, table: seq<int>, freelist: int, l: Layout, x: nat)
    requires LayoutOk(bucket, cells, table, freelist, l)
    requires x < |cells|
    ensures x in l.free <==> x !in l.order
    ensures forall t :: 0 <= t < |table| ==> (x in l.chains[t] <==> x in l.order && bucket[x] == t)
    ensures Distinct(l.free) && Distinct(l.order) && forall t :: 0 <= t < |table| ==> Distinct(l.chains[t])
    ensures |l.free| + |l.order| == |cells|
    ensures l.free == [] <==> |l.order| == |cells|
  {
    assert Opened(LayoutSeal);
    forall t | 0 <= t < |table|
      ensures Distinct(l.chains[t]) && (x in l.chains[t] <==> x in l.order && bucket[x] == t)
    {
      assert ChainOk(bucket, cells, table[t], l, t);
      if x in l.chains[t] {
        var p :| 0 <= p < |l.chains[t]| && l.chains[t][p] == x;
        assert OnChain(bucket, l, t, l.chains[t][p]);
      }
    }
  }

  /** All nodes are free, the first at the head of the free list. */
  function EmptyLayout(fsize: nat, tsize: nat): Layout {
    Layout([], seq(fsize, _ => 0), 0, seq(tsize, _ => []), seq(fsize, i requires 0 <= i < fsize => fsize - 1 - i))
  }

  lemma EmptyLayoutOk(bucket: seq<nat>, cells: seq<ItemNode>, table: seq<int>)
    requires |bucket| == |cells| > 0
    requires forall t :: 0 <= t < |table| ==> table[t] == -1
    requires forall x :: 0 <= x < |cells| ==> cells[x].next == (if x + 1 == |cells| then -1 else x + 1)
    ensures LayoutOk(bucket, cells, table, 0, EmptyLayout(|cells|, |table|))
  {
    assert Opened(LayoutSeal);
    var l := EmptyLayout(|cells|, |table|);
    forall x | 0 <= x < |cells| ensures x in l.free {
      assert l.free[|cells| - 1 - x] == x;
    }
  }

  lemma LiveDistinct(bucket: seq<nat>, cells: seq<ItemNode>, table: seq<int>, freelist: int, l: Layout)
    requires LayoutOk(bucket, cells, table, freelist, l)
    ensures Distinct(l.order)
  {
    assert Opened(LayoutSeal);
  }

  /** What a walk down chain t sees. */
  lemma ChainFacts(bucket: seq<nat>, cells: seq<ItemNode>, table: seq<int>, freelist: int, l: Layout, t: nat)
    requires LayoutOk(bucket, cells, table, freelist, l) && t < |table|
    ensures Linked(cells, table[t], l.chains[t])
  {
    assert Opened(LayoutSeal);
    assert ChainOk(bucket, cells, table[t], l, t);
  }

  /** If `hit` marks only nodes that hash to t, then the marked node nearest the head of
      chain t is the newest live marked node of all. */
  lemma NewestOnChain(bucket: seq<nat>, cells: seq<ItemNode>, table: seq<int>, freelist: int, l: Layout,
                      t: nat, p: int, hit: seq<bool>) returns (i: int)
    requires LayoutOk(bucket, cells, table, freelist, l) && t < |table|
    requires |hit| == |cells| && forall x :: 0 <= x < |hit| && hit[x] ==> bucket[x] == t
    requires -1 <= p < |l.chains[t]|
    requires forall q :: 0 <= q < |l.chains[t]| ==> l.chains[t][q] < |cells|
    requires p >= 0 ==> hit[l.chains[t][p]]
    requires forall q :: p < q < |l.chains[t]| ==> !hit[l.chains[t][q]]
    ensures -1 <= i < |l.order|
    ensures if p == -1 then i == -1 else i >= 0 && l.order[i] == l.chains[t][p]
    ensures forall j :: i < j < |l.order| ==> !hit[l.order[j]]
  {
    assert Opened(LayoutSeal);
    var c := l.chains[t];
    assert ChainOk(bucket, cells, table[t], l, t);
    i := -1;
    if p >= 0 {
      assert OnChain(bucket, l, t, c[p]);
      i :| 0 <= i < |l.order| && l.order[i] == c[p];
    }
    forall j | i < j < |l.order| ensures !hit[l.order[j]] {
      assert l.order[j] in l.order;
      assert i >= 0 ==> l.stamp[l.order[i]] < l.stamp[l.order[j]];
    }
  }

  // ---- insertion ------------------------------------------------------------------

  function Inserted(l: Layout, t: nat): (r: Layout)
    requires l.free != [] && t < |l.chains| && l.free[|l.free| - 1] < |l.stamp|
  {
    var n := |l.free| - 1;
    var x := l.free[n];
    Layout(l.order + [x], l.stamp[x := l.clock], l.clock + 1, l.chains[t := l.chains[t] + [x]], l.free[..n])
  }

  lemma FreeTop(bucket: seq<nat>, cells: seq<ItemNode>, table: seq<int>, freelist: int, l: Layout)
    requires LayoutOk(bucket, cells, table, freelist, l)
    ensures freelist == -1 <==> l.free == []
    ensures l.free != [] ==>
      0 <= freelist < |cells| && l.free[|l.free| - 1] == freelist && freelist !in l.order
  {
    assert Opened(LayoutSeal);
    if l.free != [] {
      assert freelist in l.free;
    }
  }

  lemma LinkedRest(cells: seq<ItemNode>, head: int, c: seq<nat>)
    requires Linked(cells, head, c) && c != []
    ensures 0 <= head < |cells| && Linked(cells, cells[head].next, c[..|c| - 1])
  {
    var n := |c| - 1;
    assert cells[c[n]].next == Before(c, n);
    forall p | 0 <= p < n ensures cells[c[..n][p]].next == Before(c[..n], p) {
      assert c[..n][p] == c[p];
      assert Before(c[..n], p) == Before(c, p);
    }
  }

  lemma LinkedPush(cells: seq<ItemNode>, head: int, c: seq<nat>, x: nat)
    requires Linked(cells, head, c) && x < |cells| && x !in c
    ensures Linked(cells[x := cells[x].(next := head)], x, c + [x])
  {
    var d, e := cells[x := cells[x].(next := head)], c + [x];
    forall p | 0 <= p < |e| ensures d[e[p]].next == Before(e, p) {
      if p < |c| {
        assert e[p] == c[p] && c[p] in c && Before(e, p) == Before(c, p);
      }
    }
  }

  lemma InsertChain(bucket: seq<nat>, cells: seq<ItemNode>, table: seq<int>, freelist: int, l: Layout,
                    t: nat, b: seq<nat>, c: seq<ItemNode>, u: nat)
    requires LayoutParts(bucket, cells, table, freelist, l)
    requires l.free != [] && t < |table| && u < |table|
    requires 0 <= freelist < |cells| && freelist == l.free[|l.free| - 1] && freelist !in l.order
    requires b == bucket[freelist := t] && c == cells[freelist := cells[freelist].(next := table[t])]
    ensures ChainOk(b, c, table[t := freelist][u], Inserted(l, t), u)
  {
    var r := Inserted(l, t);
    assert ChainOk(bucket, cells, table[u], l, u);
    forall p | 0 <= p < |l.chains[u]|
      ensures l.chains[u][p] != freelist && OnChain(b, r, u, l.chains[u][p])
    {
      assert OnChain(bucket, l, u, l.chains[u][p]);
    }
    if u == t {
      assert r.chains[t] == l.chains[t] + [freelist];
      LinkedPush(cells, table[t], l.chains[t], freelist);
      assert freelist == r.order[|l.order|];
      assert OnChain(b, r, t, freelist);
      forall p | 0 <= p < |l.chains[t]| ensures r.stamp[l.chains[t][p]] < r.stamp[freelist] {
        assert OnChain(bucket, l, t, l.chains[t][p]);
        var i :| 0 <= i < |l.order| && l.order[i] == l.chains[t][p];
      }
    }
  }

  lemma InsertKeepsLayout(bucket: seq<nat>, cells: seq<ItemNode>, table: seq<int>, freelist: int, l: Layout, t: nat)
    requires LayoutOk(bucket, cells, table, freelist, l)
    requires l.free != [] && t < |table|
    ensures 0 <= freelist < |cells| && freelist !in l.order && freelist == l.free[|l.free| - 1]
    ensures LayoutOk(bucket[freelist := t], cells[freelist := cells[freelist].(next := table[t])],
                     table[t := freelist], cells[freelist].next, Inserted(l, t))
    ensures Inserted(l, t).order == l.order + [freelist]
  {
    assert Opened(LayoutSeal);
    FreeTop(bucket, cells, table, freelist, l);
    var n := |l.free| - 1;
    LinkedRest(cells, freelist, l.free);
    var b, c := bucket[freelist := t], cells[freelist := cells[freelist].(next := table[t])];
    var r := Inserted(l, t);
    var table' := table[t := freelist];
    forall u | 0 <= u < |table| ensures ChainOk(b, c, table'[u], r, u) {
      InsertChain(bucket, cells, table, freelist, l, t, b, c, u);
    }
    forall x | x in r.order ensures x < |b| && b[x] < |table| && x in r.chains[b[x]] {
      if x == freelist {
        assert r.chains[t][|l.chains[t]|] == x;
      } else {
        assert x in l.order;
        var p :| 0 <= p < |l.chains[bucket[x]]| && l.chains[bucket[x]][p] == x;
        assert r.chains[bucket[x]][p] == x;
      }
    }
    forall x | 0 <= x < |c| ensures x in r.order || x in r.free {
      if x in l.order {
      } else if x == freelist {
        assert r.order[|l.order|] == x;
      } else {
        var p :| 0 <= p < |l.free| && l.free[p] == x;
        assert r.free[p] == x;
      }
    }
  }

  // ---- removal --------------------------------------------------------------------

  function Removed(l: Layout, t: nat, p: nat, i: nat): (r: Layout)
    requires t < |l.chains| && p < |l.chains[t]| && i < |l.order|
  {
    l.(order := Without(l.order, i), chains := l.chains[t := Without(l.chains[t], p)], free := l.free + [l.chains[t][p]])
  }

  /** The link cells after unlinking the p-th node of chain t and freeing it. */
  function Unlinked(cells: seq<ItemNode>, freelist: int, c: seq<nat>, p: nat): (r: seq<ItemNode>)
    requires p < |c| && forall q :: 0 <= q < |c| ==> c[q] < |cells|
    ensures |r| == |cells|
  {
    var bypass := if p + 1 == |c| then cells
                  else cells[c[p + 1] := cells[c[p + 1]].(next := cells[c[p]].next)];
    bypass[c[p] := bypass[c[p]].(next := freelist)]
  }

  lemma RisingWithout(stamp: seq<nat>, c: seq<nat>, i: nat)
    requires Rising(stamp, c) && i < |c|
    ensures Rising(stamp, Without(c, i)) && Distinct(Without(c, i)) && Distinct(c)
  {
    WithoutAt(c, i);
  }

  lemma UnlinkedChain(cells: seq<ItemNode>, head: int, freelist: int, c: seq<nat>, p: nat)
    requires Linked(cells, head, c) && Distinct(c) && p < |c|
    ensures Linked(Unlinked(cells, freelist, c, p),
                   if p + 1 == |c| then cells[c[p]].next else head, Without(c, p))
  {
    WithoutAt(c, p);
    var u, w := Unlinked(cells, freelist, c, p), Without(c, p);
    assert cells[c[p]].next == Before(c, p);
    assert Before(w, |w|) == if p + 1 == |c| then Before(c, p) else head;
    forall q | 0 <= q < |w| ensures u[w[q]].next == Before(w, q) {
      UnlinkedCell(cells, head, freelist, c, p, q);
    }
  }

  lemma UnlinkedCell(cells: seq<ItemNode>, head: int, freelist: int, c: seq<nat>, p: nat, q: nat)
    requires Linked(cells, head, c) && Distinct(c) && p < |c| && q < |c| - 1
    ensures var w := Without(c, p);
      w[q] < |cells| && Unlinked(cells, freelist, c, p)[w[q]].next == Before(w, q)
  {
    WithoutAt(c, p);
    var z := if q < p then q else q + 1;
    assert cells[c[z]].next == Before(c, z) && cells[c[p]].next == Before(c, p);
  }

  /** A list that shares no cell with chain c is not disturbed. */
  lemma UnlinkedElsewhere(cells: seq<ItemNode>, head: int, freelist: int, c: seq<nat>, p: nat, d: seq<nat>)
    requires forall q :: 0 <= q < |c| ==> c[q] < |cells| && c[q] !in d
    requires Linked(cells, head, d) && p < |c|
    ensures Linked(Unlinked(cells, freelist, c, p), head, d)
  {
    forall q | 0 <= q < |d| ensures d[q] != c[p] && (p + 1 < |c| ==> d[q] != c[p + 1]) {
      assert d[q] in d;
    }
  }

  lemma RemoveChain(bucket: seq<nat>, cells: seq<ItemNode>, table: seq<int>, freelist: int, l: Layout,
                    t: nat, p: nat, i: nat, u: nat)
    requires LayoutParts(bucket, cells, table, freelist, l)
    requires t < |table| && u < |table| && p < |l.chains[t]|
    requires i < |l.order| && l.order[i] == l.chains[t][p]
    requires forall q :: 0 <= q < |l.chains[t]| ==> l.chains[t][q] < |cells|
    ensures
      var c := l.chains[t];
      var head := if u == t && p + 1 == |c| then cells[c[p]].next else table[u];
      ChainOk(bucket, Unlinked(cells, freelist, c, p), head, Removed(l, t, p, i), u)
  {
    var c, r := l.chains[t], Removed(l, t, p, i);
    assert ChainOk(bucket, cells, table[t], l, t);
    assert ChainOk(bucket, cells, table[u], l, u);
    RisingWithout(l.stamp, c, p);
    RisingWithout(l.stamp, l.order, i);
    if u == t {
      UnlinkedChain(cells, table[t], freelist, c, p);
    } else {
      forall q | 0 <= q < |c| ensures c[q] !in l.chains[u] {
        assert OnChain(bucket, l, t, c[q]);
      }
      UnlinkedElsewhere(cells, table[u], freelist, c, p, l.chains[u]);
    }
    WithoutAt(c, p);
    forall q | 0 <= q < |r.chains[u]| ensures OnChain(bucket, r, u, r.chains[u][q]) {
      var z := if u == t && q >= p then q + 1 else q;
      assert r.chains[u][q] == l.chains[u][z];
      assert OnChain(bucket, l, u, l.chains[u][z]);
      WithoutMember(l.order, i, l.chains[u][z]);
      if u != t {
        assert OnChain(bucket, l, t, c[p]);
      }
    }
  }

  lemma RemoveFree(bucket: seq<nat>, cells: seq<ItemNode>, table: seq<int>, freelist: int, l: Layout,
                   t: nat, p: nat, i: nat)
    requires LayoutParts(bucket, cells, table, freelist, l)
    requires t < |table| && p < |l.chains[t]|
    requires i < |l.order| && l.order[i] == l.chains[t][p]
    requires forall q :: 0 <= q < |l.chains[t]| ==> l.chains[t][q] < |cells|
    ensures FreeOk(Unlinked(cells, freelist, l.chains[t], p), l.chains[t][p], Removed(l, t, p, i))
  {
    var c, r := l.chains[t], Removed(l, t, p, i);
    assert ChainOk(bucket, cells, table[t], l, t);
    forall q | 0 <= q < |c| ensures c[q] !in l.free {
      assert OnChain(bucket, l, t, c[q]);
    }
    var bypass := if p + 1 == |c| then cells
                  else cells[c[p + 1] := cells[c[p + 1]].(next := cells[c[p]].next)];
    assert Linked(bypass, freelist, l.free);
    LinkedPush(bypass, freelist, l.free, c[p]);
    RisingWithout(l.stamp, l.order, i);
    forall x | 0 <= x < |cells| ensures x in r.order || x in r.free {
      WithoutMember(l.order, i, x);
      if x == c[p] {
        assert r.free[|l.free|] == x;
      } else if x in l.free {
        var q :| 0 <= q < |l.free| && l.free[q] == x;
        assert r.free[q] == x;
      }
    }
    forall x | x in r.free ensures x !in r.order {
      WithoutMember(l.order, i, x);
    }
  }

  lemma RemoveKeepsLayout(bucket: seq<nat>, cells: seq<ItemNode>, table: seq<int>, freelist: int, l: Layout,
                          t: nat, p: nat, i: nat)
    requires LayoutOk(bucket, cells, table, freelist, l)
    requires t < |table| && p < |l.chains[t]|
    requires i < |l.order| && l.order[i] == l.chains[t][p]
    ensures forall q :: 0 <= q < |l.chains[t]| ==> l.chains[t][q] < |cells|
    ensures
      var c := l.chains[t];
      var head := if p + 1 == |c| then cells[c[p]].next else table[t];
      LayoutOk(bucket, Unlinked(cells, freelist, c, p), table[t := head], c[p], Removed(l, t, p, i))
  {
    assert Opened(LayoutSeal);
    RemoveParts(bucket, cells, table, freelist, l, t, p, i);
  }

  lemma RemoveParts(bucket: seq<nat>, cells: seq<ItemNode>, table: seq<int>, freelist: int, l: Layout,
                    t: nat, p: nat, i: nat)
    requires LayoutParts(bucket, cells, table, freelist, l)
    requires t < |table| && p < |l.chains[t]|
    requires i < |l.order| && l.order[i] == l.chains[t][p]
    ensures forall q :: 0 <= q < |l.chains[t]| ==> l.chains[t][q] < |cells|
    ensures
      var c := l.chains[t];
      var head := if p + 1 == |c| then cells[c[p]].next else table[t];
      LayoutParts(bucket, Unlinked(cells, freelist, c, p), table[t := head], c[p], Removed(l, t, p, i))
  {
    var c, r := l.chains[t], Removed(l, t, p, i);
    assert ChainOk(bucket, cells, table[t], l, t);
    var head := if p + 1 == |c| then cells[c[p]].next else table[t];
    var table' := table[t := head];
    forall u | 0 <= u < |table| ensures ChainOk(bucket, Unlinked(cells, freelist, c, p), table'[u], r, u) {
      RemoveChain(bucket, cells, table, freelist, l, t, p, i, u);
    }
    RemoveFree(bucket, cells, table, freelist, l, t, p, i);
    RisingWithout(l.stamp, l.order, i);
    WithoutAt(l.order, i);
    RemoveLive(bucket, cells, table, freelist, l, t, p, i);
  }

  /** The nodes still live are still on their chains. */
  lemma RemoveLive(bucket: seq<nat>, cells: seq<ItemNode>, table: seq<int>, freelist: int, l: Layout,
                   t: nat, p: nat, i: nat)
    requires LayoutParts(bucket, cells, table, freelist, l)
    requires t < |table| && p < |l.chains[t]|
    requires i < |l.order| && l.order[i] == l.chains[t][p]
    ensures var r := Removed(l, t, p, i);
      forall x :: x in r.order ==> x < |bucket| && bucket[x] < |table| && x in r.chains[bucket[x]]
  {
    var r := Removed(l, t, p, i);
    assert ChainOk(bucket, cells, table[t], l, t);
    RisingWithout(l.stamp, l.order, i);
    RisingWithout(l.stamp, l.chains[t], p);
    forall x | x in r.order ensures x < |bucket| && bucket[x] < |table| && x in r.chains[bucket[x]] {
      WithoutMember(l.order, i, x);
      WithoutMember(l.chains[t], p, x);
      assert x in l.order;
    }
  }

  // ---- walking all the chains -------------------------------------------------------

  /** acc lists, once each, the live nodes on the chains before t and those in c. */
  ghost predicate Listed(bucket: seq<nat>, l: Layout, acc: seq<nat>, t: nat, c: seq<nat>) {
    && Distinct(acc)
    && forall x :: x in acc <==> x in c || (x in l.order && x < |bucket| && bucket[x] < t)
  }

  lemma ListNext(bucket: seq<nat>, cells: seq<ItemNode>, table: seq<int>, freelist: int, l: Layout,
                 acc: seq<nat>, t: nat, p: nat)
    requires LayoutOk(bucket, cells, table, freelist, l)
    requires t < |table| && p < |l.chains[t]|
    requires Listed(bucket, l, acc, t, l.chains[t][p + 1..])
    ensures Listed(bucket, l, acc + [l.chains[t][p]], t, l.chains[t][p..])
    ensures l.chains[t][p] < |cells| && |acc| < |cells|
  {
    assert Opened(LayoutSeal);
    var c := l.chains[t];
    assert ChainOk(bucket, cells, table[t], l, t);
    RisingWithout(l.stamp, c, p);
    forall q | 0 <= q < |c| ensures OnChain(bucket, l, t, c[q]) {}
    assert c[p..] == [c[p]] + c[p + 1..];
    var more := acc + [c[p]];
    forall x | x in more ensures x in l.order {
      if x in c[p..] {
        assert x in c;
      }
    }
    DistinctNoLonger(more, l.order);
  }

  lemma ListChain(bucket: seq<nat>, cells: seq<ItemNode>, table: seq<int>, freelist: int, l: Layout,
                  acc: seq<nat>, t: nat)
    requires LayoutOk(bucket, cells, table, freelist, l)
    requires t < |table| && Listed(bucket, l, acc, t, l.chains[t])
    ensures Listed(bucket, l, acc, t + 1, [])
  {
    assert Opened(LayoutSeal);
    forall x: nat | x < |cells| ensures x in l.chains[t] <==> x in l.order && bucket[x] == t {
      Partition(bucket, cells, table, freelist, l, x);
    }
    assert ChainOk(bucket, cells, table[t], l, t);
    forall x | x in l.chains[t] ensures x < |bucket| {
      var p :| 0 <= p < |l.chains[t]| && l.chains[t][p] == x;
      assert OnChain(bucket, l, t, l.chains[t][p]);
    }
  }
}
