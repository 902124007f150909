/** The circular list that gives the hash table access by index. */
module CircularIndex {
  import opened Seqs

  /** The slot i places after the start, in a list of n slots. */
  function Slot(start: nat, i: nat, n: nat): (r: nat)
    requires start < n && i <= n
    ensures r < n
    ensures r == (start + i) % n
  {
    var r := if start + i < n then start + i else start + i - n;
    ModOnce(start + i, n);
    r
  }

  lemma ModOnce(x: nat, n: nat)
    requires 0 < n && x < 2 * n
    ensures x % n == if x < n then x else x - n
  {}

  /** From `start`, wrapping around, the list reads idx. */
  ghost predicate Reads(list: seq<int>, start: nat, idx: seq<nat>) {
    && start < |list| && |idx| <= |list|
    && forall i :: 0 <= i < |idx| ==> list[Slot(start, i, |list|)] == idx[i]
  }

  lemma ReadsAdd(list: seq<int>, start: nat, idx: seq<nat>, x: nat)
    requires Reads(list, start, idx) && |idx| < |list|
    ensures Reads(list[Slot(start, |idx|, |list|) := x], start, idx + [x])
  {}

  lemma ReadsDropFront(list: seq<int>, start: nat, idx: seq<nat>)
    requires Reads(list, start, idx) && idx != []
    ensures list[start] == idx[0]
    ensures Reads(list, Slot(start, 1, |list|), idx[1..])
  {
    assert Slot(start, 0, |list|) == start;
    forall i | 0 <= i < |idx| - 1 ensures list[Slot(Slot(start, 1, |list|), i, |list|)] == idx[1..][i] {
      assert Slot(Slot(start, 1, |list|), i, |list|) == Slot(start, i + 1, |list|);
    }
  }

  lemma ReadsDropBack(list: seq<int>, start: nat, idx: seq<nat>)
    requires Reads(list, start, idx) && idx != []
    ensures list[Slot(start, |idx| - 1, |list|)] == idx[|idx| - 1]
    ensures Reads(list, start, idx[..|idx| - 1])
  {}

  /** What the list reads are these nodes, each once. */
  ghost predicate Lists(list: seq<int>, start: nat, idx: seq<nat>, order: seq<nat>) {
    Reads(list, start, idx) && Distinct(idx) && |idx| == |order| && forall x :: x in idx <==> x in order
  }

  /** Dropping an end of the index drops the removed node from what it lists. */
  lemma WithoutEnds(idx: seq<nat>, order: seq<nat>, i: nat)
    requires Distinct(idx) && Distinct(order) && |idx| == |order| && i < |order|
    requires forall x :: x in idx <==> x in order
    ensures idx[0] == order[i] ==>
      Distinct(idx[1..]) && (forall x :: x in idx[1..] <==> x in Without(order, i))
    ensures idx[|idx| - 1] == order[i] ==>
      Distinct(idx[..|idx| - 1]) && (forall x :: x in idx[..|idx| - 1] <==> x in Without(order, i))
    ensures idx == order && idx[0] == order[i] ==> idx[1..] == Without(order, i)
    ensures idx == order && idx[|idx| - 1] == order[i] ==> idx[..|idx| - 1] == Without(order, i)
  {
    var n := |idx| - 1;
    assert Without(idx, 0) == idx[1..] && Without(idx, n) == idx[..n];
    forall x
      ensures x in Without(order, i) <==> x in order && x != order[i]
      ensures x in idx[1..] <==> x in idx && x != idx[0]
      ensures x in idx[..n] <==> x in idx && x != idx[n]
    {
      WithoutMember(order, i, x);
      WithoutMember(idx, 0, x);
      WithoutMember(idx, n, x);
    }
  }

  /** A removed node that is read first or last is dropped at that end. */
  lemma DropEnds(list: seq<int>, start: nat, idx: seq<nat>, order: seq<nat>, i: nat)
    requires Lists(list, start, idx, order) && Distinct(order) && i < |order|
    ensures var first, last := list[start], list[Slot(start, |idx| - 1, |list|)];
      && (first == order[i] ==> Lists(list, Slot(start, 1, |list|), idx[1..], Without(order, i)))
      && (last == order[i] ==> Lists(list, start, idx[..|idx| - 1], Without(order, i)))
      && (idx == order ==> (first == order[i] <==> i == 0) && (last == order[i] <==> i == |order| - 1))
      && (idx == order && first == order[i] ==> idx[1..] == Without(order, i))
      && (idx == order && last == order[i] ==> idx[..|idx| - 1] == Without(order, i))
  {
    ReadsDropFront(list, start, idx);
    ReadsDropBack(list, start, idx);
    WithoutEnds(idx, order, i);
  }
}

/** The hash table of fasthash.h: bucket chains and a free list share one node array,
    and a circular list gives access by index until a removal from its middle.
 */
module FastHash {
  import opened Seals
  import opened Seqs
  import opened AssocList
  import opened FastHashLayout
  import opened CircularIndex

  datatype Item<K, V> = Item(key: K, value: V)

  /** Seals the table's invariant, so that the table's users do not carry it along. */
  datatype TableSeal = TableSeal

  ghost function Entries<K, V>(items: seq<Item<K, V>>, order: seq<nat>): (c: seq<(K, V)>)
    requires forall i :: 0 <= i < |order| ==> order[i] < |items|
    ensures |c| == |order|
    ensures forall i :: 0 <= i < |c| ==> c[i] == (items[order[i]].key, items[order[i]].value)
  {
    seq(|order|, i requires 0 <= i < |order| => (items[order[i]].key, items[order[i]].value))
  }

  lemma EntriesInsert<K, V>(items: seq<Item<K, V>>, order: seq<nat>, x: nat, item: Item<K, V>)
    requires forall i :: 0 <= i < |order| ==> order[i] < |items|
    requires x < |items| && x !in order
    ensures Entries(items[x := item], order + [x]) == Entries(items, order) + [(item.key, item.value)]
  {
    forall i | 0 <= i < |order| ensures order[i] != x {
      assert order[i] in order;
    }
  }

  lemma EntriesRemove<K, V>(items: seq<Item<K, V>>, order: seq<nat>, i: nat)
    requires forall i :: 0 <= i < |order| ==> order[i] < |items|
    requires i < |order|
    ensures forall j :: 0 <= j < |order| - 1 ==> Without(order, i)[j] < |items|
    ensures Entries(items, Without(order, i)) == Without(Entries(items, order), i)
  {
    WithoutAt(order, i);
    WithoutAt(Entries(items, order), i);
  }

  class FastHash<K(==, 0), V(0)> {
    const hash: K -> nat
    const fsize: nat
    const tsize: nat
    const nodes: array<Item<K, V>>
    const itemnodes: array<ItemNode>
    const lookuptable: array<int>
    const indexlist: array<int>
    var freelist: int
    var indexValid: bool
    var indexStart: nat
    var size: nat

    /** The entries, oldest first. */
    ghost var contents: seq<(K, V)>
    /** Which cells every list runs through, and where each stored key hashes to. */
    ghost var l: Layout
    ghost var bucket: seq<nat>
    /** What the index reads while it is valid. */
    ghost var idx: seq<nat>
    /** No removal from the middle of the index since the table was last empty. */
    ghost var pristine: bool

    ghost const Repr: set<object>

    // ---- the representation invariant ---------------------------------------------

    ghost predicate Shape() {
      && fsize > 0 && tsize > 0
      && nodes.Length == itemnodes.Length == indexlist.Length == fsize
      && lookuptable.Length == tsize
      && lookuptable != indexlist
      && Repr == {this, nodes, itemnodes, lookuptable, indexlist}
    }

    function Bucket(k: K): (t: nat)
      requires tsize > 0
      ensures t < tsize
    {
      hash(k) % tsize
    }

    ghost predicate Stored()
      requires Shape()
      reads this, nodes, itemnodes, lookuptable
    {
      && LayoutOk(bucket, itemnodes[..], lookuptable[..], freelist, l)
      && (forall x :: 0 <= x < fsize ==> itemnodes[x].index == x)
      && (forall x :: 0 <= x < fsize ==> bucket[x] == Bucket(nodes[x].key))
    }

    /** The index, while it is valid, reads these nodes. */
    ghost predicate Indexes(order: seq<nat>)
      requires Shape()
      reads this, indexlist
    {
      && indexStart < fsize
      && (indexValid ==> Lists(indexlist[..], indexStart, idx, order))
      && (pristine ==> indexValid && idx == order)
    }

    ghost predicate Inv()
      requires Shape()
      reads this, Repr
    {
      Stored() && Indexes(l.order) && size == |l.order| && contents == Contents()
    }

    ghost predicate Valid()
      reads this, Repr
    {
      && Shape()
      && size == |contents| == |l.order| <= fsize
      && forall u: TableSeal {:trigger Opened(u)} :: Opened(u) ==> Inv()
    }

    /** The entries as the representation has them. */
    ghost function Contents(): (c: seq<(K, V)>)
      requires Shape() && Stored()
      reads this, nodes, itemnodes, lookuptable
      ensures |c| == |l.order|
      ensures forall i :: 0 <= i < |c| ==> c[i] == (nodes[l.order[i]].key, nodes[l.order[i]].value)
    {
      Entries(nodes[..], l.order)
    }

    // ---- operations ---------------------------------------------------------------

    constructor (fsize: nat, tsize: nat, hash: K -> nat)
      requires fsize > 0 && tsize > 0
      ensures Valid() && fresh(Repr)
      ensures this.fsize == fsize && this.tsize == tsize && this.hash == hash
      ensures size == 0 && pristine && contents == []
    {
      this.fsize, this.tsize, this.hash := fsize, tsize, hash;
      nodes := new Item<K, V>[fsize];
      itemnodes := new ItemNode[fsize];
      lookuptable := new int[tsize];
      indexlist := new int[fsize];
      Repr := {this, nodes, itemnodes, lookuptable, indexlist};
      new;
      Reset();
    }

    method Reset()
      requires Shape()
      modifies this, itemnodes, lookuptable
      ensures Valid() && size == 0 && pristine && contents == []
    {
      ClearCells();
      Forget();
    }

    /** The fields of an empty table. */
    method Forget()
      requires Shape()
      requires forall t :: 0 <= t < tsize ==> lookuptable[t] == -1
      requires forall x :: 0 <= x < fsize ==> itemnodes[x] == ItemNode(x, if x + 1 == fsize then -1 else x + 1)
      modifies this
      ensures Valid() && size == 0 && pristine && contents == []
    {
      AllFree();
      size := 0;
      indexValid := true;
      indexStart := 0;
      idx, pristine, contents := [], true, [];
    }

    method AllFree()
      requires Shape()
      requires forall t :: 0 <= t < tsize ==> lookuptable[t] == -1
      requires forall x :: 0 <= x < fsize ==> itemnodes[x] == ItemNode(x, if x + 1 == fsize then -1 else x + 1)
      modifies this`freelist, this`l, this`bucket
      ensures Stored() && l.order == []
    {
      freelist := 0;
      l := EmptyLayout(fsize, tsize);
      var items := nodes[..];
      bucket := seq(fsize, i requires 0 <= i < fsize => Bucket(items[i].key));
      EmptyLayoutOk(bucket, itemnodes[..], lookuptable[..]);
    }

    /** Empties every chain and threads all the cells together. */
    method ClearCells()
      requires Shape()
      modifies itemnodes, lookuptable
      ensures forall t :: 0 <= t < tsize ==> lookuptable[t] == -1
      ensures forall x :: 0 <= x < fsize ==> itemnodes[x] == ItemNode(x, if x + 1 == fsize then -1 else x + 1)
    {
      for t := 0 to tsize
        invariant forall u :: 0 <= u < t ==> lookuptable[u] == -1
        modifies lookuptable
      {
        lookuptable[t] := -1;
      }
      for x := 0 to fsize
        invariant forall y :: 0 <= y < x ==> itemnodes[y] == ItemNode(y, y + 1)
        modifies itemnodes
      {
        itemnodes[x] := ItemNode(x, x + 1);
      }
      itemnodes[fsize - 1] := itemnodes[fsize - 1].(next := -1);
    }

    /** The node of the newest entry of a key, and the node before it on its chain. */
    method Find(key: K) returns (probe: int, hashindex: nat, prev: int, ghost p: int)
      requires Shape() && Inv()
      ensures hashindex == Bucket(key)
      ensures -1 <= p < |l.chains[hashindex]|
      ensures probe == Before(l.chains[hashindex], p + 1)
      ensures prev == if p + 1 < |l.chains[hashindex]| then l.chains[hashindex][p + 1] else -1
      ensures p == -1 <==> LastIndex(contents, key) == -1
      ensures p != -1 ==> l.order[LastIndex(contents, key)] == probe
    {
      hashindex := hash(key) % tsize;
      prev := -1;
      probe := lookuptable[hashindex];
      ghost var c := l.chains[hashindex];
      ChainFacts(bucket, itemnodes[..], lookuptable[..], freelist, l, hashindex);
      p := |c| - 1;
      while probe != -1
        invariant -1 <= p < |c|
        invariant probe == Before(c, p + 1)
        invariant prev == if p + 1 < |c| then c[p + 1] else -1
        invariant forall q :: p < q < |c| ==> nodes[c[q]].key != key
        decreases p
      {
        assert itemnodes[..][c[p]].next == Before(c, p);
        if nodes[itemnodes[probe].index].key == key {
          break;
        }
        prev := probe;
        probe := itemnodes[probe].next;
        p := p - 1;
      }
      var items := nodes[..];
      ghost var hit := seq(fsize, x requires 0 <= x < fsize => items[x].key == key);
      ghost var i := NewestOnChain(bucket, itemnodes[..], lookuptable[..], freelist, l, hashindex, p, hit);
      LastIndexIs(contents, key, i);
    }

    method Insert(key: K, value: V) returns (r: int)
      requires Valid()
      modifies Repr
      ensures Valid()
      ensures r == if old(size) == fsize then -1 else 1
      ensures r == -1 ==> contents == old(contents)
      ensures r == 1 ==> contents == old(contents) + [(key, value)]
      ensures pristine == old(pristine)
    {
      assert Opened(TableSeal);
      var hashindex := hash(key) % tsize;
      FreeTop(bucket, itemnodes[..], lookuptable[..], freelist, l);
      if freelist == -1 {
        return -1;
      }
      var insert := LinkIn(key, value, hashindex);
      UpdateIndexWithAdd(insert);
      size := size + 1;
      idx := idx + [insert];
      contents := contents + [(key, value)];
      return 1;
    }

    /** Takes the first free node, fills it and makes it the head of its chain. */
    method LinkIn(key: K, value: V, hashindex: nat) returns (insert: nat)
      requires Shape() && Stored() && freelist != -1 && hashindex == Bucket(key)
      modifies this`freelist, this`bucket, this`l, nodes, itemnodes, lookuptable
      ensures Stored()
      ensures insert !in old(l.order) && l.order == old(l.order) + [insert]
      ensures Contents() == old(Contents()) + [(key, value)]
    {
      FreeTop(bucket, itemnodes[..], lookuptable[..], freelist, l);
      InsertKeepsLayout(bucket, itemnodes[..], lookuptable[..], freelist, l, hashindex);
      EntriesInsert(nodes[..], l.order, freelist, Item(key, value));
      ghost var cells, table, items := itemnodes[..], lookuptable[..], nodes[..];
      var head := lookuptable[hashindex];
      insert := freelist;
      freelist := itemnodes[freelist].next;
      var item := itemnodes[insert].index;
      nodes[item] := Item(key, value);
      itemnodes[insert] := itemnodes[insert].(next := head);
      lookuptable[hashindex] := insert;
      bucket := bucket[insert := hashindex];
      l := Inserted(l, hashindex);
      assert itemnodes[..] == cells[insert := cells[insert].(next := head)];
      assert lookuptable[..] == table[hashindex := insert];
      assert nodes[..] == items[insert := Item(key, value)];
    }

    method UpdateIndexWithAdd(node: nat)
      requires Shape() && size < fsize && indexStart < fsize
      requires indexValid ==> Reads(indexlist[..], indexStart, idx) && |idx| == size
      modifies indexlist
      ensures indexValid ==> Reads(indexlist[..], indexStart, idx + [node])
    {
      if indexValid && size < fsize {
        var pos := (size + indexStart) % fsize;
        ReadsAdd(indexlist[..], indexStart, idx, node);
        indexlist[pos] := node;
      }
    }

    method Remove(key: K) returns (r: int)
      requires Valid()
      modifies Repr
      ensures Valid()
      ensures r == if LastIndex(old(contents), key) == -1 then -1 else 1
      ensures contents == Pop(old(contents), key)
      ensures r == -1 ==> pristine == old(pristine)
      ensures r == 1 ==> (pristine <==> StaysPristine(old(pristine), LastIndex(old(contents), key), old(size)))
    {
      assert Opened(TableSeal);
      var node, hashindex, prev, p := Find(key);
      if node == -1 {
        return -1;
      }
      RemoveNode(node, hashindex, prev, p, LastIndex(contents, key));
      return 1;
    }

    /** A removal leaves an unbroken order unbroken if it is not from the middle, and the
        removal of the only entry mends a broken one. */
    predicate StaysPristine(was: bool, i: int, n: nat) {
      n == 1 || (was && i in {0, n - 1})
    }

    /** The part of Remove that runs once the node is found. */
    method RemoveNode(node: nat, hashindex: nat, prev: int, ghost p: nat, ghost i: nat)
      requires Shape() && Inv() && hashindex < tsize
      requires p < |l.chains[hashindex]| && i < |l.order|
      requires l.chains[hashindex][p] == l.order[i] == node
      requires prev == if p + 1 < |l.chains[hashindex]| then l.chains[hashindex][p + 1] else -1
      modifies Repr
      ensures Inv()
      ensures contents == Without(old(contents), i)
      ensures pristine <==> StaysPristine(old(pristine), i, old(size))
    {
      ghost var order := l.order;
      LiveDistinct(bucket, itemnodes[..], lookuptable[..], freelist, l);
      LinkOut(node, hashindex, prev, p, i);
      UpdateIndexWithRemove(node, order, i);
      size := size - 1;
      contents := Without(contents, i);
    }

    /** Unlinks a node from its chain and makes it the head of the free list. */
    method LinkOut(node: nat, hashindex: nat, prev: int, ghost p: nat, ghost i: nat)
      requires Shape() && Stored() && hashindex < tsize
      requires p < |l.chains[hashindex]| && i < |l.order|
      requires l.chains[hashindex][p] == l.order[i] == node
      requires prev == if p + 1 < |l.chains[hashindex]| then l.chains[hashindex][p + 1] else -1
      modifies this`freelist, this`l, itemnodes, lookuptable
      ensures Stored()
      ensures l.order == Without(old(l.order), i)
      ensures Contents() == Without(old(Contents()), i)
    {
      RemoveKeepsLayout(bucket, itemnodes[..], lookuptable[..], freelist, l, hashindex, p, i);
      EntriesRemove(nodes[..], l.order, i);
      Relink(node, hashindex, prev, l.chains[hashindex], p);
      l := Removed(l, hashindex, p, i);
    }

    method Relink(node: nat, hashindex: nat, prev: int, ghost c: seq<nat>, ghost p: nat)
      requires Shape() && hashindex < tsize
      requires forall q :: 0 <= q < |c| ==> c[q] < fsize
      requires p < |c| && c[p] == node && prev == if p + 1 < |c| then c[p + 1] else -1
      modifies this`freelist, itemnodes, lookuptable
      ensures freelist == node
      ensures itemnodes[..] == Unlinked(old(itemnodes[..]), old(freelist), c, p)
      ensures lookuptable[..] == old(lookuptable[..])[hashindex :=
        if p + 1 == |c| then old(itemnodes[node].next) else old(lookuptable[hashindex])]
    {
      var next := itemnodes[node].next;
      if prev == -1 {
        lookuptable[hashindex] := next;
      } else {
        itemnodes[prev] := itemnodes[prev].(next := next);
      }
      itemnodes[node] := itemnodes[node].(next := freelist);
      freelist := node;
    }

    /** Called with the size still counting the node; `order` is what was live before. */
    method UpdateIndexWithRemove(node: nat, ghost order: seq<nat>, ghost i: nat)
      requires Shape() && Indexes(order) && size == |order| && Distinct(order)
      requires i < |order| && order[i] == node
      modifies this`indexValid, this`indexStart, this`idx, this`pristine
      ensures Indexes(Without(order, i))
      ensures pristine <==> StaysPristine(old(pristine), i, size)
    {
      if size > 1 && !indexValid {
        return;
      }
      if size == 1 {
        indexValid := true;
        indexStart := 0;
        idx, pristine := [], true;
        return;
      }
      DropEnds(indexlist[..], indexStart, idx, order, i);
      if node == indexlist[indexStart] {
        indexStart := (indexStart + 1) % fsize;
        idx := idx[1..];
        return;
      }
      var indexlast := (indexStart + (size - 1)) % fsize;
      if node == indexlist[indexlast] {
        idx := idx[..|idx| - 1];
        return;
      }
      indexValid := false;
      pristine := false;
    }

    /** The slot in which the newest value of a key is stored, or -1. */
    method Lookup(key: K) returns (slot: int)
      requires Valid()
      ensures slot == -1 <==> LastIndex(contents, key) == -1
      ensures slot != -1 ==> 0 <= slot < fsize && slot == l.order[LastIndex(contents, key)]
      ensures slot != -1 ==> contents[LastIndex(contents, key)] == (key, nodes[slot].value)
    {
      assert Opened(TableSeal);
      var node, _, _, _ := Find(key);
      if node == -1 {
        return -1;
      }
      slot := itemnodes[node].index;
    }

    method Exists(key: K) returns (found: bool)
      requires Valid()
      ensures found <==> exists i :: 0 <= i < size && contents[i].0 == key
    {
      assert Opened(TableSeal);
      var node, _, _, _ := Find(key);
      found := node != -1;
    }

    /** Assigns to the value in a slot that Lookup has found. */
    method Store(slot: nat, value: V, ghost i: nat)
      requires Valid() && i < size && l.order[i] == slot
      modifies nodes, this`contents
      ensures Valid()
      ensures contents == old(contents)[i := (old(contents)[i].0, value)]
    {
      assert Opened(TableSeal);
      LiveDistinct(bucket, itemnodes[..], lookuptable[..], freelist, l);
      contents := contents[i := (contents[i].0, value)];
      nodes[slot] := nodes[slot].(value := value);
    }

    /** Copies one chain, head first, to the index list. */
    method ListBucket(t: nat, start: nat, ghost acc0: seq<nat>) returns (index: nat, ghost acc: seq<nat>)
      requires Shape() && Stored() && t < tsize
      requires start == |acc0| <= fsize && indexlist[..start] == acc0
      requires Listed(bucket, l, acc0, t, [])
      modifies indexlist
      ensures index == |acc| <= fsize && indexlist[..index] == acc
      ensures Listed(bucket, l, acc, t + 1, [])
    {
      index, acc := start, acc0;
      ghost var c, cells, table := l.chains[t], itemnodes[..], lookuptable[..];
      ChainFacts(bucket, cells, table, freelist, l, t);
      var node := lookuptable[t];
      ghost var p := |c|;
      assert c[p..] == [];
      while node != -1
        invariant 0 <= p <= |c| && node == Before(c, p)
        invariant index == |acc| <= fsize && indexlist[..index] == acc
        invariant Listed(bucket, l, acc, t, c[p..])
        modifies indexlist
        decreases p
      {
        p := p - 1;
        ListNext(bucket, cells, table, freelist, l, acc, t, p);
        assert cells[c[p]].next == Before(c, p);
        indexlist[index] := itemnodes[node].index;
        index := index + 1;
        acc := acc + [c[p]];
        node := itemnodes[node].next;
      }
      assert c[0..] == c;
      ListChain(bucket, cells, table, freelist, l, acc, t);
    }

    method ReIndex()
      requires Shape() && Inv() && !indexValid
      modifies indexlist, this`indexValid, this`indexStart, this`idx
      ensures Inv() && !pristine
      ensures size > 0 ==> indexValid
    {
      if size == 0 {
        return;
      }
      var index := 0;
      ghost var acc: seq<nat> := [];
      for t := 0 to tsize
        invariant index == |acc| <= fsize && indexlist[..index] == acc
        invariant Listed(bucket, l, acc, t, [])
        modifies indexlist
      {
        ghost var more;
        index, more := ListBucket(t, index, acc);
        acc := more;
      }
      LiveDistinct(bucket, itemnodes[..], lookuptable[..], freelist, l);
      SameElements(acc, l.order);
      indexValid := true;
      indexStart := 0;
      idx := acc;
      assert indexlist[..index] == acc;
      forall i | 0 <= i < |idx| ensures indexlist[..][CircularIndex.Slot(0, i, fsize)] == idx[i] {
        assert indexlist[..index][i] == acc[i];
      }
    }

    /** Where the item with this index is stored, or -1. Rebuilds an invalid index. */
    method LookupByIndex(index: nat) returns (slot: int)
      requires Valid()
      modifies indexlist, this`indexValid, this`indexStart, this`idx
      ensures Valid() && pristine == old(pristine) && contents == old(contents)
      ensures old(indexValid) ==> idx == old(idx)
      ensures index >= size ==> slot == -1
      ensures index < size ==> indexValid && index < |idx| && slot == idx[index]
      ensures index < size && pristine ==> slot == l.order[index]
    {
      assert Opened(TableSeal);
      if index >= size {
        return -1;
      }
      if !indexValid {
        ReIndex();
      }
      var adjusted := (indexStart + index) % fsize;
      assert adjusted == CircularIndex.Slot(indexStart, index, fsize);
      slot := indexlist[adjusted];
    }

    /** The item an index leads to. */
    lemma ValueAt(index: nat)
      requires Valid() && index < size
      ensures l.order[index] < fsize
      ensures contents[index] == (nodes[l.order[index]].key, nodes[l.order[index]].value)
    {
      assert Opened(TableSeal);
    }

    /** While no removal happens in between, looking up 0..size-1 visits every live node
        exactly once, and in order of insertion if the index was never broken. */
    lemma IndexVisitsAll()
      requires Valid() && indexValid
      ensures multiset(idx) == multiset(l.order) && |idx| == size
      ensures pristine ==> idx == l.order
    {
      assert Opened(TableSeal);
      LiveDistinct(bucket, itemnodes[..], lookuptable[..], freelist, l);
      SameElements(idx, l.order);
    }

    /** The node array is partitioned between the free list and the bucket chains. */
    lemma NodesPartitioned(x: nat)
      requires Valid() && x < fsize
      ensures |l.chains| == tsize
      ensures x in l.free <==> x !in l.order
      ensures forall t :: 0 <= t < tsize ==>
        (x in l.chains[t] <==> x in l.order && hash(nodes[x].key) % tsize == t)
      ensures Distinct(l.free) && forall t :: 0 <= t < tsize ==> Distinct(l.chains[t])
      ensures |l.free| + size == fsize
      ensures freelist == -1 <==> size == fsize
    {
      assert Opened(TableSeal);
      Partition(bucket, itemnodes[..], lookuptable[..], freelist, l, x);
      FreeTop(bucket, itemnodes[..], lookuptable[..], freelist, l);
    }
  }
}
