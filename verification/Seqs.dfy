/** Small facts about sequences that several components share. */
module Seqs {

  ghost predicate Distinct<T>(s: seq<T>) {
    forall i, j :: 0 <= i < j < |s| ==> s[i] != s[j]
  }

  function Without<T>(s: seq<T>, i: nat): (r: seq<T>)
    requires i < |s|
    ensures |r| == |s| - 1
  {
    s[..i] + s[i + 1..]
  }

  lemma WithoutAt<T>(s: seq<T>, i: nat)
    requires i < |s|
    ensures forall j :: 0 <= j < |s| - 1 ==> Without(s, i)[j] == s[if j < i then j else j + 1]
  {}

  lemma WithoutMember<T>(s: seq<T>, i: nat, x: T)
    requires i < |s| && Distinct(s)
    ensures x in Without(s, i) <==> x in s && x != s[i]
  {
    if x in s && x != s[i] {
      var j :| 0 <= j < |s| && s[j] == x;
      assert Without(s, i)[if j < i then j else j - 1] == x;
    }
  }

  lemma {:induction false} DistinctMultiset<T>(s: seq<T>, x: T)
    requires Distinct(s)
    ensures multiset(s)[x] == if x in s then 1 else 0
  {
    if s != [] {
      var n := |s| - 1;
      DistinctMultiset(s[..n], x);
      assert s == s[..n] + [s[n]];
    }
  }

  /** Two sequences without repetition that have the same elements are permutations. */
  lemma SameElements<T>(s: seq<T>, t: seq<T>)
    requires Distinct(s) && Distinct(t)
    requires forall x :: x in s <==> x in t
    ensures multiset(s) == multiset(t) && |s| == |t|
  {
    forall x ensures multiset(s)[x] == multiset(t)[x] {
      DistinctMultiset(s, x);
      DistinctMultiset(t, x);
    }
    assert |multiset(s)| == |s| && |multiset(t)| == |t|;
  }

  /** A sequence without repetition is no longer than one that has all its elements. */
  lemma {:induction false} DistinctNoLonger<T>(s: seq<T>, t: seq<T>)
    requires Distinct(s)
    requires forall x :: x in s ==> x in t
    ensures |s| <= |t|
    decreases |s|
  {
    if s != [] {
      var n := |s| - 1;
      assert s[n] in t;
      var i :| 0 <= i < |t| && t[i] == s[n];
      forall x | x in s[..n] ensures x in Without(t, i) {
        assert x in t && x != s[n];
        var j :| 0 <= j < |t| && t[j] == x;
        assert Without(t, i)[if j < i then j else j - 1] == x;
      }
      DistinctNoLonger(s[..n], Without(t, i));
    }
  }
}

/** An association list in insertion order, read as a map from keys to stacks. */
module AssocList {
  import opened Seqs

  /** Where the newest entry of a key is, or -1. */
  function LastIndex<K(==), V>(c: seq<(K, V)>, k: K): (i: int)
    ensures -1 <= i < |c|
    ensures i >= 0 ==> c[i].0 == k
    ensures forall j :: i < j < |c| ==> c[j].0 != k
  {
    if c == [] then -1
    else if c[|c| - 1].0 == k then |c| - 1
    else LastIndex(c[..|c| - 1], k)
  }

  lemma LastIndexIs<K, V>(c: seq<(K, V)>, k: K, i: int)
    requires -1 <= i < |c|
    requires i >= 0 ==> c[i].0 == k
    requires forall j :: i < j < |c| ==> c[j].0 != k
    ensures LastIndex(c, k) == i
  {}

  /** The values of one key, oldest first. */
  function StackOf<K(==), V>(c: seq<(K, V)>, k: K): seq<V> {
    if c == [] then []
    else
      var rest := StackOf(c[..|c| - 1], k);
      if c[|c| - 1].0 == k then rest + [c[|c| - 1].1] else rest
  }

  function Pop<K(==), V>(c: seq<(K, V)>, k: K): seq<(K, V)> {
    var i := LastIndex(c, k);
    if i == -1 then c else Without(c, i)
  }

  /** Adding an entry pushes on its key's stack and touches no other. */
  lemma PushRefines<K, V>(c: seq<(K, V)>, k: K, v: V, other: K)
    ensures StackOf(c + [(k, v)], k) == StackOf(c, k) + [v]
    ensures other != k ==> StackOf(c + [(k, v)], other) == StackOf(c, other)
  {
    assert (c + [(k, v)])[..|c|] == c;
  }

  /** Looking a key up sees the top of its stack. */
  lemma {:induction false} TopRefines<K, V>(c: seq<(K, V)>, k: K)
    ensures LastIndex(c, k) == -1 <==> StackOf(c, k) == []
    ensures LastIndex(c, k) >= 0 ==>
      StackOf(c, k) != [] && StackOf(c, k)[|StackOf(c, k)| - 1] == c[LastIndex(c, k)].1
    decreases |c|
  {
    if c != [] {
      TopRefines(c[..|c| - 1], k);
    }
  }

  /** Removing the newest entry of a key pops its stack and touches no other. */
  lemma {:induction false} PopRefines<K, V>(c: seq<(K, V)>, k: K, other: K)
    ensures StackOf(Pop(c, k), k) ==
      if StackOf(c, k) == [] then [] else StackOf(c, k)[..|StackOf(c, k)| - 1]
    ensures other != k ==> StackOf(Pop(c, k), other) == StackOf(c, other)
    decreases |c|
  {
    if c != [] {
      var n := |c| - 1;
      TopRefines(c, k);
      PopRefines(c[..n], k, other);
      if c[n].0 == k {
        assert Pop(c, k) == c[..n];
      } else {
        var i := LastIndex(c, k);
        if i >= 0 {
          assert Pop(c, k) == Pop(c[..n], k) + [c[n]];
          assert Pop(c, k)[..n - 1] == Pop(c[..n], k);
        }
      }
    }
  }

  ghost predicate DistinctKeys<K, V>(c: seq<(K, V)>) {
    forall i, j :: 0 <= i < j < |c| ==> c[i].0 != c[j].0
  }

  /** An entry whose key has no other is the newest of its key. */
  lemma LastOfDistinct<K, V>(c: seq<(K, V)>, e: (K, V))
    requires DistinctKeys(c)
    ensures e in c <==> LastIndex(c, e.0) != -1 && c[LastIndex(c, e.0)] == e
  {}

  lemma MemberStore<K, V>(c: seq<(K, V)>, j: nat, v: V, e: (K, V))
    requires DistinctKeys(c) && j < |c|
    ensures DistinctKeys(c[j := (c[j].0, v)])
    ensures e in c[j := (c[j].0, v)] <==> (e in c && e.0 != c[j].0) || e == (c[j].0, v)
  {
    var d := c[j := (c[j].0, v)];
    if e in c && e.0 != c[j].0 {
      var i :| 0 <= i < |c| && c[i] == e;
      assert d[i] == e;
    }
    assert d[j] == (c[j].0, v);
  }

  lemma MemberPop<K, V>(c: seq<(K, V)>, k: K, e: (K, V))
    requires DistinctKeys(c)
    ensures DistinctKeys(Pop(c, k))
    ensures e in Pop(c, k) <==> e in c && e.0 != k
  {
    var i := LastIndex(c, k);
    if i != -1 {
      WithoutAt(c, i);
      if e in c && e.0 != k {
        var j :| 0 <= j < |c| && c[j] == e;
        assert Without(c, i)[if j < i then j else j - 1] == e;
      }
    }
  }
}
