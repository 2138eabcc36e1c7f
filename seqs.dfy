/** Order-preserving filtering of sequences, the shape of Python's filtering loops and of
    JavaScript's `Array.prototype.filter`; the scan for the first element with a given key; and
    the order in which keys first occur. */
module Seqs {

  /** No element occurs twice. */
  predicate Distinct<T(==)>(s: seq<T>)
  {
    forall i, j :: 0 <= i < j < |s| ==> s[i] != s[j]
  }

  /** The elements of s that satisfy p, in their original order. */
  function Filter<T(!new)>(s: seq<T>, p: T -> bool): (r: seq<T>)
    ensures |r| <= |s|
    ensures forall i :: 0 <= i < |r| ==> p(r[i])
    ensures forall x :: x in r <==> x in s && p(x)
    decreases |s|
  {
    if |s| == 0 then []
    else
      var init, last := s[..|s| - 1], s[|s| - 1];
      assert s == init + [last];
      Filter(init, p) + (if p(last) then [last] else [])
  }

  /** Filtering distributes over concatenation: it keeps the relative order of what it keeps. */
  lemma {:induction false} FilterAppend<T(!new)>(a: seq<T>, b: seq<T>, p: T -> bool)
    ensures Filter(a + b, p) == Filter(a, p) + Filter(b, p)
    decreases |b|
  {
    if |b| == 0 {
      assert a + b == a;
    } else {
      var init, last := b[..|b| - 1], b[|b| - 1];
      var tail := if p(last) then [last] else [];
      assert (a + b)[..|a + b| - 1] == a + init;
      assert (a + b)[|a + b| - 1] == last;
      assert Filter(a + b, p) == Filter(a + init, p) + tail;
      assert Filter(b, p) == Filter(init, p) + tail;
      FilterAppend(a, init, p);
    }
  }

  /** Filtering keeps every occurrence of an element that passes and none of one that fails. */
  lemma {:induction false} FilterCount<T(!new)>(s: seq<T>, p: T -> bool, x: T)
    ensures multiset(Filter(s, p))[x] == if p(x) then multiset(s)[x] else 0
    decreases |s|
  {
    if |s| > 0 {
      var init, last := s[..|s| - 1], s[|s| - 1];
      FilterCount(init, p, x);
      assert s == init + [last];
    }
  }

  /** A filter that every element passes changes nothing. */
  lemma {:induction false} FilterAll<T(!new)>(s: seq<T>, p: T -> bool)
    requires forall i :: 0 <= i < |s| ==> p(s[i])
    ensures Filter(s, p) == s
    decreases |s|
  {
    if |s| > 0 {
      FilterAll(s[..|s| - 1], p);
      assert s == s[..|s| - 1] + [s[|s| - 1]];
    }
  }

  /** Filtering a list without duplicates leaves a list without duplicates. */
  lemma {:induction false} FilterDistinct<T(!new)>(s: seq<T>, p: T -> bool)
    requires Distinct(s)
    ensures Distinct(Filter(s, p))
    decreases |s|
  {
    if |s| > 0 {
      var init, last := s[..|s| - 1], s[|s| - 1];
      assert Distinct(init);
      FilterDistinct(init, p);
      assert last !in init;
    }
  }

  /** The index of the first record of s with key k, or |s| when there is none:
      the linear scan with an early exit. */
  function FirstIndex<T, K(==)>(s: seq<T>, key: T -> K, k: K): (i: nat)
    ensures i <= |s|
    ensures i < |s| ==> key(s[i]) == k
    ensures forall j :: 0 <= j < i ==> key(s[j]) != k
    decreases |s|
  {
    if |s| == 0 then 0
    else if key(s[0]) == k then 0
    else 1 + FirstIndex(s[1..], key, k)
  }

  /** Appending one record finds the same first record with key k, or the appended one when
      there was none. */
  lemma {:induction false} FirstIndexAppend<T, K>(s: seq<T>, x: T, key: T -> K, k: K)
    ensures FirstIndex(s + [x], key, k)
         == if FirstIndex(s, key, k) < |s| then FirstIndex(s, key, k) else if key(x) == k then |s| else |s| + 1
    decreases |s|
  {
    if |s| > 0 {
      assert (s + [x])[1..] == s[1..] + [x];
      FirstIndexAppend(s[1..], x, key, k);
    }
  }

  /** The keys ks, seen through lift, all occur in s and are listed in the order of their
      first occurrence there: the order in which a table that appends each new key lists them. */
  ghost predicate InFirstOrder<T, J, K>(ks: seq<K>, lift: K -> J, s: seq<T>, key: T -> J)
  {
    && (forall i :: 0 <= i < |ks| ==> FirstIndex(s, key, lift(ks[i])) < |s|)
    && (forall i, j :: 0 <= i < j < |ks| ==> FirstIndex(s, key, lift(ks[i])) < FirstIndex(s, key, lift(ks[j])))
  }

  /** Appending a record keeps the first occurrences of the keys already listed. */
  lemma InFirstOrderAppend<T, J, K>(ks: seq<K>, lift: K -> J, s: seq<T>, x: T, key: T -> J)
    requires InFirstOrder(ks, lift, s, key)
    ensures InFirstOrder(ks, lift, s + [x], key)
  {
    forall i | 0 <= i < |ks|
      ensures FirstIndex(s + [x], key, lift(ks[i])) == FirstIndex(s, key, lift(ks[i]))
    {
      FirstIndexAppend(s, x, key, lift(ks[i]));
    }
  }

  /** A key first occurring in the appended record goes after the keys already listed. */
  lemma InFirstOrderExtend<T, J, K>(ks: seq<K>, lift: K -> J, s: seq<T>, x: T, key: T -> J, k: K)
    requires InFirstOrder(ks, lift, s, key)
    requires FirstIndex(s, key, lift(k)) == |s| && key(x) == lift(k)
    ensures InFirstOrder(ks + [k], lift, s + [x], key)
  {
    InFirstOrderAppend(ks, lift, s, x, key);
    FirstIndexAppend(s, x, key, lift(k));
    var r, t := ks + [k], s + [x];
    forall i | 0 <= i < |r|
      ensures FirstIndex(t, key, lift(r[i])) <= |s|
    {
      if i < |ks| {
        assert r[i] == ks[i];
      }
    }
    forall i, j | 0 <= i < j < |r|
      ensures FirstIndex(t, key, lift(r[i])) < FirstIndex(t, key, lift(r[j]))
    {
      assert r[i] == ks[i];
      if j < |ks| {
        assert r[j] == ks[j];
      }
    }
  }
}
