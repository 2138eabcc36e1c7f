/** A table of records identified by a key, folded together with a snapshot of incoming
    items: an item whose key is already present re-stamps the first record with that key,
    any other item is appended as a fresh record. The showtime history and the movie
    announcements are both tables of this kind. */
module Upsert {
  import opened Seqs

  /** How a table absorbs one incoming item: the record it becomes when its key is new,
      the key of a record, and the re-stamp applied to a record whose key reappears. */
  datatype Policy<!I, !T, K> = Policy(create: I -> T, key: T -> K, touch: T -> T)

  /** What the lemmas below need of a policy: re-stamping keeps the key, re-stamping twice
      is re-stamping once, and a fresh record already carries the stamp. */
  ghost predicate Lawful<I(!new), T(!new), K>(p: Policy<I, T, K>)
  {
    && (forall x {:trigger p.touch(x)} :: p.key(p.touch(x)) == p.key(x))
    && (forall x {:trigger p.touch(p.touch(x))} :: p.touch(p.touch(x)) == p.touch(x))
    && (forall x {:trigger p.create(x)} :: p.touch(p.create(x)) == p.create(x))
  }

  /** No two records share a key. */
  ghost predicate UniqueKeys<T, K>(s: seq<T>, key: T -> K)
  {
    forall i, j :: 0 <= i < j < |s| ==> key(s[i]) != key(s[j])
  }

  /** The key of the record that item x would become. */
  function ItemKey<I, T, K>(p: Policy<I, T, K>, x: I): K
  {
    p.key(p.create(x))
  }

  /** One incoming item: the first record with its key is re-stamped, or, when no record
      has that key, the item's record is appended. */
  function Upsert<I, T, K(==)>(s: seq<T>, x: I, p: Policy<I, T, K>): (r: seq<T>)
    ensures |r| == |s| + 1 <==> forall j :: 0 <= j < |s| ==> p.key(s[j]) != ItemKey(p, x)
    ensures |r| == |s| || |r| == |s| + 1
    ensures forall i :: 0 <= i < |s| && p.key(s[i]) != ItemKey(p, x) ==> r[i] == s[i]
    ensures |r| == |s| + 1 ==> r[..|s|] == s && r[|s|] == p.create(x)
    ensures var i := FirstIndex(s, p.key, ItemKey(p, x)); i < |s| ==> r == s[i := p.touch(s[i])]
  {
    var i := FirstIndex(s, p.key, ItemKey(p, x));
    if i < |s| then s[i := p.touch(s[i])] else s + [p.create(x)]
  }

  /** A whole snapshot, item by item in order: the table never shrinks, and grows by at most
      one record per item. */
  function Reconcile<I, T, K(==)>(s: seq<T>, xs: seq<I>, p: Policy<I, T, K>): (r: seq<T>)
    ensures |s| <= |r| <= |s| + |xs|
    decreases |xs|
  {
    if |xs| == 0 then s else Upsert(Reconcile(s, xs[..|xs| - 1], p), xs[|xs| - 1], p)
  }

  /** The first record with key k exists and already carries the stamp. */
  ghost predicate Settled<I, T, K>(s: seq<T>, p: Policy<I, T, K>, k: K)
  {
    var i := FirstIndex(s, p.key, k);
    i < |s| && p.touch(s[i]) == s[i]
  }

  /** Two tables whose records agree on their keys, the second possibly longer, have their
      first record with key k in the same place. */
  lemma FirstIndexSameKeys<T, K>(s: seq<T>, r: seq<T>, key: T -> K, k: K)
    requires |s| <= |r|
    requires forall j :: 0 <= j < |s| ==> key(r[j]) == key(s[j])
    requires FirstIndex(s, key, k) < |s|
    ensures FirstIndex(r, key, k) == FirstIndex(s, key, k)
  {
  }

  lemma UpsertShape<I(!new), T(!new), K>(s: seq<T>, x: I, p: Policy<I, T, K>)
    requires Lawful(p)
    ensures var r := Upsert(s, x, p);
      && |s| <= |r| <= |s| + 1
      && (forall i :: 0 <= i < |s| ==> r[i] == s[i] || r[i] == p.touch(s[i]))
      && (forall i :: 0 <= i < |s| ==> p.key(r[i]) == p.key(s[i]))
      && (forall i :: 0 <= i < |s| && p.key(s[i]) != ItemKey(p, x) ==> r[i] == s[i])
      && (|r| == |s| + 1 ==> r[|s|] == p.create(x) && FirstIndex(s, p.key, ItemKey(p, x)) == |s|)
  {
  }

  /** Reconciling never removes or reorders records; an old record is either unchanged or
      re-stamped, and unchanged when no item carries its key. At most one record is appended
      per item. */
  lemma {:induction false} ReconcileKeeps<I(!new), T(!new), K>(s: seq<T>, xs: seq<I>, p: Policy<I, T, K>)
    requires Lawful(p)
    ensures var r := Reconcile(s, xs, p);
      && |s| <= |r| <= |s| + |xs|
      && (forall i :: 0 <= i < |s| ==> r[i] == s[i] || r[i] == p.touch(s[i]))
      && (forall i :: 0 <= i < |s| && (forall j :: 0 <= j < |xs| ==> ItemKey(p, xs[j]) != p.key(s[i])) ==> r[i] == s[i])
    decreases |xs|
  {
    if |xs| > 0 {
      var init, last := xs[..|xs| - 1], xs[|xs| - 1];
      var m := Reconcile(s, init, p);
      ReconcileKeeps(s, init, p);
      UpsertShape(m, last, p);
      var r := Reconcile(s, xs, p);
      forall i | 0 <= i < |s|
        ensures r[i] == s[i] || r[i] == p.touch(s[i])
      {
        if m[i] == p.touch(s[i]) && r[i] == p.touch(m[i]) {
          assert p.touch(p.touch(s[i])) == p.touch(s[i]);
        }
      }
      forall i | 0 <= i < |s| && (forall j :: 0 <= j < |xs| ==> ItemKey(p, xs[j]) != p.key(s[i]))
        ensures r[i] == s[i]
      {
        assert forall j :: 0 <= j < |init| ==> init[j] == xs[j];
        assert ItemKey(p, xs[|xs| - 1]) != p.key(s[i]);
        assert m[i] == s[i];
      }
    }
  }

  lemma UpsertUnique<I(!new), T(!new), K>(s: seq<T>, x: I, p: Policy<I, T, K>)
    requires Lawful(p) && UniqueKeys(s, p.key)
    ensures UniqueKeys(Upsert(s, x, p), p.key)
  {
  }

  /** Reconciling keeps the keys of a table unique. */
  lemma {:induction false} ReconcileUnique<I(!new), T(!new), K>(s: seq<T>, xs: seq<I>, p: Policy<I, T, K>)
    requires Lawful(p) && UniqueKeys(s, p.key)
    ensures UniqueKeys(Reconcile(s, xs, p), p.key)
    decreases |xs|
  {
    if |xs| > 0 {
      ReconcileUnique(s, xs[..|xs| - 1], p);
      UpsertUnique(Reconcile(s, xs[..|xs| - 1], p), xs[|xs| - 1], p);
    }
  }

  /** One item settles its own key and leaves every settled key settled. */
  lemma UpsertSettles<I(!new), T(!new), K>(s: seq<T>, x: I, p: Policy<I, T, K>, k: K)
    requires Lawful(p)
    requires k == ItemKey(p, x) || Settled(s, p, k)
    ensures Settled(Upsert(s, x, p), p, k)
  {
    UpsertShape(s, x, p);
    var r := Upsert(s, x, p);
    var i := FirstIndex(s, p.key, k);
    if i < |s| {
      FirstIndexSameKeys(s, r, p.key, k);
      if k == ItemKey(p, x) {
        assert r[i] == p.touch(s[i]);
      } else {
        assert r[i] == s[i];
      }
    } else {
      assert k == ItemKey(p, x);
      assert FirstIndex(s, p.key, k) == |s|;
      assert |r| == |s| + 1;
      assert p.key(r[|s|]) == k;
    }
  }

  /** After a snapshot, every item's key is settled: its first record carries the stamp. */
  lemma {:induction false} ReconcileSettles<I(!new), T(!new), K>(s: seq<T>, xs: seq<I>, p: Policy<I, T, K>)
    requires Lawful(p)
    ensures forall j :: 0 <= j < |xs| ==> Settled(Reconcile(s, xs, p), p, ItemKey(p, xs[j]))
    decreases |xs|
  {
    if |xs| > 0 {
      var init, last := xs[..|xs| - 1], xs[|xs| - 1];
      var m := Reconcile(s, init, p);
      ReconcileSettles(s, init, p);
      forall j | 0 <= j < |xs|
        ensures Settled(Reconcile(s, xs, p), p, ItemKey(p, xs[j]))
      {
        if j < |init| {
          assert xs[j] == init[j];
        }
        UpsertSettles(m, last, p, ItemKey(p, xs[j]));
      }
    }
  }

  /** A snapshot whose keys are all settled changes nothing. */
  lemma {:induction false} ReconcileSettledIsIdentity<I, T, K>(s: seq<T>, xs: seq<I>, p: Policy<I, T, K>)
    requires forall j :: 0 <= j < |xs| ==> Settled(s, p, ItemKey(p, xs[j]))
    ensures Reconcile(s, xs, p) == s
    decreases |xs|
  {
    if |xs| > 0 {
      var init, last := xs[..|xs| - 1], xs[|xs| - 1];
      assert forall j :: 0 <= j < |init| ==> init[j] == xs[j];
      ReconcileSettledIsIdentity(s, init, p);
      assert Settled(s, p, ItemKey(p, last));
    }
  }

  /** Reconciling the same snapshot again changes nothing, whatever new records the second
      pass would create, as long as it keys and re-stamps records the same way. */
  lemma ReconcileIdempotent<I(!new), T(!new), K>(s: seq<T>, xs: seq<I>, p: Policy<I, T, K>, q: Policy<I, T, K>)
    requires Lawful(p)
    requires q.key == p.key && q.touch == p.touch
    requires forall x :: ItemKey(q, x) == ItemKey(p, x)
    ensures Reconcile(Reconcile(s, xs, p), xs, q) == Reconcile(s, xs, p)
  {
    var r := Reconcile(s, xs, p);
    ReconcileSettles(s, xs, p);
    assert forall j :: 0 <= j < |xs| ==> Settled(r, q, ItemKey(q, xs[j])) by {
      forall j | 0 <= j < |xs|
        ensures Settled(r, q, ItemKey(q, xs[j]))
      {
        assert Settled(r, p, ItemKey(p, xs[j]));
      }
    }
    ReconcileSettledIsIdentity(r, xs, q);
  }

  /** Reconciling two snapshots one after the other is reconciling their concatenation. */
  lemma {:induction false} ReconcileConcat<I, T, K>(s: seq<T>, xs: seq<I>, ys: seq<I>, p: Policy<I, T, K>)
    ensures Reconcile(Reconcile(s, xs, p), ys, p) == Reconcile(s, xs + ys, p)
    decreases |ys|
  {
    if |ys| == 0 {
      assert xs + ys == xs;
    } else {
      var init := ys[..|ys| - 1];
      assert (xs + ys)[..|xs + ys| - 1] == xs + init;
      assert (xs + ys)[|xs + ys| - 1] == ys[|ys| - 1];
      ReconcileConcat(s, xs, init, p);
    }
  }
}
