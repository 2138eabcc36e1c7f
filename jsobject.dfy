/** A plain JavaScript object used as a dictionary with string keys: its own keys in insertion
    order (the order `Object.keys`, `Object.values` and `Object.entries` list them in) and the
    value under each. */
module JsObject {
  import opened Seqs

  datatype Obj<V> = Obj(keys: seq<string>, entries: map<string, V>)

  /** Each key listed once, and exactly the keys that have a value. */
  ghost predicate Valid<V>(o: Obj<V>)
  {
    Distinct(o.keys) && forall k :: k in o.entries <==> k in o.keys
  }

  /** `{}` */
  function Empty<V>(): (o: Obj<V>)
    ensures Valid(o)
  {
    Obj([], map[])
  }

  /** `o[k] = v`: a new key goes after the existing ones; an existing key keeps its place. */
  function Put<V>(o: Obj<V>, k: string, v: V): (r: Obj<V>)
    ensures r.entries == o.entries[k := v]
    ensures r.keys == if k in o.entries then o.keys else o.keys + [k]
    ensures Valid(o) ==> Valid(r)
  {
    if k in o.entries then Obj(o.keys, o.entries[k := v]) else Obj(o.keys + [k], o.entries[k := v])
  }

  /** The value under k, or the given default when o has no entry for k. */
  function Lookup<V>(o: Obj<V>, k: string, default: V): V
  {
    if k in o.entries then o.entries[k] else default
  }

  /** `Object.values(o)` */
  function Values<V>(o: Obj<V>): (vs: seq<V>)
    requires Valid(o)
    ensures |vs| == |o.keys|
    ensures forall i :: 0 <= i < |o.keys| ==> vs[i] == o.entries[o.keys[i]]
  {
    seq(|o.keys|, i requires 0 <= i < |o.keys| => o.entries[o.keys[i]])
  }

  /** The sum of f over the listed keys that have a value. */
  function SumOver<V>(keys: seq<string>, m: map<string, V>, f: (string, V) -> int): int
    decreases |keys|
  {
    if |keys| == 0 then 0
    else
      var k := keys[|keys| - 1];
      SumOver(keys[..|keys| - 1], m, f) + (if k in m then f(k, m[k]) else 0)
  }

  /** The sum of f over the entries of o, as a loop over `Object.entries(o)` accumulates it. */
  function Sum<V>(o: Obj<V>, f: (string, V) -> int): int
  {
    SumOver(o.keys, o.entries, f)
  }

  lemma {:induction false} SumOverIgnores<V>(keys: seq<string>, m: map<string, V>, k: string, v: V, f: (string, V) -> int)
    requires k !in keys
    ensures SumOver(keys, m[k := v], f) == SumOver(keys, m, f)
    decreases |keys|
  {
    if |keys| > 0 {
      SumOverIgnores(keys[..|keys| - 1], m, k, v, f);
    }
  }

  lemma {:induction false} SumOverUpdate<V>(keys: seq<string>, m: map<string, V>, k: string, v: V, f: (string, V) -> int)
    requires Distinct(keys) && k in keys && k in m
    ensures SumOver(keys, m[k := v], f) == SumOver(keys, m, f) - f(k, m[k]) + f(k, v)
    decreases |keys|
  {
    var init, last := keys[..|keys| - 1], keys[|keys| - 1];
    assert keys == init + [last];
    if last == k {
      assert k !in init;
      SumOverIgnores(init, m, k, v, f);
    } else {
      assert k in init;
      SumOverUpdate(init, m, k, v, f);
    }
  }

  /** Storing v under k changes the sum by f of the new value less f of the value it replaces. */
  lemma SumPut<V>(o: Obj<V>, k: string, v: V, f: (string, V) -> int)
    requires Valid(o)
    ensures Sum(Put(o, k, v), f) == Sum(o, f) + f(k, v) - (if k in o.entries then f(k, o.entries[k]) else 0)
  {
    if k in o.entries {
      SumOverUpdate(o.keys, o.entries, k, v, f);
    } else {
      var keys := o.keys + [k];
      assert keys[..|keys| - 1] == o.keys;
      SumOverIgnores(o.keys, o.entries, k, v, f);
    }
  }
}
