/**
 * A JavaScript `Map`: a finite map that remembers the order in which its keys were
 * first inserted. `set` on a key already present replaces the value and keeps the key
 * where it was; `delete` removes the key from the order; iteration (`values()`) follows
 * the order.
 */
module OrderedMaps {
  import opened Wrappers
  import opened JsText

  /** `keys` without any occurrence of `k`, in the same order. */
  function RemoveKey(keys: seq<JsString>, k: JsString): (r: seq<JsString>)
    ensures forall x :: x in r <==> x in keys && x != k
    ensures |r| <= |keys|
  {
    if keys == [] then []
    else if keys[0] == k then RemoveKey(keys[1..], k)
    else [keys[0]] + RemoveKey(keys[1..], k)
  }

  ghost predicate Distinct<T>(s: seq<T>)
  {
    forall i, j :: 0 <= i < j < |s| ==> s[i] != s[j]
  }

  lemma {:induction false} RemoveKeyDistinct(keys: seq<JsString>, k: JsString)
    requires Distinct(keys)
    ensures Distinct(RemoveKey(keys, k))
    ensures k in keys ==> |RemoveKey(keys, k)| == |keys| - 1
    ensures k !in keys ==> RemoveKey(keys, k) == keys
  {
    if keys != [] {
      assert Distinct(keys[1..]);
      RemoveKeyDistinct(keys[1..], k);
      if keys[0] != k {
        var r := [keys[0]] + RemoveKey(keys[1..], k);
        assert keys[0] !in keys[1..];
        forall i, j | 0 <= i < j < |r| ensures r[i] != r[j] {
          if i == 0 { assert r[j] in RemoveKey(keys[1..], k); }
        }
      } else {
        assert k !in keys[1..];
      }
    }
  }

  datatype OrderedMap<V> = OrderedMap(keys: seq<JsString>, entries: map<JsString, V>) {

    /** The insertion order lists every key exactly once. */
    ghost predicate Valid()
    {
      && Distinct(keys)
      && (forall k :: k in entries <==> k in keys)
    }

    /** Every value is stored under the identity `idOf` gives it. */
    ghost predicate KeyedBy(idOf: V -> JsString)
    {
      forall k :: k in entries ==> idOf(entries[k]) == k
    }

    /** `map.has(k)`. */
    predicate Has(k: JsString)
    {
      k in entries
    }

    /** `map.get(k)`, with `undefined` as `None`. */
    function Get(k: JsString): (r: Option<V>)
      ensures r.Some? <==> Has(k)
      ensures r.Some? ==> r.value == entries[k]
    {
      if k in entries then Some(entries[k]) else None
    }

    /** `map.size`. */
    function Size(): (n: nat)
      requires Valid()
      ensures n == |entries|
      ensures n == 0 <==> entries == map[]
    {
      SizeIsCardinality();
      |keys|
    }

    lemma SizeIsCardinality()
      requires Valid()
      ensures |keys| == |entries|
    {
      var ks := set k | k in keys;
      assert ks == entries.Keys;
      DistinctCardinality(keys);
    }

    /** `map.set(k, v)`; what it does to the lookups and the order is `SetSemantics`. */
    function Set(k: JsString, v: V): (r: OrderedMap<V>)
      requires Valid()
      ensures r.Valid()
    {
      if k in entries then OrderedMap(keys, entries[k := v])
      else OrderedMap(keys + [k], entries[k := v])
    }

    /** `map.delete(k)`; what it does to the lookups and the order is `DeleteSemantics`. */
    function Delete(k: JsString): (r: OrderedMap<V>)
      requires Valid()
      ensures r.Valid()
    {
      RemoveKeyDistinct(keys, k);
      OrderedMap(RemoveKey(keys, k), entries - {k})
    }

    /** `Array.from(map.values())`: the values, in key-insertion order. */
    function Values(): (vs: seq<V>)
      requires Valid()
      ensures |vs| == |keys|
      ensures forall i :: 0 <= i < |keys| ==> vs[i] == entries[keys[i]]
    {
      seq(|keys|, i requires 0 <= i < |keys| => entries[keys[i]])
    }
  }

  /**
   * `map.set(k, v)`: afterwards `k` maps to `v` and every other key to what it mapped
   * to before; a present key keeps its place in the order, a new key goes last.
   */
  lemma SetSemantics<V>(m: OrderedMap<V>, k: JsString, v: V)
    requires m.Valid()
    ensures m.Set(k, v).Get(k) == Some(v)
    ensures forall k' :: k' != k ==> m.Set(k, v).Get(k') == m.Get(k')
    ensures m.Has(k) ==> m.Set(k, v).keys == m.keys
    ensures !m.Has(k) ==> m.Set(k, v).keys == m.keys + [k]
  {
  }

  /**
   * `map.delete(k)`: afterwards `k` is absent, every other key maps to what it mapped
   * to before, and the remaining keys keep their order; deleting an absent key changes
   * nothing.
   */
  lemma DeleteSemantics<V>(m: OrderedMap<V>, k: JsString)
    requires m.Valid()
    ensures !m.Delete(k).Has(k)
    ensures forall k' :: k' != k ==> m.Delete(k).Get(k') == m.Get(k')
    ensures m.Delete(k).keys == RemoveKey(m.keys, k)
    ensures m.Has(k) ==> m.Delete(k).Size() == m.Size() - 1
    ensures !m.Has(k) ==> m.Delete(k) == m
  {
    RemoveKeyDistinct(m.keys, k);
    if !m.Has(k) {
      assert m.entries - {k} == m.entries;
    }
  }

  function Empty<V>(): (m: OrderedMap<V>)
    ensures m.Valid() && m.Size() == 0
    ensures forall k :: !m.Has(k)
  {
    OrderedMap([], map[])
  }

  lemma {:induction false} DistinctCardinality(s: seq<JsString>)
    requires Distinct(s)
    ensures |set k | k in s| == |s|
  {
    if s != [] {
      var last := s[|s| - 1];
      var init := s[..|s| - 1];
      assert Distinct(init);
      DistinctCardinality(init);
      assert (set k | k in s) == (set k | k in init) + {last};
      assert last !in init;
    } else {
      assert (set k: JsString | k in s) == {};
    }
  }

  /** `[f(0), ..., f(n - 1)]`. */
  function Tabulate<V>(f: nat -> V, n: nat): (r: seq<V>)
    ensures |r| == n
  {
    if n == 0 then [] else Tabulate(f, n - 1) + [f(n - 1)]
  }

  lemma {:induction false} TabulateIndex<V>(f: nat -> V, n: nat, k: nat)
    requires k < n
    ensures Tabulate(f, n)[k] == f(k)
  {
    if k < n - 1 {
      TabulateIndex(f, n - 1, k);
    }
  }

  /** `for (let i = 0; i < n; i++) map.set(idOf(f(i)), f(i))`, starting from an empty map. */
  function SetEach<V>(f: nat -> V, n: nat, idOf: V -> JsString): (m: OrderedMap<V>)
    ensures m.Valid() && m.KeyedBy(idOf)
  {
    if n == 0 then Empty()
    else
      var init := SetEach(f, n - 1, idOf);
      SetKeepsKeyedBy(init, idOf, f(n - 1));
      init.Set(idOf(f(n - 1)), f(n - 1))
  }

  /** Pass `n - 1` stores the value `f(n - 1)` under its identity. */
  lemma SetEachStep<V>(f: nat -> V, n: nat, idOf: V -> JsString)
    requires n > 0
    ensures SetEach(f, n - 1, idOf).Valid()
    ensures SetEach(f, n, idOf) == SetEach(f, n - 1, idOf).Set(idOf(f(n - 1)), f(n - 1))
    ensures Tabulate(f, n) == Tabulate(f, n - 1) + [f(n - 1)]
  {
  }

  /** Inserting values of pairwise-distinct identities lists their identities in insertion order. */
  lemma {:induction false} SetEachKeys<V>(f: nat -> V, n: nat, idOf: V -> JsString)
    requires forall a: nat, b: nat :: a < b < n ==> idOf(f(a)) != idOf(f(b))
    ensures |SetEach(f, n, idOf).keys| == n
    ensures forall i: nat :: i < n ==> SetEach(f, n, idOf).keys[i] == idOf(f(i))
  {
    if n > 0 {
      SetEachKeys(f, n - 1, idOf);
      var m := SetEach(f, n - 1, idOf);
      var k := idOf(f(n - 1));
      forall j | 0 <= j < |m.keys| ensures m.keys[j] != k {
        assert m.keys[j] == idOf(f(j));
      }
      assert !m.Has(k);
      SetSemantics(m, k, f(n - 1));
      SetEachStep(f, n, idOf);
      var ks := SetEach(f, n, idOf).keys;
      assert ks == m.keys + [k];
      forall i: nat | i < n ensures ks[i] == idOf(f(i)) {
        if i < n - 1 { assert ks[i] == m.keys[i]; }
      }
    }
  }

  /** Inserting values of pairwise-distinct identities lists the values in insertion order. */
  lemma {:induction false} SetEachValues<V>(f: nat -> V, n: nat, idOf: V -> JsString)
    requires forall a: nat, b: nat :: a < b < n ==> idOf(f(a)) != idOf(f(b))
    ensures SetEach(f, n, idOf).Values() == Tabulate(f, n)
  {
    if n > 0 {
      SetEachValues(f, n - 1, idOf);
      SetEachAppends(f, n, idOf);
      SnocEqual(SetEach(f, n, idOf).Values(), SetEach(f, n - 1, idOf).Values(), Tabulate(f, n), Tabulate(f, n - 1), f(n - 1));
    }
  }

  /** Equal sequences extended by the same element stay equal. */
  lemma SnocEqual<T>(a: seq<T>, b: seq<T>, c: seq<T>, d: seq<T>, x: T)
    requires a == b + [x] && c == d + [x] && b == d
    ensures a == c
  {
  }

  /** Pass `n - 1` appends `f(n - 1)` to the values, as it does to the tabulation. */
  lemma SetEachAppends<V>(f: nat -> V, n: nat, idOf: V -> JsString)
    requires n > 0
    requires forall a: nat, b: nat :: a < b < n ==> idOf(f(a)) != idOf(f(b))
    ensures SetEach(f, n, idOf).Values() == SetEach(f, n - 1, idOf).Values() + [f(n - 1)]
    ensures Tabulate(f, n) == Tabulate(f, n - 1) + [f(n - 1)]
  {
    var m := SetEach(f, n - 1, idOf);
    var k := idOf(f(n - 1));
    SetEachKeys(f, n - 1, idOf);
    forall j | 0 <= j < |m.keys| ensures m.keys[j] != k {
      assert m.keys[j] == idOf(f(j));
    }
    SetAbsentAppends(m, k, f(n - 1));
    SetEachStep(f, n, idOf);
  }

  /** Re-storing a present key never reorders the values: only that key's slot changes. */
  lemma SetPresentKeepsOrder<V>(m: OrderedMap<V>, k: JsString, v: V)
    requires m.Valid() && m.Has(k)
    ensures m.Set(k, v).Size() == m.Size()
    ensures forall i :: 0 <= i < |m.keys| ==>
      m.Set(k, v).Values()[i] == if m.keys[i] == k then v else m.Values()[i]
  {
  }

  /** Re-storing the present key at position `p` replaces exactly that slot of the values. */
  lemma SetPresentSplice<V>(m: OrderedMap<V>, k: JsString, v: V) returns (p: nat)
    requires m.Valid() && m.Has(k)
    ensures p < |m.keys| && m.keys[p] == k
    ensures m.Set(k, v).Values() == m.Values()[..p] + [v] + m.Values()[p + 1..]
  {
    p :| 0 <= p < |m.keys| && m.keys[p] == k;
    SetSemantics(m, k, v);
    SetPresentKeepsOrder(m, k, v);
    var vs, ws := m.Values(), m.Set(k, v).Values();
    forall i | 0 <= i < |ws| ensures ws[i] == (vs[..p] + [v] + vs[p + 1..])[i] {
      if i != p {
        assert m.keys[i] != k;
      }
    }
  }

  /** Storing a new key appends its value to the snapshot. */
  lemma SetAbsentAppends<V>(m: OrderedMap<V>, k: JsString, v: V)
    requires m.Valid() && !m.Has(k)
    ensures m.Set(k, v).Values() == m.Values() + [v]
  {
    var r := m.Set(k, v);
    assert r.keys == m.keys + [k];
    assert forall i :: 0 <= i < |m.keys| ==> r.keys[i] == m.keys[i] && r.keys[i] != k;
  }

  /** Every stored value is keyed by its own identity after a `set` of a value keyed by its own. */
  lemma SetKeepsKeyedBy<V>(m: OrderedMap<V>, idOf: V -> JsString, v: V)
    requires m.Valid() && m.KeyedBy(idOf)
    ensures m.Set(idOf(v), v).KeyedBy(idOf)
  {
  }

  lemma DeleteKeepsKeyedBy<V>(m: OrderedMap<V>, idOf: V -> JsString, k: JsString)
    requires m.Valid() && m.KeyedBy(idOf)
    ensures m.Delete(k).KeyedBy(idOf)
  {
  }

  /** In a map keyed by identity, distinct positions hold values of distinct identities. */
  lemma KeyedValuesDistinct<V>(m: OrderedMap<V>, idOf: V -> JsString)
    requires m.Valid() && m.KeyedBy(idOf)
    ensures forall i :: 0 <= i < |m.keys| ==> idOf(m.Values()[i]) == m.keys[i]
    ensures forall i, j :: 0 <= i < j < |m.keys| ==> idOf(m.Values()[i]) != idOf(m.Values()[j])
  {
  }
}
