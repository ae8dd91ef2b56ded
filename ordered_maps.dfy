/** An insertion-ordered map with unique keys, as Immutable.js's `OrderedMap` behaves:
    `set` of a new key appends it, `set` of a present key replaces its value in place,
    `delete` removes the key and keeps the order of the others, `last` is the final value. */
module OrderedMaps {
  import opened JsValues

  type OrderedMap<K, V> = seq<(K, V)>

  /** The keys of `m`. */
  function Keys<K, V>(m: OrderedMap<K, V>): set<K> {
    if m == [] then {} else {m[0].0} + Keys(m[1..])
  }

  /** No key occurs twice: the representation invariant of an `OrderedMap`. */
  predicate UniqueKeys<K(==), V>(m: OrderedMap<K, V>) {
    m == [] || (m[0].0 !in Keys(m[1..]) && UniqueKeys(m[1..]))
  }

  /** The position of the first entry of `m` whose key is `k`. */
  function IndexOf<K(==), V>(m: OrderedMap<K, V>, k: K): (i: nat)
    requires k in Keys(m)
    ensures i < |m| && m[i].0 == k
    ensures forall j | 0 <= j < i :: m[j].0 != k
  {
    if m[0].0 == k then 0 else 1 + IndexOf(m[1..], k)
  }

  /** `m.get(k)`. */
  function Get<K(==), V>(m: OrderedMap<K, V>, k: K): Option<V> {
    if m == [] then None
    else if m[0].0 == k then Some(m[0].1)
    else Get(m[1..], k)
  }

  /** `m.set(k, v)`. */
  function Set<K(==), V>(m: OrderedMap<K, V>, k: K, v: V): OrderedMap<K, V> {
    if m == [] then [(k, v)]
    else if m[0].0 == k then [(k, v)] + m[1..]
    else [m[0]] + Set(m[1..], k, v)
  }

  /** `m.delete(k)`. */
  function Delete<K(==), V>(m: OrderedMap<K, V>, k: K): OrderedMap<K, V> {
    if m == [] then []
    else if m[0].0 == k then m[1..]
    else [m[0]] + Delete(m[1..], k)
  }

  /** `m.last()`: the value of the final entry, `undefined` when `m` is empty. */
  function Last<K, V>(m: OrderedMap<K, V>): (r: Option<V>)
    ensures r.None? <==> m == []
  {
    if m == [] then None else Some(m[|m| - 1].1)
  }

  lemma {:induction false} KeysAt<K, V>(m: OrderedMap<K, V>, i: nat)
    requires i < |m|
    ensures m[i].0 in Keys(m)
  {
    if i > 0 {
      KeysAt(m[1..], i - 1);
    }
  }

  /** The recursive invariant means what it says: distinct positions hold distinct keys. */
  lemma {:induction false} UniqueKeysAt<K, V>(m: OrderedMap<K, V>, i: nat, j: nat)
    requires UniqueKeys(m)
    requires i < j < |m|
    ensures m[i].0 != m[j].0
  {
    if i == 0 {
      KeysAt(m[1..], j - 1);
    } else {
      UniqueKeysAt(m[1..], i - 1, j - 1);
    }
  }

  /** `get` finds exactly the keys present, and finds the value stored at the key's position. */
  lemma {:induction false} GetSpec<K, V>(m: OrderedMap<K, V>, k: K)
    ensures Get(m, k).Some? <==> k in Keys(m)
    ensures k in Keys(m) ==> Get(m, k) == Some(m[IndexOf(m, k)].1)
  {
    if m != [] && m[0].0 != k {
      GetSpec(m[1..], k);
    }
  }

  /** `set` of a present key replaces its entry in place; `set` of a new key appends it. */
  lemma {:induction false} SetSpec<K, V>(m: OrderedMap<K, V>, k: K, v: V)
    ensures k in Keys(m) ==> Set(m, k, v) == m[IndexOf(m, k) := (k, v)]
    ensures k !in Keys(m) ==> Set(m, k, v) == m + [(k, v)]
  {
    if m != [] && m[0].0 != k {
      SetSpec(m[1..], k, v);
      if k in Keys(m[1..]) {
        var i := IndexOf(m[1..], k);
        assert [m[0]] + m[1..][i := (k, v)] == m[i + 1 := (k, v)];
      } else {
        assert [m[0]] + (m[1..] + [(k, v)]) == m + [(k, v)];
      }
    }
  }

  /** `set` adds exactly `k` to the keys and keeps the keys unique. */
  lemma {:induction false} SetKeys<K, V>(m: OrderedMap<K, V>, k: K, v: V)
    ensures Keys(Set(m, k, v)) == Keys(m) + {k}
    ensures UniqueKeys(m) ==> UniqueKeys(Set(m, k, v))
  {
    if m == [] {
    } else if m[0].0 == k {
      assert ([(k, v)] + m[1..])[1..] == m[1..];
    } else {
      SetKeys(m[1..], k, v);
      assert ([m[0]] + Set(m[1..], k, v))[1..] == Set(m[1..], k, v);
    }
  }

  /** After `set`, `get` of that key yields the new value and `get` of any other key is unchanged. */
  lemma {:induction false} GetSet<K, V>(m: OrderedMap<K, V>, k: K, v: V, j: K)
    ensures Get(Set(m, k, v), k) == Some(v)
    ensures j != k ==> Get(Set(m, k, v), j) == Get(m, j)
  {
    if m == [] {
    } else if m[0].0 == k {
      assert ([(k, v)] + m[1..])[1..] == m[1..];
    } else {
      GetSet(m[1..], k, v, j);
      assert ([m[0]] + Set(m[1..], k, v))[1..] == Set(m[1..], k, v);
    }
  }

  /** `delete` of a present key removes its entry and keeps the others in order;
      `delete` of an absent key changes nothing. */
  lemma {:induction false} DeleteSpec<K, V>(m: OrderedMap<K, V>, k: K)
    ensures k in Keys(m) ==> Delete(m, k) == m[..IndexOf(m, k)] + m[IndexOf(m, k) + 1..]
    ensures k !in Keys(m) ==> Delete(m, k) == m
  {
    if m != [] && m[0].0 != k {
      DeleteSpec(m[1..], k);
      if k in Keys(m[1..]) {
        var i := IndexOf(m[1..], k);
        assert [m[0]] + (m[1..][..i] + m[1..][i + 1..]) == m[..i + 1] + m[i + 2..];
      } else {
        assert [m[0]] + m[1..] == m;
      }
    }
  }

  /** On a well-formed map, `delete` removes exactly `k` from the keys and keeps them unique. */
  lemma {:induction false} DeleteKeys<K, V>(m: OrderedMap<K, V>, k: K)
    requires UniqueKeys(m)
    ensures Keys(Delete(m, k)) == Keys(m) - {k}
    ensures UniqueKeys(Delete(m, k))
  {
    if m == [] {
    } else if m[0].0 == k {
    } else {
      DeleteKeys(m[1..], k);
      assert ([m[0]] + Delete(m[1..], k))[1..] == Delete(m[1..], k);
    }
  }

  /** After `delete`, `get` of that key finds nothing and `get` of any other key is unchanged. */
  lemma {:induction false} GetDelete<K, V>(m: OrderedMap<K, V>, k: K, j: K)
    requires UniqueKeys(m)
    ensures Get(Delete(m, k), k) == None
    ensures j != k ==> Get(Delete(m, k), j) == Get(m, j)
  {
    if m == [] {
    } else if m[0].0 == k {
      GetSpec(m[1..], k);
    } else {
      GetDelete(m[1..], k, j);
      assert ([m[0]] + Delete(m[1..], k))[1..] == Delete(m[1..], k);
    }
  }

  /** Deleting a key just set leaves what deleting it from the original leaves:
      in particular, setting a new key and deleting it again restores the map. */
  lemma {:induction false} DeleteAfterSet<K, V>(m: OrderedMap<K, V>, k: K, v: V)
    ensures Delete(Set(m, k, v), k) == Delete(m, k)
  {
    if m == [] {
    } else if m[0].0 == k {
      assert ([(k, v)] + m[1..])[1..] == m[1..];
    } else {
      DeleteAfterSet(m[1..], k, v);
      assert ([m[0]] + Set(m[1..], k, v))[1..] == Set(m[1..], k, v);
    }
  }
}
