/** JavaScript's `Map`: a finite map that remembers the order in which its keys were inserted. */
module OrderedMaps {
  import opened Prelude

  datatype OrderedMap<K, V> = OrderedMap(keys: seq<K>, table: map<K, V>)

  ghost predicate WellFormed<K, V>(m: OrderedMap<K, V>) {
    Distinct(m.keys) && m.table.Keys == Elements(m.keys)
  }

  function Empty<K, V>(): OrderedMap<K, V> { OrderedMap([], map[]) }

  /** `map.set(k, v)`: a new key goes to the end, a present one keeps its place. */
  function Put<K(==), V>(m: OrderedMap<K, V>, k: K, v: V): OrderedMap<K, V> {
    OrderedMap(if k in m.table then m.keys else m.keys + [k], m.table[k := v])
  }

  /** `map.delete(k)` for every k in `ks`. */
  function Drop<K(==, !new), V>(m: OrderedMap<K, V>, ks: set<K>): OrderedMap<K, V> {
    OrderedMap(Minus(m.keys, ks), m.table - ks)
  }

  lemma DropWellFormed<K(!new), V>(m: OrderedMap<K, V>, ks: set<K>)
    requires WellFormed(m)
    ensures WellFormed(Drop(m, ks))
  {
    MinusDistinct(m.keys, ks);
  }

  lemma DropDrop<K(!new), V>(m: OrderedMap<K, V>, xs: set<K>, ys: set<K>)
    ensures Drop(Drop(m, xs), ys) == Drop(m, xs + ys)
  {
    MinusMinus(m.keys, xs, ys);
  }

  lemma DropAbsent<K(!new), V>(m: OrderedMap<K, V>, xs: set<K>)
    requires WellFormed(m) && m.table.Keys !! xs
    ensures Drop(m, xs) == m
  {
    MinusNothing(m.keys, xs);
  }

  /** Dropping the keys of a prefix leaves the younger entries. */
  lemma DropPrefix<K(!new), V>(m: OrderedMap<K, V>, n: nat)
    requires WellFormed(m) && n <= |m.keys|
    ensures Drop(m, Elements(m.keys[..n])).keys == m.keys[n..]
  {
    MinusPrefix(m.keys, n);
  }
}
