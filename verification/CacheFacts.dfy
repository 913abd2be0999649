/** Laws of the cache's state functions: how removals compose, and what trimming achieves. */
module CacheFacts {
  import opened Prelude
  import opened OrderedMaps
  import opened CacheSpec

  lemma RemoveNothing<K(!new), V>(s: State<K, V>)
    requires WellFormed(s.entries)
    ensures Remove(s, {}) == s
  {
    DropAbsent(s.entries, {});
    assert Bump(s, {}).bumps == s.bumps;
  }

  /** Two rounds of bumps, over different keys, are one. */
  lemma BumpBump<K(!new), V>(s: State<K, V>, xs: set<K>, ys: set<K>)
    requires xs !! ys
    ensures Bump(Bump(s, xs), ys).bumps == Bump(s, xs + ys).bumps
  {
  }

  /** Removals may be done one after the other. */
  lemma RemoveRemove<K(!new), V>(s: State<K, V>, xs: set<K>, ys: set<K>)
    requires xs !! ys
    ensures Remove(Remove(s, xs), ys) == Remove(s, xs + ys)
  {
    DropDrop(s.entries, xs, ys);
    assert |xs + ys| == |xs| + |ys|;
    BumpBump(s, xs, ys);
    var once := Remove(s, xs);
    assert once.bumps == Bump(s, xs).bumps && once.pending == s.pending;
    assert Bump(once, ys).bumps == Bump(Bump(s, xs), ys).bumps;
  }

  lemma {:induction false} TotalIgnores<K(!new), V>(cfg: Config<V>, keys: seq<K>, t: map<K, Entry<V>>,
                                                    u: map<K, Entry<V>>)
    requires forall k :: k in keys ==> k in t && k in u && t[k].value == u[k].value
    ensures Total(cfg, keys, t) == Total(cfg, keys, u)
  {
    if keys != [] { TotalIgnores(cfg, keys[1..], t, u); }
  }

  lemma {:induction false} TotalConcat<K, V>(cfg: Config<V>, a: seq<K>, b: seq<K>, t: map<K, Entry<V>>)
    requires (forall k :: k in a ==> k in t) && (forall k :: k in b ==> k in t)
    ensures Total(cfg, a + b, t) == Total(cfg, a, t) + Total(cfg, b, t)
  {
    if a == [] {
      assert a + b == b;
    } else {
      assert (a + b)[1..] == a[1..] + b;
      TotalConcat(cfg, a[1..], b, t);
    }
  }

  lemma {:induction false} TotalMinus<K(!new), V>(cfg: Config<V>, keys: seq<K>, t: map<K, Entry<V>>, k: K)
    requires Distinct(keys) && k in keys
    requires forall x :: x in keys ==> x in t
    ensures Total(cfg, Minus(keys, {k}), t) == Total(cfg, keys, t) - EntrySize(cfg, t[k].value)
  {
    if keys[0] == k {
      MinusNothing(keys[1..], {k});
    } else {
      TotalMinus(cfg, keys[1..], t, k);
      var rest := Minus(keys[1..], {k});
      assert Minus(keys, {k}) == [keys[0]] + rest;
      assert ([keys[0]] + rest)[1..] == rest;
    }
  }

  /** The byte counter may be adjusted by the size of the one entry that leaves. */
  lemma WeightDrop<K(!new), V>(cfg: Config<V>, m: OrderedMap<K, Entry<V>>, k: K)
    requires WellFormed(m) && k in m.table
    ensures WellFormed(Drop(m, {k}))
    ensures Weight(cfg, Drop(m, {k})) == Weight(cfg, m) - EntrySize(cfg, m.table[k].value)
  {
    DropWellFormed(m, {k});
    TotalMinus(cfg, m.keys, m.table, k);
    TotalIgnores(cfg, Minus(m.keys, {k}), m.table, m.table - {k});
  }

  lemma WeightPut<K(!new), V>(cfg: Config<V>, m: OrderedMap<K, Entry<V>>, k: K, e: Entry<V>)
    requires WellFormed(m) && k !in m.table
    ensures WellFormed(Put(m, k, e))
    ensures Weight(cfg, Put(m, k, e)) == Weight(cfg, m) + EntrySize(cfg, e.value)
  {
    TotalConcat(cfg, m.keys, [k], m.table[k := e]);
    TotalIgnores(cfg, m.keys, m.table, m.table[k := e]);
    assert Total(cfg, [k], m.table[k := e]) == EntrySize(cfg, e.value);
  }

  /** Overwriting a value in place shifts the weight by the difference of the two sizes. */
  lemma WeightUpdate<K(!new), V>(cfg: Config<V>, m: OrderedMap<K, Entry<V>>, k: K, e: Entry<V>)
    requires WellFormed(m) && k in m.table
    ensures WellFormed(Put(m, k, e))
    ensures Weight(cfg, Put(m, k, e)) == Weight(cfg, m) - EntrySize(cfg, m.table[k].value) + EntrySize(cfg, e.value)
  {
    TotalMinus(cfg, m.keys, m.table, k);
    TotalMinus(cfg, m.keys, m.table[k := e], k);
    TotalIgnores(cfg, Minus(m.keys, {k}), m.table, m.table[k := e]);
  }

  lemma TouchFacts<K(!new), V>(cfg: Config<V>, m: OrderedMap<K, Entry<V>>, k: K)
    requires WellFormed(m) && k in m.table
    ensures WellFormed(Touch(cfg, m, k))
    ensures Touch(cfg, m, k).table == m.table
    ensures |Touch(cfg, m, k).keys| == |m.keys|
    ensures Weight(cfg, Touch(cfg, m, k)) == Weight(cfg, m)
  {
    if cfg.policy.Lru? {
      WeightDrop(cfg, m, k);
      WeightPut(cfg, Drop(m, {k}), k, m.table[k]);
      assert Touch(cfg, m, k).table == m.table;
      DistinctCardinality(m.keys);
      DistinctCardinality(Touch(cfg, m, k).keys);
    }
  }

  lemma SweepKeepsLive<K(!new), V>(cfg: Config<V>, s: State<K, V>, now: real)
    requires WellFormed(s.entries)
    ensures WellFormed(Sweep(cfg, s, now).entries)
    ensures forall k :: k in Sweep(cfg, s, now).entries.table <==> Live(cfg, s, k, now)
    ensures forall k :: Live(cfg, s, k, now) ==> Sweep(cfg, s, now).entries.table[k] == s.entries.table[k]
  {
    DropWellFormed(s.entries, ExpiredKeys(cfg, s.entries, now));
  }

  /** Removing what the size limit asks for leaves the youngest `capacity` keys. */
  lemma TrimSizeKeeps<K(!new), V>(cfg: Config<V>, s: State<K, V>)
    requires WellFormed(s.entries)
    ensures WellFormed(TrimSize(cfg, s).entries)
    ensures TrimSize(cfg, s).entries.keys == s.entries.keys[Max(0, |s.entries.keys| - cfg.capacity)..]
    ensures |TrimSize(cfg, s).entries.keys| == Min(|s.entries.keys|, cfg.capacity)
  {
    var n := Max(0, |s.entries.keys| - cfg.capacity);
    DropWellFormed(s.entries, Elements(s.entries.keys[..n]));
    DropPrefix(s.entries, n);
  }

  lemma {:induction false} OverweightFits<K(!new), V>(cfg: Config<V>, keys: seq<K>, t: map<K, Entry<V>>, budget: real)
    requires forall k :: k in keys ==> k in t
    requires budget >= 0.0
    ensures var n := Overweight(cfg, keys, t, budget);
      && Total(cfg, keys[n..], t) <= budget
      && (forall i :: 0 <= i < n ==> Total(cfg, keys[i..], t) > budget)
  {
    if keys != [] && Total(cfg, keys, t) > budget {
      OverweightFits(cfg, keys[1..], t, budget);
      var n := Overweight(cfg, keys, t, budget);
      assert keys[1..][n - 1..] == keys[n..];
      forall i | 0 <= i < n ensures Total(cfg, keys[i..], t) > budget {
        if i > 0 { assert keys[i..] == keys[1..][i - 1..]; }
      }
    }
  }

  /** The weight left after dropping the `i` oldest entries tells whether enough have gone. */
  lemma HeavyAt<K(!new), V>(cfg: Config<V>, m: OrderedMap<K, Entry<V>>, i: nat, budget: real)
    requires WellFormed(m) && budget >= 0.0
    requires i <= Overweight(cfg, m.keys, m.table, budget)
    ensures var r := Drop(m, Elements(m.keys[..i]));
      && WellFormed(r) && r.keys == m.keys[i..]
      && (i == Overweight(cfg, m.keys, m.table, budget) <==> Weight(cfg, r) <= budget)
  {
    DropWellFormed(m, Elements(m.keys[..i]));
    DropPrefix(m, i);
    OverweightFits(cfg, m.keys, m.table, budget);
    TotalIgnores(cfg, m.keys[i..], m.table, Drop(m, Elements(m.keys[..i])).table);
  }

  /** Removing what the byte limit asks for drops just enough of the oldest keys. */
  lemma TrimBytesKeeps<K(!new), V>(cfg: Config<V>, s: State<K, V>)
    requires WellFormed(s.entries) && ValidConfig(cfg)
    ensures WellFormed(TrimBytes(cfg, s).entries)
    ensures exists n: nat :: n <= |s.entries.keys| && TrimBytes(cfg, s).entries.keys == s.entries.keys[n..]
    ensures cfg.sizeOf.Some? && cfg.maxBytes.Some? ==> Weight(cfg, TrimBytes(cfg, s).entries) <= cfg.maxBytes.value
    ensures cfg.sizeOf.None? || cfg.maxBytes.None? ==> TrimBytes(cfg, s) == s
  {
    var m := s.entries;
    if cfg.sizeOf.Some? && cfg.maxBytes.Some? {
      var n := Overweight(cfg, m.keys, m.table, cfg.maxBytes.value);
      DropWellFormed(m, Elements(m.keys[..n]));
      DropPrefix(m, n);
      OverweightFits(cfg, m.keys, m.table, cfg.maxBytes.value);
      TotalIgnores(cfg, m.keys[n..], m.table, TrimBytes(cfg, s).entries.table);
    } else {
      RemoveNothing(s);
      assert Elements<K>([]) == {};
      assert s.entries.keys == s.entries.keys[0..];
    }
  }

  lemma TrimFacts<K(!new), V>(cfg: Config<V>, s: State<K, V>, now: real)
    requires WellFormed(s.entries) && ValidConfig(cfg)
    ensures var r := Trim(cfg, s, now);
      && WellFormed(r.entries)
      && |r.entries.keys| <= cfg.capacity
      && (cfg.sizeOf.Some? && cfg.maxBytes.Some? ==> Weight(cfg, r.entries) <= cfg.maxBytes.value)
  {
    SweepKeepsLive(cfg, s, now);
    var s1 := Sweep(cfg, s, now);
    TrimSizeKeeps(cfg, s1);
    TrimBytesKeeps(cfg, TrimSize(cfg, s1));
  }
}
