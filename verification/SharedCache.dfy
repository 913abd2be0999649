/** The shared cache itself: fields updated in place, method by method, as `createCache` does.

    Every method is proved to take the state to exactly what `CacheSpec` says, and to keep the two derived
    structures exact: the tag index (an inverted index with no empty bucket) and the running byte count. */
module SharedCache {
  import opened Prelude
  import opened OrderedMaps
  import opened CacheSpec
  import opened CacheFacts
  import opened CacheAnswers

  /** A bucket is a JavaScript `Set`: its keys stand in the order in which they were added. */
  type TagIndex<K> = map<string, seq<K>>

  ghost predicate InBucket<K>(index: TagIndex<K>, t: string, k: K) { t in index && k in index[t] }

  ghost predicate NoEmptyBucket<K>(index: TagIndex<K>) { forall t :: t in index ==> index[t] != [] }

  function BucketOf<K>(index: TagIndex<K>, t: string): seq<K> { if t in index then index[t] else [] }

  /** `set.add(k)`: a new key goes to the end. */
  function Add<K(==)>(s: seq<K>, k: K): seq<K> { if k in s then s else s + [k] }

  /** `set.add` for every key of `ks`, in order. */
  function AddAll<K(==, !new)>(s: seq<K>, ks: seq<K>): (r: seq<K>)
    ensures forall k :: k in r <==> k in s || k in ks
    decreases |ks|
  {
    if ks == [] then s
    else
      assert ks == Front(ks) + [Last(ks)];
      Add(AddAll(s, Front(ks)), Last(ks))
  }

  lemma AddAllSnoc<K(!new)>(s: seq<K>, ks: seq<K>, i: nat)
    requires i < |ks|
    ensures AddAll(s, ks[..i + 1]) == Add(AddAll(s, ks[..i]), ks[i])
  {
    assert ks[..i + 1][..i] == ks[..i];
  }

  /** The keys under the tags, bucket after bucket, each where it is met first. */
  function Collected<K(==, !new)>(index: TagIndex<K>, tags: seq<string>): seq<K> {
    if tags == [] then [] else AddAll(Collected(index, Front(tags)), BucketOf(index, Last(tags)))
  }

  lemma CollectedSnoc<K(!new)>(index: TagIndex<K>, tags: seq<string>, i: nat)
    requires i < |tags|
    ensures Collected(index, tags[..i + 1]) == AddAll(Collected(index, tags[..i]), BucketOf(index, tags[i]))
  {
    assert tags[..i + 1][..i] == tags[..i];
  }

  /** The index holds exactly the (tag, key) pairs of the entries. */
  ghost predicate Indexes<K(!new), V>(index: TagIndex<K>, m: OrderedMap<K, Entry<V>>) {
    && NoEmptyBucket(index)
    && (forall t, k :: InBucket(index, t, k) <==> k in m.table && t in m.table[k].tags)
  }

  lemma PickedGrows<T(!new)>(picked: set<T>, s: seq<T>, i: nat)
    requires Distinct(s) && i < |s|
    ensures s[i] !in Elements(s[..i])
    ensures picked * Elements(s[..i + 1]) == picked * Elements(s[..i]) + if s[i] in picked then {s[i]} else {}
  {
    PrefixGrows(s, i);
  }

  lemma PrefixGrows<T(!new)>(s: seq<T>, i: nat)
    requires Distinct(s) && i < |s|
    ensures Elements(s[..i + 1]) == Elements(s[..i]) + {s[i]}
    ensures s[i] !in Elements(s[..i])
    ensures s[i..] != [] && s[i..][0] == s[i] && s[i..][1..] == s[i + 1..]
  {
    assert s[..i + 1] == s[..i] + [s[i]];
  }

  /** The cache when a sweep has looked at its first `i` keys. */
  ghost function Swept<K(!new), V>(cfg: Config<V>, s: State<K, V>, now: real, i: nat): State<K, V>
    requires i <= |s.entries.keys|
  {
    Remove(s, ExpiredKeys(cfg, s.entries, now) * Elements(s.entries.keys[..i]))
  }

  lemma SweptEnds<K(!new), V>(cfg: Config<V>, s: State<K, V>, now: real)
    requires WellFormed(s.entries)
    ensures Swept(cfg, s, now, 0) == s && Swept(cfg, s, now, |s.entries.keys|) == Sweep(cfg, s, now)
  {
    var keys, doomed := s.entries.keys, ExpiredKeys(cfg, s.entries, now);
    RemoveNothing(s);
    assert doomed * Elements(keys[..0]) == {};
    assert keys[..|keys|] == keys;
    assert doomed * Elements(keys) == doomed;
  }

  /** The size left after dropping the `i` oldest entries tells whether enough have gone. */
  lemma ExcessAt<K(!new), V>(cfg: Config<V>, m: OrderedMap<K, Entry<V>>, i: nat)
    requires WellFormed(m) && i <= |Excess(cfg, m.keys)|
    ensures i == |Excess(cfg, m.keys)| <==> |Drop(m, Elements(m.keys[..i])).keys| <= cfg.capacity
    ensures Excess(cfg, m.keys) == m.keys[..|Excess(cfg, m.keys)|]
  {
    DropPrefix(m, i);
  }

  /** `bucket.delete(key)`, and the bucket goes when it becomes empty. */
  function Without<K(==, !new)>(index: TagIndex<K>, tag: string, key: K): TagIndex<K>
    requires tag in index
  {
    var bucket := Minus(index[tag], {key});
    if bucket == [] then index - {tag} else index[tag := bucket]
  }

  lemma WithoutMembers<K(!new)>(index: TagIndex<K>, tag: string, key: K, t: string, k: K)
    requires tag in index
    ensures InBucket(Without(index, tag, key), t, k) <==> InBucket(index, t, k) && !(k == key && t == tag)
  {
    if t == tag {
      assert k in Minus(index[tag], {key}) <==> k in index[tag] && k != key;
    }
  }

  ghost predicate InSomeBucket<K>(index: TagIndex<K>, tags: seq<string>, k: K) {
    exists t :: t in tags && InBucket(index, t, k)
  }

  lemma {:induction false} CollectedMembers<K(!new)>(index: TagIndex<K>, tags: seq<string>)
    ensures forall k :: k in Collected(index, tags) <==> InSomeBucket(index, tags, k)
  {
    if tags != [] {
      var rest, last := Front(tags), Last(tags);
      CollectedMembers(index, rest);
      assert tags == rest + [last];
      forall k ensures k in Collected(index, tags) <==> InSomeBucket(index, tags, k) {
        assert InSomeBucket(index, tags, k) <==> InSomeBucket(index, rest, k) || InBucket(index, last, k) by {
          if InSomeBucket(index, rest, k) {
            var t :| t in rest && InBucket(index, t, k);
            assert t in tags;
          }
          assert last in tags;
        }
      }
    }
  }

  /** Collecting the buckets of `tags` finds exactly the tagged entries. */
  lemma TaggedFromIndex<K(!new), V>(index: TagIndex<K>, m: OrderedMap<K, Entry<V>>, tags: seq<string>)
    requires Indexes(index, m)
    ensures Elements(Collected(index, tags)) == Tagged(m, Elements(tags))
  {
    CollectedMembers(index, tags);
    var found := Elements(Collected(index, tags));
    forall k ensures k in found <==> k in Tagged(m, Elements(tags)) {
      if k in found {
        var t :| t in tags && InBucket(index, t, k);
        assert t in m.table[k].tags * Elements(tags);
      }
      if k in Tagged(m, Elements(tags)) {
        var t :| t in m.table[k].tags * Elements(tags);
        assert InBucket(index, t, k);
      }
    }
  }

  /** The keys of `keys` that are in `xs`, in their order. */
  function KeysIn<K(==, !new)>(keys: seq<K>, xs: set<K>): (r: seq<K>)
    ensures forall k :: k in r <==> k in keys && k in xs
  {
    if keys == [] then []
    else
      var last := Last(keys);
      assert keys == Front(keys) + [last];
      KeysIn(Front(keys), xs) + if last in xs then [last] else []
  }

  lemma KeysInSnoc<K(!new)>(keys: seq<K>, i: nat, xs: set<K>)
    requires i < |keys|
    ensures KeysIn(keys[..i + 1], xs) == KeysIn(keys[..i], xs) + if keys[i] in xs then [keys[i]] else []
  {
    assert keys[..i + 1][..i] == keys[..i];
  }

  lemma GetLive<K(!new), V>(cfg: Config<V>, s: State<K, V>, k: K, now: real, r: State<K, V>)
    requires Live(cfg, s, k, now) && r == s.(entries := Touch(cfg, s.entries, k))
    ensures Get(cfg, s, k, now).0 ==
            if StaleWithin(cfg, s.entries.table[k], now) then r.(staleHits := s.staleHits + 1)
            else r.(hits := s.hits + 1)
    ensures Get(cfg, s, k, now).1 == Some(s.entries.table[k].value)
  {
  }

  class Cache<K(==, !new), V> {
    const cfg: Config<V>
    var entries: OrderedMap<K, Entry<V>>
    var tagIndex: TagIndex<K>
    var pending: map<K, nat>
    var bumps: map<K, Positive>
    var loads: map<nat, Load<K, V>>
    var nextLoad: nat
    var bytes: real
    var hits: nat
    var misses: nat
    var staleHits: nat
    var evictions: nat
    var disposed: bool

    ghost predicate Valid()
      reads this
    {
      && ValidConfig(cfg)
      && WellFormed(entries)
      && Indexes(tagIndex, entries)
      && bytes == Weight(cfg, entries)
    }

    ghost function St(): State<K, V>
      reads this
    {
      State(entries, pending, bumps, loads, nextLoad, hits, misses, staleHits, evictions, disposed)
    }

    constructor (cfg: Config<V>)
      requires ValidConfig(cfg)
      ensures Valid() && this.cfg == cfg && St() == Init()
    {
      this.cfg := cfg;
      entries, tagIndex, pending, bumps, loads := Empty(), map[], map[], map[], map[];
      nextLoad, bytes, hits, misses, staleHits, evictions, disposed := 0, 0.0, 0, 0, 0, 0, false;
    }

    // ---- internal steps -----------------------------------------------------------------

    method BumpKey(key: K)
      modifies this`bumps
      ensures St() == Bump(old(St()), {key})
    {
      if key in pending {
        bumps := bumps[key := Count(bumps, key) + 1];
      }
      assert bumps == Bump(old(St()), {key}).bumps;
    }

    method Untag(key: K, tags: set<string>)
      requires NoEmptyBucket(tagIndex)
      modifies this`tagIndex
      ensures NoEmptyBucket(tagIndex)
      ensures forall t, k :: InBucket(tagIndex, t, k) <==> InBucket(old(tagIndex), t, k) && !(k == key && t in tags)
      ensures forall t :: BucketOf(tagIndex, t) ==
                          if t in tags then Minus(BucketOf(old(tagIndex), t), {key}) else BucketOf(old(tagIndex), t)
    {
      var rest := tags;
      while rest != {}
        invariant forall t :: BucketOf(tagIndex, t) ==
                    if t in tags - rest then Minus(BucketOf(old(tagIndex), t), {key}) else BucketOf(old(tagIndex), t)
        invariant rest <= tags && NoEmptyBucket(tagIndex)
        invariant forall t, k :: InBucket(tagIndex, t, k) <==>
                    InBucket(old(tagIndex), t, k) && !(k == key && t in tags - rest)
        decreases rest
      {
        var tag :| tag in rest;
        if tag in tagIndex {
          forall t, k ensures InBucket(Without(tagIndex, tag, key), t, k) <==>
            InBucket(tagIndex, t, k) && !(k == key && t == tag) {
            WithoutMembers(tagIndex, tag, key, t, k);
          }
          tagIndex := Without(tagIndex, tag, key);
        }
        rest := rest - {tag};
      }
    }

    method AddTags(key: K, tags: seq<string>)
      requires NoEmptyBucket(tagIndex)
      modifies this`tagIndex
      ensures NoEmptyBucket(tagIndex)
      ensures forall t, k :: InBucket(tagIndex, t, k) <==> InBucket(old(tagIndex), t, k) || (k == key && t in tags)
      ensures forall t :: BucketOf(tagIndex, t) ==
                          if t in tags then Add(BucketOf(old(tagIndex), t), key) else BucketOf(old(tagIndex), t)
    {
      for i := 0 to |tags|
        invariant forall t :: BucketOf(tagIndex, t) ==
                    if t in tags[..i] then Add(BucketOf(old(tagIndex), t), key) else BucketOf(old(tagIndex), t)
        invariant NoEmptyBucket(tagIndex)
      {
        tagIndex := tagIndex[tags[i] := Add(BucketOf(tagIndex, tags[i]), key)];
        assert tags[..i + 1] == tags[..i] + [tags[i]];
      }
      assert tags[..|tags|] == tags;
      forall t, k ensures InBucket(tagIndex, t, k) <==> InBucket(old(tagIndex), t, k) || (k == key && t in tags) {
        assert InBucket(tagIndex, t, k) <==> k in BucketOf(tagIndex, t);
        assert InBucket(old(tagIndex), t, k) <==> k in BucketOf(old(tagIndex), t);
      }
    }

    method RemoveKey(key: K, entry: Entry<V>)
      requires Valid() && key in entries.table && entry == entries.table[key]
      modifies this
      ensures Valid() && St() == Remove(old(St()), {key})
    {
      WeightDrop(cfg, entries, key);
      BumpKey(key);
      entries := Drop(entries, {key});
      bytes := bytes - EntrySize(cfg, entry.value);
      Untag(key, entry.tags);
      evictions := evictions + 1;
    }

    /** One round of a removal loop that started from `base` and has removed `done` so far. */
    method RemoveNext(key: K, ghost base: State<K, V>, ghost done: set<K>)
      requires Valid() && St() == Remove(base, done)
      requires key in entries.table && key !in done
      modifies this
      ensures Valid() && St() == Remove(base, done + {key})
    {
      RemoveRemove(base, done, {key});
      RemoveKey(key, entries.table[key]);
    }

    /** One round of the sweep that started from `base`. */
    method SweepNext(key: K, i: nat, now: real, ghost base: State<K, V>)
      requires Valid() && WellFormed(base.entries) && i < |base.entries.keys| && key == base.entries.keys[i]
      requires St() == Swept(cfg, base, now, i)
      modifies this
      ensures Valid() && St() == Swept(cfg, base, now, i + 1)
    {
      ghost var keys, doomed := base.entries.keys, ExpiredKeys(cfg, base.entries, now);
      ghost var done := doomed * Elements(keys[..i]);
      PickedGrows(doomed, keys, i);
      assert key in base.entries.table && key !in done;
      assert key in entries.table && entries.table[key] == base.entries.table[key];
      if Expired(cfg, entries.table[key], now) {
        RemoveNext(key, base, done);
      }
    }

    method SweepExpired(now: real)
      requires Valid()
      modifies this
      ensures Valid() && St() == Sweep(cfg, old(St()), now)
    {
      var keys := entries.keys;
      ghost var base := St();
      SweptEnds(cfg, base, now);
      for i := 0 to |keys|
        invariant WellFormed(base.entries) && base.entries.keys == keys
        invariant Valid() && St() == Swept(cfg, base, now, i)
      {
        SweepNext(keys[i], i, now, base);
      }
    }

    method TrimToSize()
      requires Valid()
      modifies this
      ensures Valid() && St() == TrimSize(cfg, old(St()))
    {
      var keys, i := entries.keys, 0;
      ghost var base, done, n := St(), {}, |Excess(cfg, keys)|;
      RemoveNothing(base);
      ExcessAt(cfg, base.entries, 0);
      while i < |keys| && |entries.keys| > cfg.capacity
        invariant 0 <= i <= n <= |keys|
        invariant done == Elements(keys[..i])
        invariant i == n <==> |entries.keys| <= cfg.capacity
        invariant Valid() && St() == Remove(base, done)
      {
        PrefixGrows(keys, i);
        ExcessAt(cfg, base.entries, i + 1);
        RemoveNext(keys[i], base, done);
        done := done + {keys[i]};
        i := i + 1;
      }
    }

    method TrimToBytes(sizeOf: V -> Number, budget: real)
      requires Valid() && cfg.sizeOf == Some(sizeOf) && cfg.maxBytes == Some(budget)
      modifies this
      ensures Valid() && St() == TrimBytes(cfg, old(St()))
    {
      var keys, i := entries.keys, 0;
      ghost var base, done := St(), {};
      ghost var n := Overweight(cfg, keys, entries.table, budget);
      RemoveNothing(base);
      HeavyAt(cfg, base.entries, 0, budget);
      while i < |keys| && bytes > budget
        invariant 0 <= i <= n <= |keys|
        invariant done == Elements(keys[..i]) && entries.keys == keys[i..]
        invariant i == n <==> bytes <= budget
        invariant Valid() && St() == Remove(base, done)
      {
        PrefixGrows(keys, i);
        HeavyAt(cfg, base.entries, i + 1, budget);
        RemoveNext(keys[i], base, done);
        done := done + {keys[i]};
        i := i + 1;
      }
    }

    method TrimAll(now: real)
      requires Valid()
      modifies this
      ensures Valid() && St() == Trim(cfg, old(St()), now)
    {
      SweepExpired(now);
      TrimToSize();
      if cfg.sizeOf.Some? && cfg.maxBytes.Some? {
        TrimToBytes(cfg.sizeOf.value, cfg.maxBytes.value);
      } else {
        TrimBytesKeeps(cfg, St());
      }
    }

    method TouchKey(key: K)
      requires Valid() && key in entries.table
      modifies this`entries
      ensures Valid() && St() == old(St()).(entries := Touch(cfg, old(entries), key))
    {
      TouchFacts(cfg, entries, key);
      if cfg.policy.Lru? {
        var entry := entries.table[key];
        entries := Drop(entries, {key});
        entries := Put(entries, key, entry);
      }
    }

    method TakeOut(key: K)
      requires Valid() && key in entries.table
      modifies this
      ensures Valid() && St() == old(St()).(entries := Drop(old(entries), {key}))
    {
      var prev := entries.table[key];
      WeightDrop(cfg, entries, key);
      bytes := bytes - EntrySize(cfg, prev.value);
      Untag(key, prev.tags);
      entries := Drop(entries, {key});
    }

    /** Takes the previous entry of `key` out without counting an eviction. */
    method Displace(key: K)
      requires Valid()
      modifies this
      ensures Valid() && St() == Displaced(old(St()), key)
    {
      BumpKey(key);
      if key in entries.table {
        TakeOut(key);
      } else {
        DropAbsent(entries, {key});
      }
    }

    method Insert(key: K, entry: Entry<V>, tags: seq<string>)
      requires Valid() && key !in entries.table && entry.tags == Elements(tags)
      modifies this
      ensures Valid() && St() == old(St()).(entries := Put(old(entries), key, entry))
    {
      AddTags(key, tags);
      WeightPut(cfg, entries, key, entry);
      entries := Put(entries, key, entry);
      bytes := bytes + EntrySize(cfg, entry.value);
    }

    method StoreKey(key: K, value: V, opts: EntryOptions, now: real) returns (r: Result<V, Error>)
      requires Valid()
      modifies this
      ensures Valid() && St() == Store(cfg, old(St()), key, value, opts, now)
      ensures r == if ToEntryTtl(opts.ttl).Ok? then Ok(value) else Err(BadOption)
    {
      Displace(key);
      var explicit := ToEntryTtl(opts.ttl);
      if explicit.Err? { return Err(explicit.error); }
      Insert(key, Entry(value, now, explicit.value, Elements(opts.tags)), opts.tags);
      TrimAll(now);
      return Ok(value);
    }

    method BumpAll(keys: set<K>)
      requires Valid()
      modifies this`bumps
      ensures Valid() && St() == Bump(old(St()), keys)
    {
      var rest := keys;
      while rest != {}
        invariant Valid()
        invariant rest <= keys && bumps == Bump(old(St()), keys - rest).bumps
        decreases rest
      {
        var key :| key in rest;
        BumpBump(old(St()), keys - rest, {key});
        assert keys - rest + {key} == keys - (rest - {key});
        BumpKey(key);
        rest := rest - {key};
      }
      assert keys - {} == keys;
    }

    method RemoveAll(doomed: set<K>)
      requires Valid() && doomed <= entries.table.Keys
      modifies this
      ensures Valid() && St() == Remove(old(St()), doomed)
    {
      ghost var base, done := St(), {};
      RemoveNothing(base);
      var rest := doomed;
      while rest != {}
        invariant forall k :: k in doomed <==> k in done || k in rest
        invariant forall k :: k in done ==> k !in rest
        invariant Valid() && St() == Remove(base, done)
        decreases rest
      {
        var key :| key in rest;
        assert key in entries.table;
        RemoveNext(key, base, done);
        done, rest := done + {key}, rest - {key};
      }
      assert done == doomed;
    }

    method RemoveEntries()
      requires Valid()
      modifies this
      ensures Valid() && St() == RemoveEverything(old(St()))
    {
      RemoveAll(entries.table.Keys);
    }

    // ---- public operations ----------------------------------------------------------------

    method CountHit(stale: bool)
      requires Valid()
      modifies this`hits, this`staleHits
      ensures Valid()
      ensures St() == if stale then old(St()).(staleHits := old(staleHits) + 1) else old(St()).(hits := old(hits) + 1)
    {
      if stale {
        staleHits := staleHits + 1;
      } else {
        hits := hits + 1;
      }
    }

    /** A read of a live entry counts as a hit, fresh or stale, and touches. */
    method Serve(key: K, now: real) returns (r: V)
      requires Valid() && Live(cfg, St(), key, now)
      modifies this
      ensures Valid() && (St(), Some(r)) == Get(cfg, old(St()), key, now)
    {
      var entry := entries.table[key];
      ghost var base := St();
      TouchKey(key);
      GetLive(cfg, base, key, now, St());
      CountHit(StaleWithin(cfg, entry, now));
      r := entry.value;
    }

    /** A read that counts and touches. */
    method ReadFresh(key: K, now: real) returns (r: Option<V>)
      requires Valid()
      modifies this
      ensures Valid() && St() == Get(cfg, old(St()), key, now).0 && r == Get(cfg, old(St()), key, now).1
    {
      if key !in entries.table {
        misses := misses + 1;
        assert St() == old(St()).(misses := misses);
        return None;
      }
      if Expired(cfg, entries.table[key], now) {
        RemoveKey(key, entries.table[key]);
        ghost var s1 := St();
        misses := misses + 1;
        assert St() == s1.(misses := misses);
        return None;
      }
      var value := Serve(key, now);
      return Some(value);
    }

    method Read(key: K, now: real) returns (r: Result<Option<V>, Error>)
      requires Valid()
      modifies this
      ensures Valid()
      ensures old(disposed) ==> r == Err(UsedAfterDispose) && St() == old(St())
      ensures !old(disposed) ==> St() == Get(cfg, old(St()), key, now).0 && r == Ok(Get(cfg, old(St()), key, now).1)
    {
      if disposed { return Err(UsedAfterDispose); }
      var value := ReadFresh(key, now);
      return Ok(value);
    }

    method PeekAt(key: K, now: real) returns (r: Option<V>)
      requires Valid()
      modifies this
      ensures Valid() && (St(), r) == Peek(cfg, old(St()), key, now)
    {
      if key !in entries.table { return None; }
      var entry := entries.table[key];
      if Expired(cfg, entry, now) {
        RemoveKey(key, entry);
        return None;
      }
      return Some(entry.value);
    }

    method Has(key: K, now: real) returns (r: bool)
      requires Valid()
      modifies this
      ensures Valid() && St() == Peek(cfg, old(St()), key, now).0 && r == Live(cfg, old(St()), key, now)
    {
      var v := PeekAt(key, now);
      return v.Some?;
    }

    method Write(key: K, value: V, opts: EntryOptions, now: real) returns (r: Result<V, Error>)
      requires Valid()
      modifies this
      ensures Valid()
      ensures old(disposed) ==> r == Err(UsedAfterDispose) && St() == old(St())
      ensures !old(disposed) ==> St() == Store(cfg, old(St()), key, value, opts, now)
      ensures !old(disposed) ==> r == if ToEntryTtl(opts.ttl).Ok? then Ok(value) else Err(BadOption)
    {
      if disposed { return Err(UsedAfterDispose); }
      r := StoreKey(key, value, opts, now);
    }

    method DeleteKey(key: K) returns (r: bool)
      requires Valid()
      modifies this
      ensures Valid() && St() == Delete(old(St()), key) && r == (key in old(entries).table)
    {
      if key !in entries.table {
        BumpKey(key);
        return false;
      }
      RemoveKey(key, entries.table[key]);
      return true;
    }

    method ClearAll()
      requires Valid()
      modifies this
      ensures Valid() && St() == Clear(old(St()))
    {
      BumpAll(pending.Keys);
      RemoveEntries();
      pending := map[];
    }

    method Renew(key: K, value: V, now: real)
      requires Valid() && Live(cfg, St(), key, now)
      modifies this
      ensures Valid() && St() == Revalidate(cfg, old(St()), key, value, now)
    {
      var entry := entries.table[key];
      BumpKey(key);
      var renewed := entry.(value := value, storedAt := now);
      WeightUpdate(cfg, entries, key, renewed);
      bytes := bytes - EntrySize(cfg, entry.value);
      entries := Put(entries, key, renewed);
      bytes := bytes + EntrySize(cfg, value);
      TouchKey(key);
    }

    method Refresh(key: K, value: V, now: real) returns (r: Result<bool, Error>)
      requires Valid()
      modifies this
      ensures Valid()
      ensures old(disposed) ==> r == Err(UsedAfterDispose) && St() == old(St())
      ensures !old(disposed) ==> St() == Revalidate(cfg, old(St()), key, value, now)
      ensures !old(disposed) ==> r == Ok(Live(cfg, old(St()), key, now))
    {
      if disposed { return Err(UsedAfterDispose); }
      if key !in entries.table { return Ok(false); }
      var entry := entries.table[key];
      if Expired(cfg, entry, now) {
        RemoveKey(key, entry);
        return Ok(false);
      }
      Renew(key, value, now);
      return Ok(true);
    }

    method Collect(tags: seq<string>) returns (doomed: seq<K>)
      ensures doomed == Collected(tagIndex, tags)
    {
      doomed := [];
      for i := 0 to |tags|
        invariant doomed == Collected(tagIndex, tags[..i])
      {
        var before, bucket := doomed, BucketOf(tagIndex, tags[i]);
        for j := 0 to |bucket|
          invariant doomed == AddAll(before, bucket[..j])
        {
          AddAllSnoc(before, bucket, j);
          doomed := Add(doomed, bucket[j]);
        }
        assert bucket[..|bucket|] == bucket;
        CollectedSnoc(tagIndex, tags, i);
      }
      assert tags[..|tags|] == tags;
    }

    /** The removed keys are returned bucket after bucket, in the order in which they were written. */
    method InvalidateByTags(tags: seq<string>) returns (r: Result<seq<K>, Error>)
      requires Valid()
      modifies this
      ensures Valid()
      ensures old(disposed) ==> r == Err(UsedAfterDispose) && St() == old(St())
      ensures !old(disposed) ==> St() == InvalidateTags(old(St()), Elements(tags))
      ensures !old(disposed) ==> r == Ok(Collected(old(tagIndex), tags))
      ensures r.Ok? ==> Elements(r.value) == Tagged(old(entries), Elements(tags))
    {
      if disposed { return Err(UsedAfterDispose); }
      var doomed := Collect(tags);
      TaggedFromIndex(tagIndex, entries, tags);
      RemoveAll(Elements(doomed));
      return Ok(doomed);
    }

    /** The removed keys are returned in the order of the entries. */
    method InvalidateByPredicate(pred: (K, Option<V>) -> bool) returns (r: Result<seq<K>, Error>)
      requires Valid()
      modifies this
      ensures Valid()
      ensures old(disposed) ==> r == Err(UsedAfterDispose) && St() == old(St())
      ensures !old(disposed) ==> St() == InvalidateWhere(old(St()), pred)
      ensures !old(disposed) ==> r == Ok(KeysIn(old(entries).keys, Matching(old(entries), pred)))
    {
      if disposed { return Err(UsedAfterDispose); }
      var doomed: seq<K> := [];
      for i := 0 to |entries.keys|
        invariant Valid() && St() == old(St())
        invariant doomed == KeysIn(entries.keys[..i], Matching(entries, pred))
      {
        var key := entries.keys[i];
        KeysInSnoc(entries.keys, i, Matching(entries, pred));
        if pred(key, Some(entries.table[key].value)) {
          doomed := doomed + [key];
        }
      }
      assert entries.keys[..|entries.keys|] == entries.keys;
      assert Elements(doomed) == Matching(entries, pred);
      BumpAll(set k | k in pending && pred(k, None));
      RemoveAll(Elements(doomed));
      return Ok(doomed);
    }

    method BeginLoad(key: K, loader: Loader<V>, opts: EntryOptions)
      requires Valid() && key !in pending
      modifies this
      ensures Valid() && St() == StartLoad(old(St()), key, loader, opts)
    {
      var s0 := Count(bumps, key);
      match loader {
        case Throws =>
        case Returns(value) =>
          pending := pending[key := nextLoad];
          loads := loads[nextLoad := Load(key, opts, s0, Some(value))];
          nextLoad := nextLoad + 1;
        case Defers =>
          pending := pending[key := nextLoad];
          loads := loads[nextLoad := Load(key, opts, s0, None)];
          nextLoad := nextLoad + 1;
      }
    }

    /** `getOrLoad` when no usable entry is left: join the load in flight or start one. */
    method LoadMissing(key: K, loader: Loader<V>, opts: EntryOptions) returns (r: Reply<V>)
      requires Valid()
      modifies this
      ensures Valid() && St() == Miss(old(St()), key, loader, opts).0 && r == Miss(old(St()), key, loader, opts).1
    {
      if key in pending { return Joined(pending[key]); }
      misses := misses + 1;
      r := match loader case Throws => LoaderFailed case Returns(v) => Served(v) case Defers => Started(nextLoad);
      BeginLoad(key, loader, opts);
    }

    /** `getOrLoad` on a live entry: a stale one is served while a load in the background refreshes it. */
    method ServeAndRefresh(key: K, loader: Loader<V>, opts: EntryOptions, now: real)
      requires Valid() && Live(cfg, St(), key, now)
      modifies this
      ensures Valid() && St() == GetOrLoad(cfg, old(St()), key, loader, opts, now).0
    {
      if StaleWithin(cfg, entries.table[key], now) {
        staleHits := staleHits + 1;
        assert Valid() && St() == old(St()).(staleHits := old(staleHits) + 1);
        if key !in pending {
          BeginLoad(key, loader, opts);
        }
      } else {
        TouchKey(key);
        hits := hits + 1;
        assert St() == old(St()).(entries := entries, hits := hits);
      }
    }

    method ReadOrLoad(key: K, loader: Loader<V>, opts: EntryOptions, now: real) returns (r: Result<Reply<V>, Error>)
      requires Valid()
      modifies this
      ensures Valid()
      ensures old(disposed) ==> r == Err(UsedAfterDispose) && St() == old(St())
      ensures !old(disposed) ==> St() == GetOrLoad(cfg, old(St()), key, loader, opts, now).0
      ensures !old(disposed) ==> r == Ok(GetOrLoad(cfg, old(St()), key, loader, opts, now).1)
      ensures !old(disposed) && AgeAt(cfg, old(St()), key, now) == Stale ==>
        && r == Ok(Served(old(entries).table[key].value)) && staleHits == old(staleHits) + 1
        && entries == old(entries) && LoadsOnce(old(St()), St(), key, loader, opts)
    {
      if disposed { return Err(UsedAfterDispose); }
      if key in entries.table {
        var entry := entries.table[key];
        AgesAre(cfg, entry, now);
        if Expired(cfg, entry, now) {
          RemoveKey(key, entry);
        } else {
          if AgeAt(cfg, St(), key, now) == Stale {
            StaleIsServedAndRefreshed(cfg, St(), key, loader, opts, now);
          }
          ServeAndRefresh(key, loader, opts, now);
          return Ok(Served(entry.value));
        }
      }
      var reply := LoadMissing(key, loader, opts);
      return Ok(reply);
    }

    method FinishLoad(id: nat, outcome: Option<V>, now: real)
      requires Valid() && id in loads
      modifies this
      ensures Valid() && St() == Complete(cfg, old(St()), id, outcome, now)
    {
      var load := loads[id];
      var live := Count(bumps, load.key) == load.s0;
      loads := loads - {id};
      if load.key in pending && pending[load.key] == id {
        pending := pending - {load.key};
      }
      var value := outcome;
      if load.direct.Some? {
        value := load.direct;
      } else {
        bumps := bumps - {load.key};
      }
      if value.Some? && live && !disposed {
        var stored := StoreKey(load.key, value.value, load.opts, now);
      }
    }

    method DisposeAll(now: real)
      requires Valid()
      modifies this
      ensures Valid() && St() == Dispose(cfg, old(St()), now)
    {
      if disposed { return; }
      disposed := true;
      pending, bumps := map[], map[];
      SweepExpired(now);
      RemoveEntries();
    }

    method Keys(now: real) returns (r: seq<K>)
      requires Valid()
      modifies this
      ensures Valid() && St() == Sweep(cfg, old(St()), now)
      ensures r == Minus(old(entries).keys, ExpiredKeys(cfg, old(entries), now))
    {
      SweepExpired(now);
      return entries.keys;
    }
  }
}
