/** Two LRU caches of different sizes fed the same trace: the smaller one never holds a key the larger one lacks. */
module CacheInclusion {
  import opened Prelude
  import opened OrderedMaps
  import opened CacheSpec
  import opened CacheFacts
  import opened CacheRuns
  import opened CacheLoads

  /** One access of the trace. A load-through is `getOrLoad` whose load, if one starts, is committed at once. */
  datatype Access<K, V> = Getting(k: K) | Setting(k: K, v: V) | Deleting(k: K) | LoadingThrough(k: K, v: V)

  /** No expiry, no byte budget. */
  ghost predicate Plain<V>(cfg: Config<V>) {
    ValidConfig(cfg) && cfg.defaultTtl.None? && cfg.maxBytes.None?
  }

  /** Between accesses nothing is in flight, and no entry has a ttl of its own. */
  ghost predicate Idle<K(!new), V>(cfg: Config<V>, s: State<K, V>) {
    && Inv(cfg, s) && !s.disposed && s.loads == map[]
    && AllInherit(s.entries)
  }

  ghost function Apply<K(!new), V>(cfg: Config<V>, s: State<K, V>, a: Access<K, V>, now: real): State<K, V>
    requires WellFormed(s.entries)
  {
    match a
    case Getting(k) => Get(cfg, s, k, now).0
    case Setting(k, v) => Store(cfg, s, k, v, NO_OPTIONS, now)
    case Deleting(k) => Delete(s, k)
    case LoadingThrough(k, v) => LoadThrough(cfg, s, k, v, now)
  }

  ghost function LoadThrough<K(!new), V>(cfg: Config<V>, s: State<K, V>, k: K, v: V, now: real): State<K, V>
    requires WellFormed(s.entries)
  {
    var s1 := GetOrLoad(cfg, s, k, Defers, NO_OPTIONS, now).0;
    if s.nextLoad in s1.loads && WellFormed(s1.entries) then Complete(cfg, s1, s.nextLoad, Some(v), now) else s1
  }

  // ---- what an access does to the key order ------------------------------------------------

  /** The order after using `k`: a key that may enter goes last, and the oldest leaves a full cache. */
  function UseKey<K(==, !new)>(keys: seq<K>, k: K, capacity: nat): seq<K> {
    Youngest(Minus(keys, {k}) + [k], capacity)
  }

  /** A hit on `k`: only an lru cache moves the key. */
  function HitKey<K(==, !new)>(keys: seq<K>, k: K, policy: Policy): seq<K> {
    if policy.Lru? then Minus(keys, {k}) + [k] else keys
  }

  function OrderAfter<K(==, !new), V>(keys: seq<K>, a: Access<K, V>, policy: Policy, capacity: nat): seq<K> {
    match a
    case Getting(k) => if k in keys then HitKey(keys, k, policy) else keys
    case Setting(k, _) => UseKey(keys, k, capacity)
    case Deleting(k) => Minus(keys, {k})
    case LoadingThrough(k, _) => if k in keys then HitKey(keys, k, policy) else UseKey(keys, k, capacity)
  }

  ghost predicate AllInherit<K, V>(m: OrderedMap<K, Entry<V>>) {
    forall k :: k in m.table ==> m.table[k].ttl == Inherit
  }

  lemma NothingExpires<K(!new), V>(cfg: Config<V>, s: State<K, V>, now: real)
    requires Plain(cfg) && WellFormed(s.entries) && AllInherit(s.entries)
    ensures ExpiredKeys(cfg, s.entries, now) == {} && Sweep(cfg, s, now) == s
  {
    assert ExpiredKeys(cfg, s.entries, now) == {};
    RemoveNothing(s);
  }

  /** Without expiry and byte budget, trimming is cutting the order down to the capacity. */
  lemma PlainTrim<K(!new), V>(cfg: Config<V>, s: State<K, V>, now: real, r: State<K, V>)
    requires Plain(cfg) && WellFormed(s.entries) && AllInherit(s.entries) && r == Trim(cfg, s, now)
    ensures r.entries.keys == Youngest(s.entries.keys, cfg.capacity) && AllInherit(r.entries)
  {
    NothingExpires(cfg, s, now);
    TrimSizeKeeps(cfg, s);
    TrimBytesKeeps(cfg, TrimSize(cfg, s));
  }

  lemma StoreOrder<K(!new), V>(cfg: Config<V>, s: State<K, V>, k: K, v: V, now: real)
    requires Plain(cfg) && WellFormed(s.entries) && AllInherit(s.entries)
    ensures var r := Store(cfg, s, k, v, NO_OPTIONS, now);
      r.entries.keys == UseKey(s.entries.keys, k, cfg.capacity) && AllInherit(r.entries)
  {
    var e := Entry(v, now, Inherit, Elements(NO_OPTIONS.tags));
    DropWellFormed(s.entries, {k});
    WeightPut(cfg, Drop(s.entries, {k}), k, e);
    PlainTrim(cfg, Inserted(s, k, e), now, Store(cfg, s, k, v, NO_OPTIONS, now));
  }

  lemma GetOrder<K(!new), V>(cfg: Config<V>, s: State<K, V>, k: K, now: real, r: State<K, V>)
    requires Plain(cfg) && Idle(cfg, s) && r == Get(cfg, s, k, now).0
    ensures Idle(cfg, r)
    ensures r.entries.keys == if k in s.entries.keys then HitKey(s.entries.keys, k, cfg.policy) else s.entries.keys
  {
    if k in s.entries.table { TouchFacts(cfg, s.entries, k); }
    GetKeeps(cfg, s, k, now);
  }

  lemma SetOrder<K(!new), V>(cfg: Config<V>, s: State<K, V>, k: K, v: V, now: real, r: State<K, V>)
    requires Plain(cfg) && Idle(cfg, s) && r == Store(cfg, s, k, v, NO_OPTIONS, now)
    ensures Idle(cfg, r) && r.entries.keys == UseKey(s.entries.keys, k, cfg.capacity)
  {
    StoreOrder(cfg, s, k, v, now);
    StoreKeeps(cfg, s, k, v, NO_OPTIONS, now);
    StoreFacts(cfg, s, k, v, NO_OPTIONS, now);
  }

  lemma LoadOrder<K(!new), V>(cfg: Config<V>, s: State<K, V>, k: K, v: V, now: real, r: State<K, V>)
    requires Plain(cfg) && Idle(cfg, s) && r == LoadThrough(cfg, s, k, v, now)
    ensures Idle(cfg, r)
    ensures r.entries.keys ==
      if k in s.entries.keys then HitKey(s.entries.keys, k, cfg.policy) else UseKey(s.entries.keys, k, cfg.capacity)
  {
    var s1 := GetOrLoad(cfg, s, k, Defers, NO_OPTIONS, now).0;
    LoadKeeps(cfg, s, k, Defers, NO_OPTIONS, now);
    assert s.pending == map[];
    if k in s.entries.table {
      TouchFacts(cfg, s.entries, k);
    } else {
      StartedLoadIsTracked(cfg, s, k, Defers, NO_OPTIONS, now, s1);
      var s2 := Release(s1, s.nextLoad);
      assert s2.entries == s.entries && s2.loads == map[];
      StoreOrder(cfg, s2, k, v, now);
      StoreKeeps(cfg, s2, k, v, NO_OPTIONS, now);
      StoreFacts(cfg, s2, k, v, NO_OPTIONS, now);
    }
  }

  lemma ApplyOrder<K(!new), V>(cfg: Config<V>, s: State<K, V>, a: Access<K, V>, now: real)
    requires Plain(cfg) && Idle(cfg, s)
    ensures var r := Apply(cfg, s, a, now);
      Idle(cfg, r) && r.entries.keys == OrderAfter(s.entries.keys, a, cfg.policy, cfg.capacity)
  {
    var r := Apply(cfg, s, a, now);
    match a
    case Getting(k) => GetOrder(cfg, s, k, now, r);
    case Setting(k, v) => SetOrder(cfg, s, k, v, now, r);
    case Deleting(k) =>
      if k in s.entries.table { RemoveKeeps(cfg, s, {k}); } else { MinusNothing(s.entries.keys, {k}); }
    case LoadingThrough(k, v) => LoadOrder(cfg, s, k, v, now, r);
  }

  // ---- inclusion ----------------------------------------------------------------------------

  /** `a` can be read off `b` by skipping elements. */
  ghost predicate Subsequence<T>(a: seq<T>, b: seq<T>) {
    if a == [] then true
    else b != [] && ((a[0] == b[0] && Subsequence(a[1..], b[1..])) || Subsequence(a, b[1..]))
  }

  /** The smaller cache's order is part of the larger one's, which holds at most the difference of the sizes more. */
  ghost predicate Included<T>(small: seq<T>, large: seq<T>, m: nat, n: nat) {
    Subsequence(small, large) && |small| <= m && |large| <= n && |large| - |small| <= n - m
  }

  lemma {:induction false} SubsequenceElements<T>(a: seq<T>, b: seq<T>)
    requires Subsequence(a, b)
    ensures forall x :: x in a ==> x in b
    ensures |a| <= |b|
    decreases |b|
  {
    if a != [] {
      assert a == [a[0]] + a[1..];
      if a[0] == b[0] && Subsequence(a[1..], b[1..]) { SubsequenceElements(a[1..], b[1..]); }
      else { SubsequenceElements(a, b[1..]); }
    }
  }

  lemma {:induction false} SubsequenceMinus<T(!new)>(a: seq<T>, b: seq<T>, xs: set<T>)
    requires Subsequence(a, b)
    ensures Subsequence(Minus(a, xs), Minus(b, xs))
    decreases |b|
  {
    if a != [] {
      if a[0] == b[0] && Subsequence(a[1..], b[1..]) {
        SubsequenceMinus(a[1..], b[1..], xs);
        if a[0] !in xs { SubsequenceCons(a[0], Minus(a[1..], xs), Minus(b[1..], xs)); }
      } else {
        SubsequenceMinus(a, b[1..], xs);
        if b[0] !in xs { SubsequenceSkip(Minus(a, xs), b[0], Minus(b[1..], xs)); }
      }
    }
  }

  lemma SubsequenceCons<T>(x: T, a: seq<T>, b: seq<T>)
    requires Subsequence(a, b)
    ensures Subsequence([x] + a, [x] + b)
  {
    assert ([x] + a)[1..] == a && ([x] + b)[1..] == b;
  }

  lemma SubsequenceSkip<T>(a: seq<T>, x: T, b: seq<T>)
    requires Subsequence(a, b)
    ensures Subsequence(a, [x] + b)
  {
    assert ([x] + b)[1..] == b;
  }

  lemma {:induction false} SubsequenceAppend<T>(a: seq<T>, b: seq<T>, x: T)
    requires Subsequence(a, b)
    ensures Subsequence(a + [x], b + [x])
    decreases |b|
  {
    if a == [] {
      SingletonEnds(b, x);
      assert a + [x] == [x];
    } else {
      assert (a + [x])[1..] == a[1..] + [x] && (b + [x])[1..] == b[1..] + [x];
      if a[0] == b[0] && Subsequence(a[1..], b[1..]) { SubsequenceAppend(a[1..], b[1..], x); }
      else { SubsequenceAppend(a, b[1..], x); }
    }
  }

  lemma {:induction false} SingletonEnds<T>(b: seq<T>, x: T)
    ensures Subsequence([x], b + [x])
  {
    if b != [] {
      assert (b + [x])[1..] == b[1..] + [x];
      SingletonEnds(b[1..], x);
    }
  }

  /** Dropping the first of the larger sequence is harmless if it is not, or no longer, in the smaller one. */
  lemma SubsequenceTail<T>(a: seq<T>, b: seq<T>)
    requires b != [] && Subsequence(a, b) && Distinct(b)
    ensures a != [] && a[0] == b[0] ==> Subsequence(a[1..], b[1..])
    ensures a == [] || a[0] != b[0] ==> Subsequence(a, b[1..])
  {
    var rest := b[1..];
    assert b[0] !in rest by {
      forall j | 0 <= j < |rest| ensures rest[j] != b[0] { assert rest[j] == b[j + 1]; }
    }
    assert a != [] ==> a[0] in a;
    if a != [] && a[0] == b[0] && Subsequence(a, rest) { SubsequenceElements(a, rest); }
  }

  lemma SubsequenceShorter<T>(a: seq<T>, b: seq<T>)
    requires a != [] && Subsequence(a, b)
    ensures Subsequence(a[1..], b)
    decreases |b|
  {
    if a[0] == b[0] && Subsequence(a[1..], b[1..]) {
      SubsequenceSkip(a[1..], b[0], b[1..]);
      assert b == [b[0]] + b[1..];
    } else {
      SubsequenceShorter(a, b[1..]);
      SubsequenceSkip(a[1..], b[0], b[1..]);
      assert b == [b[0]] + b[1..];
    }
  }

  lemma AppendDistinct<T(!new)>(s: seq<T>, x: T)
    requires Distinct(s)
    ensures Distinct(Minus(s, {x}) + [x])
    ensures |Minus(s, {x}) + [x]| == if x in s then |s| else |s| + 1
  {
    MinusDistinct(s, {x});
    if x in s { MinusLength(s, {x}); } else { MinusNothing(s, {x}); }
  }

  /** After a use, at most one key is over the limit in either cache; evicting it keeps the inclusion. */
  lemma EvictKeepsIncluded<T(!new)>(a: seq<T>, b: seq<T>, m: nat, n: nat)
    requires m <= n && Subsequence(a, b) && Distinct(b) && |a| <= m + 1 && |b| <= n + 1
    requires |b| - |a| <= n - m
    ensures Included(Youngest(a, m), Youngest(b, n), m, n)
  {
    SubsequenceElements(a, b);
    if |b| == n + 1 {
      assert |a| == m + 1;
      SubsequenceTail(a, b);
      if a[0] != b[0] { SubsequenceShorter(a, b[1..]); }
      assert Youngest(a, m) == a[1..] && Youngest(b, n) == b[1..];
    } else {
      assert Youngest(b, n) == b;
      if |a| == m + 1 {
        SubsequenceShorter(a, b);
        assert Youngest(a, m) == a[1..];
      } else {
        assert Youngest(a, m) == a;
      }
    }
  }

  lemma UseKeepsIncluded<T(!new)>(a: seq<T>, b: seq<T>, k: T, m: nat, n: nat)
    requires m <= n && Included(a, b, m, n) && Distinct(a) && Distinct(b)
    ensures Included(UseKey(a, k, m), UseKey(b, k, n), m, n)
  {
    SubsequenceElements(a, b);
    SubsequenceMinus(a, b, {k});
    SubsequenceAppend(Minus(a, {k}), Minus(b, {k}), k);
    AppendDistinct(a, k);
    AppendDistinct(b, k);
    EvictKeepsIncluded(Minus(a, {k}) + [k], Minus(b, {k}) + [k], m, n);
  }

  lemma OrderKeepsIncluded<K(!new), V>(a: seq<K>, b: seq<K>, access: Access<K, V>, m: nat, n: nat)
    requires m <= n && Included(a, b, m, n) && Distinct(a) && Distinct(b)
    ensures Included(OrderAfter(a, access, Lru, m), OrderAfter(b, access, Lru, n), m, n)
  {
    SubsequenceElements(a, b);
    var k := access.k;
    SubsequenceMinus(a, b, {k});
    SubsequenceAppend(Minus(a, {k}), Minus(b, {k}), k);
    AppendDistinct(a, k);
    AppendDistinct(b, k);
    match access
    case Getting(_) => GetKeepsIncluded(a, b, k, m, n);
    case Setting(_, _) => UseKeepsIncluded(a, b, k, m, n);
    case Deleting(_) =>
    case LoadingThrough(_, _) =>
      if k in b {
        if k !in a { UseHitInLarge(a, b, k, m, n); }
      } else {
        UseKeepsIncluded(a, b, k, m, n);
      }
  }

  lemma GetKeepsIncluded<T(!new)>(a: seq<T>, b: seq<T>, k: T, m: nat, n: nat)
    requires m <= n && Included(a, b, m, n) && Distinct(a) && Distinct(b)
    ensures Included(if k in a then Minus(a, {k}) + [k] else a, if k in b then Minus(b, {k}) + [k] else b, m, n)
  {
    SubsequenceElements(a, b);
    SubsequenceMinus(a, b, {k});
    SubsequenceAppend(Minus(a, {k}), Minus(b, {k}), k);
    AppendDistinct(a, k);
    AppendDistinct(b, k);
    if k in b && k !in a {
      MinusNothing(a, {k});
      SubsequenceThenMore(a, Minus(b, {k}), k);
    }
  }

  lemma {:induction false} SubsequenceThenMore<T>(a: seq<T>, b: seq<T>, x: T)
    requires Subsequence(a, b)
    ensures Subsequence(a, b + [x])
    decreases |b|
  {
    if a != [] {
      assert (b + [x])[1..] == b[1..] + [x];
      if a[0] == b[0] && Subsequence(a[1..], b[1..]) { SubsequenceThenMore(a[1..], b[1..], x); }
      else { SubsequenceThenMore(a, b[1..], x); }
    }
  }

  /** A key the larger cache holds and the smaller one must load. */
  lemma UseHitInLarge<T(!new)>(a: seq<T>, b: seq<T>, k: T, m: nat, n: nat)
    requires m <= n && Included(a, b, m, n) && Distinct(a) && Distinct(b) && k in b && k !in a
    ensures Included(UseKey(a, k, m), Minus(b, {k}) + [k], m, n)
  {
    UseKeepsIncluded(a, b, k, m, n);
    AppendDistinct(b, k);
    assert UseKey(b, k, n) == Minus(b, {k}) + [k];
  }

  // ---- whole traces -----------------------------------------------------------------------

  ghost function Replay<K(!new), V>(cfg: Config<V>, s: State<K, V>, trace: seq<Access<K, V>>, now: real)
    : (r: State<K, V>)
    requires Plain(cfg) && Idle(cfg, s)
    ensures Idle(cfg, r)
    decreases |trace|
  {
    if trace == [] then s
    else ApplyOrder(cfg, s, trace[0], now); Replay(cfg, Apply(cfg, s, trace[0], now), trace[1..], now)
  }

  /** After every trace, hence at every step of one, the smaller cache's keys, in order, are a subsequence of the larger
      one's, which holds at most the difference of the capacities more. */
  lemma {:induction false} SmallerLruIsIncluded<K(!new), V>(small: Config<V>, large: Config<V>, s: State<K, V>,
                                                            l: State<K, V>,
                                                            trace: seq<Access<K, V>>, now: real)
    requires Plain(small) && Plain(large) && small.policy.Lru? && large.policy.Lru? && small.capacity <= large.capacity
    requires Idle(small, s) && Idle(large, l)
    requires Included(s.entries.keys, l.entries.keys, small.capacity, large.capacity)
    ensures Included(Replay(small, s, trace, now).entries.keys, Replay(large, l, trace, now).entries.keys,
                     small.capacity, large.capacity)
    decreases |trace|
  {
    if trace != [] {
      ApplyOrder(small, s, trace[0], now);
      ApplyOrder(large, l, trace[0], now);
      OrderKeepsIncluded(s.entries.keys, l.entries.keys, trace[0], small.capacity, large.capacity);
      var s1, l1 := Apply(small, s, trace[0], now), Apply(large, l, trace[0], now);
      SmallerLruIsIncluded(small, large, s1, l1, trace[1..], now);
    }
  }

  /** The access is a read that finds its key. */
  predicate Hits<K(==), V>(keys: seq<K>, a: Access<K, V>) { (a.Getting? || a.LoadingThrough?) && a.k in keys }

  lemma HitsAreCounted<K(!new), V>(cfg: Config<V>, s: State<K, V>, a: Access<K, V>, now: real, r: State<K, V>)
    requires Plain(cfg) && Idle(cfg, s) && r == Apply(cfg, s, a, now)
    ensures r.hits == s.hits + if Hits(s.entries.keys, a) then 1 else 0
  {
    match a
    case Getting(_) =>
    case Setting(k, v) => StoreHits(cfg, s, k, v, now);
    case Deleting(_) =>
    case LoadingThrough(k, v) => LoadHits(cfg, s, k, v, now, r);
  }

  lemma LoadHits<K(!new), V>(cfg: Config<V>, s: State<K, V>, k: K, v: V, now: real, r: State<K, V>)
    requires Plain(cfg) && Idle(cfg, s) && r == LoadThrough(cfg, s, k, v, now)
    ensures r.hits == s.hits + if k in s.entries.keys then 1 else 0
  {
    assert s.pending == map[];
    if k !in s.entries.table {
      var s1 := GetOrLoad(cfg, s, k, Defers, NO_OPTIONS, now).0;
      StartedLoadIsTracked(cfg, s, k, Defers, NO_OPTIONS, now, s1);
      var s2 := Release(s1, s.nextLoad);
      assert s2.entries == s.entries && s2.hits == s.hits;
      StoreHits(cfg, s2, k, v, now);
    }
  }

  lemma StoreHits<K(!new), V>(cfg: Config<V>, s: State<K, V>, k: K, v: V, now: real)
    requires WellFormed(s.entries)
    ensures Store(cfg, s, k, v, NO_OPTIONS, now).hits == s.hits
  {
  }

  /** A larger lru cache never serves fewer reads of a trace. */
  lemma {:induction false} LargerLruHitsMore<K(!new), V>(small: Config<V>, large: Config<V>, s: State<K, V>,
                                                         l: State<K, V>,
                                                         trace: seq<Access<K, V>>, now: real)
    requires Plain(small) && Plain(large) && small.policy.Lru? && large.policy.Lru? && small.capacity <= large.capacity
    requires Idle(small, s) && Idle(large, l)
    requires Included(s.entries.keys, l.entries.keys, small.capacity, large.capacity)
    ensures Replay(small, s, trace, now).hits - s.hits <= Replay(large, l, trace, now).hits - l.hits
    decreases |trace|
  {
    if trace != [] {
      var s1, l1 := Apply(small, s, trace[0], now), Apply(large, l, trace[0], now);
      ApplyOrder(small, s, trace[0], now);
      ApplyOrder(large, l, trace[0], now);
      OrderKeepsIncluded(s.entries.keys, l.entries.keys, trace[0], small.capacity, large.capacity);
      SubsequenceElements(s.entries.keys, l.entries.keys);
      HitsAreCounted(small, s, trace[0], now, s1);
      HitsAreCounted(large, l, trace[0], now, l1);
      LargerLruHitsMore(small, large, s1, l1, trace[1..], now);
    }
  }
}
