/** What the operations of the shared cache answer and leave behind, read off the age of an entry: how long it is
    served, when it is refreshed in the background, and which entries a write keeps. */
module CacheAnswers {
  import opened Prelude
  import opened OrderedMaps
  import opened CacheSpec
  import opened CacheFacts

  // ---- the age of an entry -------------------------------------------------------------------------

  /** Fresh up to its ttl, stale for the stale window after that, dead from then on. */
  datatype Age = Fresh | Stale | Dead

  function AgeBy(age: real, ttl: real, window: real): Age {
    if age <= ttl then Fresh else if age <= ttl + window then Stale else Dead
  }

  function AgeOf<V>(cfg: Config<V>, e: Entry<V>, now: real): Age {
    match e.ttl
    case Forever => Fresh
    case Limit(ms) => AgeBy(now - e.storedAt, ms, cfg.swr)
    case Inherit => if cfg.defaultTtl.None? then Fresh else AgeBy(now - e.storedAt, cfg.defaultTtl.value, cfg.swr)
  }

  /** An absent key counts as dead. */
  function AgeAt<K(==), V>(cfg: Config<V>, s: State<K, V>, k: K, now: real): Age {
    if k in s.entries.table then AgeOf(cfg, s.entries.table[k], now) else Dead
  }

  lemma AgesAre<V>(cfg: Config<V>, e: Entry<V>, now: real)
    requires ValidConfig(cfg)
    ensures Expired(cfg, e, now) <==> AgeOf(cfg, e, now) == Dead
    ensures StaleWithin(cfg, e, now) <==> AgeOf(cfg, e, now) == Stale
  {
  }

  // ---- reading ---------------------------------------------------------------------------------------

  /** The entry of `k` is gone, all others are as before, in their old order, and one eviction is counted. */
  ghost predicate LosesEntry<K(!new), V>(s: State<K, V>, r: State<K, V>, k: K) {
    && r.entries.table == s.entries.table - {k} && r.entries.keys == Minus(s.entries.keys, {k})
    && r.evictions == s.evictions + 1
  }

  /** A read moves the key to the young end under LRU and leaves the order alone under FIFO. */
  ghost predicate Touched<K(!new), V>(cfg: Config<V>, s: State<K, V>, r: State<K, V>, k: K) {
    && r.entries.table == s.entries.table && r.evictions == s.evictions
    && r.entries.keys == match cfg.policy case Lru => Minus(s.entries.keys, {k}) + [k] case Fifo => s.entries.keys
  }

  ghost predicate SameLoads<K(!new), V>(s: State<K, V>, r: State<K, V>) {
    r.pending == s.pending && r.loads == s.loads && r.nextLoad == s.nextLoad
  }

  ghost predicate Counted<K(!new), V>(s: State<K, V>, r: State<K, V>, hits: nat, staleHits: nat, misses: nat) {
    r.hits == s.hits + hits && r.staleHits == s.staleHits + staleHits && r.misses == s.misses + misses
  }

  /** `get` serves an entry up to the full ttl plus stale window, and removes it after that. */
  lemma GetByAge<K(!new), V>(cfg: Config<V>, s: State<K, V>, k: K, now: real)
    requires ValidConfig(cfg) && WellFormed(s.entries)
    ensures var (r, value) := Get(cfg, s, k, now);
      && SameLoads(s, r)
      && match AgeAt(cfg, s, k, now)
         case Fresh => value == Some(s.entries.table[k].value) && Touched(cfg, s, r, k) && Counted(s, r, 1, 0, 0)
         case Stale => value == Some(s.entries.table[k].value) && Touched(cfg, s, r, k) && Counted(s, r, 0, 1, 0)
         case Dead =>
           value == None && Counted(s, r, 0, 0, 1)
           && if k in s.entries.table then LosesEntry(s, r, k) else r.entries == s.entries && r.evictions == s.evictions
  {
    if k in s.entries.table {
      AgesAre(cfg, s.entries.table[k], now);
      TouchFacts(cfg, s.entries, k);
    }
  }

  /** `peek` answers like `get`, but neither touches nor counts. */
  lemma PeekByAge<K(!new), V>(cfg: Config<V>, s: State<K, V>, k: K, now: real)
    requires ValidConfig(cfg)
    ensures var (r, value) := Peek(cfg, s, k, now);
      && value == (if AgeAt(cfg, s, k, now) == Dead then None else Some(s.entries.table[k].value))
      && Live(cfg, s, k, now) == value.Some?
      && SameLoads(s, r) && Counted(s, r, 0, 0, 0)
      && if k in s.entries.table && value == None then LosesEntry(s, r, k) else r == s
  {
    if k in s.entries.table { AgesAre(cfg, s.entries.table[k], now); }
  }

  // ---- loading ---------------------------------------------------------------------------------------

  /** Exactly one load more is in flight: of this key, with these options, under the next number, with the change
      counter it saw; `direct` is the value of a loader that returned one at once. */
  ghost predicate OneMoreLoad<K(!new), V>(s: State<K, V>, r: State<K, V>, k: K, opts: EntryOptions, direct: Option<V>,
                                          counter: nat) {
    && r.pending == s.pending[k := s.nextLoad] && r.nextLoad == s.nextLoad + 1
    && r.loads == s.loads[s.nextLoad := Load(k, opts, counter, direct)]
  }

  /** The loader is called if no load of the key is in flight, and a load is registered unless it throws. */
  ghost predicate LoadsOnce<K(!new), V>(s: State<K, V>, r: State<K, V>, k: K, loader: Loader<V>, opts: EntryOptions) {
    if k in s.pending then SameLoads(s, r)
    else
      match loader
      case Throws => SameLoads(s, r)
      case Returns(v) => OneMoreLoad(s, r, k, opts, Some(v), Count(s.bumps, k))
      case Defers => OneMoreLoad(s, r, k, opts, None, Count(s.bumps, k))
  }

  /** `getOrLoad` serves a fresh entry and starts nothing. */
  lemma FreshIsServed<K(!new), V>(cfg: Config<V>, s: State<K, V>, k: K, loader: Loader<V>, opts: EntryOptions,
                                  now: real)
    requires ValidConfig(cfg) && WellFormed(s.entries) && AgeAt(cfg, s, k, now) == Fresh
    ensures var (r, reply) := GetOrLoad(cfg, s, k, loader, opts, now);
      reply == Served(s.entries.table[k].value) && Touched(cfg, s, r, k) && Counted(s, r, 1, 0, 0) && SameLoads(s, r)
  {
    AgesAre(cfg, s.entries.table[k], now);
    TouchFacts(cfg, s.entries, k);
  }

  /** A stale entry is served at once and counted as a stale hit, and a load in the background is started for it, unless
      one is in flight or the loader throws. */
  lemma StaleIsServedAndRefreshed<K(!new), V>(cfg: Config<V>, s: State<K, V>, k: K, loader: Loader<V>,
                                              opts: EntryOptions, now: real)
    requires ValidConfig(cfg) && AgeAt(cfg, s, k, now) == Stale
    ensures var (r, reply) := GetOrLoad(cfg, s, k, loader, opts, now);
      && reply == Served(s.entries.table[k].value) && r.entries == s.entries && r.evictions == s.evictions
      && Counted(s, r, 0, 1, 0) && LoadsOnce(s, r, k, loader, opts)
  {
    AgesAre(cfg, s.entries.table[k], now);
  }

  /** Without a live entry the load in flight is joined, or one is started and a miss is counted. */
  lemma DeadIsLoaded<K(!new), V>(cfg: Config<V>, s: State<K, V>, k: K, loader: Loader<V>, opts: EntryOptions,
                                 now: real)
    requires ValidConfig(cfg) && AgeAt(cfg, s, k, now) == Dead
    ensures var (r, reply) := GetOrLoad(cfg, s, k, loader, opts, now);
      && (if k in s.entries.table then LosesEntry(s, r, k) else r.entries == s.entries && r.evictions == s.evictions)
      && LoadsOnce(s, r, k, loader, opts) && Counted(s, r, 0, 0, if k in s.pending then 0 else 1)
      && reply ==
         if k in s.pending then Joined(s.pending[k])
         else match loader case Throws => LoaderFailed case Returns(v) => Served(v) case Defers => Started(s.nextLoad)
  {
    if k in s.entries.table {
      AgesAre(cfg, s.entries.table[k], now);
      var s1 := Remove(s, {k});
      MissAnswers(s1, k, loader, opts);
      if k !in s.pending { assert Count(s1.bumps, k) == Count(s.bumps, k); }
    } else {
      MissAnswers(s, k, loader, opts);
    }
  }

  lemma MissAnswers<K(!new), V>(s: State<K, V>, k: K, loader: Loader<V>, opts: EntryOptions)
    ensures var (r, reply) := Miss(s, k, loader, opts);
      && r.entries == s.entries && r.evictions == s.evictions && LoadsOnce(s, r, k, loader, opts)
      && Counted(s, r, 0, 0, if k in s.pending then 0 else 1)
      && reply ==
         if k in s.pending then Joined(s.pending[k])
         else match loader case Throws => LoaderFailed case Returns(v) => Served(v) case Defers => Started(s.nextLoad)
  {
  }

  // ---- writing -----------------------------------------------------------------------------------------

  function DeadKeys<K(==), V>(cfg: Config<V>, table: map<K, Entry<V>>, now: real): set<K> {
    set j | j in table && AgeOf(cfg, table[j], now) == Dead
  }

  /** The keys in order as a write finds them: the live ones but `k`, then `k`. */
  function Candidates<K(==, !new), V>(cfg: Config<V>, s: State<K, V>, k: K, now: real): seq<K> {
    Minus(s.entries.keys, {k} + DeadKeys(cfg, s.entries.table, now)) + [k]
  }

  ghost predicate Budgeted<V>(cfg: Config<V>) { cfg.sizeOf.Some? && cfg.maxBytes.Some? }

  /** What the keys from `i` on weigh. */
  ghost function WeightFrom<K(!new), V>(cfg: Config<V>, keys: seq<K>, table: map<K, Entry<V>>, i: nat): real
    requires i <= |keys| && forall j :: j in keys ==> j in table
  {
    Total(cfg, keys[i..], table)
  }

  /** The keys from `i` on are within both limits: their number, and the sum of their sizes. */
  ghost predicate FitsFrom<K(!new), V>(cfg: Config<V>, keys: seq<K>, table: map<K, Entry<V>>, i: nat)
    requires i <= |keys| && forall j :: j in keys ==> j in table
  {
    |keys| - i <= cfg.capacity && (Budgeted(cfg) ==> WeightFrom(cfg, keys, table, i) <= cfg.maxBytes.value)
  }

  lemma NewIsLive<V>(cfg: Config<V>, v: V, opts: EntryOptions, ttl: EntryTtl, now: real)
    requires ValidConfig(cfg) && ToEntryTtl(opts.ttl) == Ok(ttl)
    ensures !Expired(cfg, Entry(v, now, ttl, Elements(opts.tags)), now)
  {
  }

  lemma ExpiredAreDead<K(!new), V>(cfg: Config<V>, m: OrderedMap<K, Entry<V>>, k: K, e: Entry<V>, now: real)
    requires ValidConfig(cfg) && !Expired(cfg, e, now)
    ensures var swept := ExpiredKeys(cfg, Put(Drop(m, {k}), k, e), now);
      k !in swept && {k} + swept == {k} + DeadKeys(cfg, m.table, now)
  {
    forall j | j in m.table ensures Expired(cfg, m.table[j], now) <==> j in DeadKeys(cfg, m.table, now) {
      AgesAre(cfg, m.table[j], now);
    }
  }

  lemma PutBehind<K(!new), V>(m: OrderedMap<K, V>, k: K, v: V)
    requires WellFormed(m) && k !in m.table
    ensures WellFormed(Put(m, k, v)) && Put(m, k, v).keys == m.keys + [k]
  {
    assert Elements(m.keys + [k]) == Elements(m.keys) + {k};
  }

  lemma DropBehind<K(!new), V>(m: OrderedMap<K, V>, k: K, v: V, ks: set<K>)
    requires WellFormed(m) && k !in ks
    ensures var r := Drop(Put(Drop(m, {k}), k, v), ks);
      WellFormed(r) && r.keys == Minus(m.keys, {k} + ks) + [k]
  {
    DropWellFormed(m, {k});
    PutBehind(Drop(m, {k}), k, v);
    DropWellFormed(Put(Drop(m, {k}), k, v), ks);
    MinusConcat(Minus(m.keys, {k}), [k], ks);
    MinusMinus(m.keys, {k}, ks);
    MinusNothing([k], ks);
  }

  /** The sweep after the insertion leaves the candidates. */
  lemma SweptIsCandidates<K(!new), V>(cfg: Config<V>, s: State<K, V>, k: K, e: Entry<V>, now: real)
    requires ValidConfig(cfg) && WellFormed(s.entries) && !Expired(cfg, e, now)
    ensures var m := Sweep(cfg, Inserted(s, k, e), now).entries;
      && WellFormed(m) && m.keys == Candidates(cfg, s, k, now)
      && forall j :: j in m.table ==> m.table[j] == s.entries.table[k := e][j]
  {
    var inserted := Inserted(s, k, e);
    var swept := ExpiredKeys(cfg, inserted.entries, now);
    ExpiredAreDead(cfg, s.entries, k, e, now);
    DropBehind(s.entries, k, e, swept);
    assert Sweep(cfg, inserted, now).entries == Drop(inserted.entries, swept);
  }

  /** The byte limit drops the shortest run of oldest keys after which the sizes fit. */
  lemma BytesDropLeast<K(!new), V>(cfg: Config<V>, s: State<K, V>, budget: real) returns (n: nat)
    requires ValidConfig(cfg) && WellFormed(s.entries) && cfg.sizeOf.Some? && cfg.maxBytes == Some(budget)
    ensures var r, keys := TrimBytes(cfg, s).entries, s.entries.keys;
      && n <= |keys| && r.keys == keys[n..] && WeightFrom(cfg, keys, s.entries.table, n) <= budget
      && forall i :: 0 <= i < n ==> WeightFrom(cfg, keys, s.entries.table, i) > budget
  {
    var keys, t := s.entries.keys, s.entries.table;
    n := Overweight(cfg, keys, t, budget);
    OverweightFits(cfg, keys, t, budget);
    DropPrefix(s.entries, n);
  }

  lemma WeightShifts<K(!new), V>(cfg: Config<V>, keys: seq<K>, t: map<K, Entry<V>>, rest: seq<K>,
                                 u: map<K, Entry<V>>, n: nat, i: nat)
    requires n + i <= |keys| && rest == keys[n..] && forall j :: j in keys ==> j in t
    requires forall j :: j in rest ==> j in u && u[j] == t[j]
    ensures WeightFrom(cfg, rest, u, i) == WeightFrom(cfg, keys, t, n + i)
  {
    assert keys[n + i..] == rest[i..];
    TotalIgnores(cfg, rest[i..], t, u);
  }

  lemma SizeKeepsEntries<K(!new), V>(cfg: Config<V>, s: State<K, V>)
    requires WellFormed(s.entries)
    ensures var r, n := TrimSize(cfg, s).entries, Max(0, |s.entries.keys| - cfg.capacity);
      && WellFormed(r) && r.keys == s.entries.keys[n..]
      && forall j :: j in r.keys ==> j in r.table && r.table[j] == s.entries.table[j]
  {
    TrimSizeKeeps(cfg, s);
    var r := TrimSize(cfg, s).entries;
    assert forall j :: j in r.keys ==> j in Elements(r.keys);
  }

  /** The byte limit left the keys of `rest` from `n` on. */
  ghost predicate ByteCut<K(!new), V>(cfg: Config<V>, rest: seq<K>, u: map<K, Entry<V>>, n: nat)
    requires forall j :: j in rest ==> j in u
  {
    if Budgeted(cfg)
    then
      && n <= |rest| && WeightFrom(cfg, rest, u, n) <= cfg.maxBytes.value
      && forall i :: 0 <= i < n ==> WeightFrom(cfg, rest, u, i) > cfg.maxBytes.value
    else n == 0
  }

  lemma CutsAreLeast<K(!new), V>(cfg: Config<V>, keys: seq<K>, t: map<K, Entry<V>>, rest: seq<K>,
                                 u: map<K, Entry<V>>, n1: nat, n2: nat)
    requires n1 == Max(0, |keys| - cfg.capacity) && rest == keys[n1..] && forall j :: j in keys ==> j in t
    requires (forall j :: j in rest ==> j in u && u[j] == t[j]) && ByteCut(cfg, rest, u, n2)
    ensures n1 + n2 <= |keys| && FitsFrom(cfg, keys, t, n1 + n2)
    ensures forall i :: 0 <= i < n1 + n2 ==> !FitsFrom(cfg, keys, t, i)
  {
    if Budgeted(cfg) {
      forall i | n1 <= i <= n1 + n2 ensures WeightFrom(cfg, rest, u, i - n1) == WeightFrom(cfg, keys, t, i) {
        WeightShifts(cfg, keys, t, rest, u, n1, i - n1);
      }
    }
  }

  lemma BytesCut<K(!new), V>(cfg: Config<V>, s: State<K, V>) returns (n: nat)
    requires ValidConfig(cfg) && WellFormed(s.entries)
    ensures n <= |s.entries.keys| && TrimBytes(cfg, s).entries.keys == s.entries.keys[n..]
    ensures ByteCut(cfg, s.entries.keys, s.entries.table, n)
  {
    if Budgeted(cfg) {
      n := BytesDropLeast(cfg, s, cfg.maxBytes.value);
    } else {
      TrimBytesKeeps(cfg, s);
      n := 0;
    }
  }

  lemma SuffixOfSuffix<T>(s: seq<T>, i: nat, j: nat)
    requires i + j <= |s|
    ensures s[i..][j..] == s[i + j..]
  {
  }

  /** The size limit left `rest` of the keys, the byte limit left `kept` of those: the shortest run of oldest keys has
      gone after which both limits hold. */
  lemma BothCutsAreLeast<K(!new), V>(cfg: Config<V>, keys: seq<K>, t: map<K, Entry<V>>, rest: seq<K>,
                                     u: map<K, Entry<V>>, n2: nat, kept: seq<K>)
    returns (n: nat)
    requires rest == keys[Max(0, |keys| - cfg.capacity)..] && (forall j :: j in keys ==> j in t)
    requires (forall j :: j in rest ==> j in u && u[j] == t[j]) && ByteCut(cfg, rest, u, n2)
    requires n2 <= |rest| && kept == rest[n2..]
    ensures n <= |keys| && kept == keys[n..] && FitsFrom(cfg, keys, t, n)
    ensures forall i :: 0 <= i < n ==> !FitsFrom(cfg, keys, t, i)
  {
    var n1: nat := Max(0, |keys| - cfg.capacity);
    CutsAreLeast(cfg, keys, t, rest, u, n1, n2);
    SuffixOfSuffix(keys, n1, n2);
    n := n1 + n2;
  }

  /** Trimming drops the shortest run of oldest keys after which both limits hold. */
  lemma TrimDropsLeast<K(!new), V>(cfg: Config<V>, s: State<K, V>, s1: State<K, V>, r: State<K, V>) returns (n: nat)
    requires ValidConfig(cfg) && WellFormed(s.entries) && s1 == TrimSize(cfg, s)
    requires WellFormed(s1.entries) && r == TrimBytes(cfg, s1)
    ensures n <= |s.entries.keys| && r.entries.keys == s.entries.keys[n..]
    ensures FitsFrom(cfg, s.entries.keys, s.entries.table, n)
    ensures forall i :: 0 <= i < n ==> !FitsFrom(cfg, s.entries.keys, s.entries.table, i)
  {
    SizeKeepsEntries(cfg, s);
    var n2 := BytesCut(cfg, s1);
    n := BothCutsAreLeast(cfg, s.entries.keys, s.entries.table, s1.entries.keys, s1.entries.table, n2, r.entries.keys);
  }

  lemma SameValuesFit<K(!new), V>(cfg: Config<V>, keys: seq<K>, t: map<K, Entry<V>>, u: map<K, Entry<V>>, i: nat)
    requires i <= |keys| && (forall j :: j in keys ==> j in t) && forall j :: j in keys ==> j in u && u[j] == t[j]
    ensures FitsFrom(cfg, keys, t, i) <==> FitsFrom(cfg, keys, u, i)
  {
    WeightShifts(cfg, keys, t, keys, u, 0, i);
  }

  /** A write drops the shortest run of the oldest candidates after which number and sizes are within the limits, and
      keeps the rest in order: the written entry with its value, time, ttl and tags, and the others as they were. */
  lemma WriteKeepsYoungest<K(!new), V>(cfg: Config<V>, s: State<K, V>, k: K, v: V, opts: EntryOptions, ttl: EntryTtl,
                                       now: real, r: State<K, V>)
    returns (n: nat)
    requires ValidConfig(cfg) && WellFormed(s.entries) && ToEntryTtl(opts.ttl) == Ok(ttl)
    requires r == Store(cfg, s, k, v, opts, now)
    ensures var all, table :=
        Candidates(cfg, s, k, now), s.entries.table[k := Entry(v, now, ttl, Elements(opts.tags))];
      && (forall j :: j in all ==> j in table)
      && n <= |all| && r.entries.keys == all[n..] && FitsFrom(cfg, all, table, n)
      && (forall i :: 0 <= i < n ==> !FitsFrom(cfg, all, table, i))
      && WellFormed(r.entries) && forall j :: j in r.entries.table ==> r.entries.table[j] == table[j]
  {
    var e := Entry(v, now, ttl, Elements(opts.tags));
    var all, table := Candidates(cfg, s, k, now), s.entries.table[k := e];
    NewIsLive(cfg, v, opts, ttl, now);
    SweptIsCandidates(cfg, s, k, e, now);
    var s1 := Sweep(cfg, Inserted(s, k, e), now);
    var s2 := TrimSize(cfg, s1);
    TrimSizeKeeps(cfg, s1);
    TrimBytesKeeps(cfg, s2);
    n := TrimDropsLeast(cfg, s1, s2, r);
    forall j | j in all ensures j in table && j in s1.entries.table && s1.entries.table[j] == table[j] {
      assert j in Elements(s1.entries.keys);
    }
    forall i | 0 <= i <= n ensures FitsFrom(cfg, all, table, i) <==> FitsFrom(cfg, all, s1.entries.table, i) {
      SameValuesFit(cfg, all, table, s1.entries.table, i);
    }
  }

  lemma KeptIffInRange<K(!new), V>(all: seq<K>, n: nat, k: K, m: OrderedMap<K, V>)
    requires all != [] && n <= |all| && Last(all) == k && m.keys == all[n..] && WellFormed(m)
    requires k !in Front(all)
    ensures k in m.table <==> n < |all|
  {
    assert k in m.table <==> k in Elements(m.keys);
    if n < |all| { assert all[n..][|all| - 1 - n] == k; }
  }

  /** The cache may hold an entry at all, and the size of the value alone, if it has one, is within the byte budget. */
  predicate Holds<V>(cfg: Config<V>, v: V) {
    && cfg.capacity > 0
    && (cfg.sizeOf.Some? && cfg.maxBytes.Some? && cfg.sizeOf.value(v).Finite? ==>
          cfg.sizeOf.value(v).value <= cfg.maxBytes.value)
  }

  lemma LastFits<K(!new), V>(cfg: Config<V>, all: seq<K>, table: map<K, Entry<V>>, e: Entry<V>)
    requires ValidConfig(cfg) && all != [] && (forall j :: j in all ==> j in table) && table[Last(all)] == e
    ensures FitsFrom(cfg, all, table, |all| - 1) <==> Holds(cfg, e.value)
  {
    var k := Last(all);
    assert all[|all| - 1..] == [k] && [k][1..] == [];
    assert Total(cfg, [k], table) == EntrySize(cfg, e.value) + Total(cfg, [], table);
  }

  lemma WrittenIsKeptIff<K(!new), V>(cfg: Config<V>, s: State<K, V>, k: K, v: V, opts: EntryOptions, ttl: EntryTtl,
                                     now: real, r: State<K, V>)
    requires ValidConfig(cfg) && WellFormed(s.entries) && ToEntryTtl(opts.ttl) == Ok(ttl)
    requires r == Store(cfg, s, k, v, opts, now)
    ensures WellFormed(r.entries) && (k in r.entries.table <==> Holds(cfg, v))
    ensures k in r.entries.table ==> r.entries.table[k] == Entry(v, now, ttl, Elements(opts.tags))
  {
    var e := Entry(v, now, ttl, Elements(opts.tags));
    var all, table := Candidates(cfg, s, k, now), s.entries.table[k := e];
    var n := WriteKeepsYoungest(cfg, s, k, v, opts, ttl, now, r);
    LastFits(cfg, all, table, e);
    KeptIffInRange(all, n, k, r.entries);
    if n == |all| { assert !FitsFrom(cfg, all, table, |all| - 1); } else { FitsAreLonger(cfg, all, table, n); }
  }

  /** What fits still fits when more is dropped. */
  lemma {:induction false} FitsAreLonger<K(!new), V>(cfg: Config<V>, all: seq<K>, table: map<K, Entry<V>>, n: nat)
    requires n < |all| && (forall j :: j in all ==> j in table) && FitsFrom(cfg, all, table, n)
    ensures FitsFrom(cfg, all, table, |all| - 1)
    decreases |all| - n
  {
    if n < |all| - 1 {
      assert all[n..][1..] == all[n + 1..];
      FitsAreLonger(cfg, all, table, n + 1);
    }
  }

  /** How long an entry written with this option is fresh: without one as long as the cache says, for `never` and 0
      for ever, and otherwise that many milliseconds. */
  ghost predicate FreshFor<V>(cfg: Config<V>, ttl: Option<TtlOption>, life: Option<real>) {
    match ttl
    case None => life == cfg.defaultTtl
    case Some(Never) => life == None
    case Some(Ms(n)) => n.Finite? && n.value >= 0.0 && life == if n.value == 0.0 then None else Some(n.value)
  }

  lemma LifeIsLimit<V>(cfg: Config<V>, ttl: Option<TtlOption>, life: Option<real>, e: Entry<V>, later: real)
    requires ValidConfig(cfg) && FreshFor(cfg, ttl, life) && (ToEntryTtl(ttl).Ok? ==> e.ttl == ToEntryTtl(ttl).value)
    ensures ToEntryTtl(ttl).Ok?
    ensures AgeOf(cfg, e, later) == Dead <==> life.Some? && later - e.storedAt > life.value + cfg.swr
  {
  }

  /** What was written is read back with `get` up to the end of its stale window and not after that, if and only if the
      cache may hold it. */
  lemma SetThenGetIff<K(!new), V>(cfg: Config<V>, s: State<K, V>, k: K, v: V, opts: EntryOptions, life: Option<real>,
                                  now: real, later: real, r: State<K, V>)
    requires ValidConfig(cfg) && WellFormed(s.entries) && FreshFor(cfg, opts.ttl, life)
    requires r == Store(cfg, s, k, v, opts, now)
    ensures Get(cfg, r, k, later).1 ==
      if Holds(cfg, v) && (life.Some? ==> later - now <= life.value + cfg.swr) then Some(v) else None
  {
    var ttl := if ToEntryTtl(opts.ttl).Ok? then ToEntryTtl(opts.ttl).value else Inherit;
    LifeIsLimit(cfg, opts.ttl, life, Entry(v, now, ttl, Elements(opts.tags)), later);
    WrittenIsKeptIff(cfg, s, k, v, opts, ttl, now, r);
    GetByAge(cfg, r, k, later);
  }

  /** With any other ttl the write fails, and takes the old entry with it. */
  lemma BadTtlLosesEntry<K(!new), V>(cfg: Config<V>, s: State<K, V>, k: K, v: V, opts: EntryOptions, now: real)
    requires WellFormed(s.entries)
    ensures ToEntryTtl(opts.ttl) == Err(BadOption) <==> forall life :: !FreshFor(cfg, opts.ttl, life)
    ensures ToEntryTtl(opts.ttl).Err? ==>
      var r := Store(cfg, s, k, v, opts, now);
      r.entries.table == s.entries.table - {k} && r.entries.keys == Minus(s.entries.keys, {k})
      && r.evictions == s.evictions
  {
    var life :=
      match opts.ttl
      case None => cfg.defaultTtl
      case Some(Never) => None
      case Some(Ms(n)) => if n.Finite? && n.value != 0.0 then Some(n.value) else None;
    assert ToEntryTtl(opts.ttl).Ok? ==> FreshFor(cfg, opts.ttl, life);
  }

  // ---- renewing and invalidating -----------------------------------------------------------------------

  /** `revalidate` gives a live entry a new value and a new time, keeps its ttl and tags, and counts as a use; a dead
      one is removed. */
  lemma RevalidateByAge<K(!new), V>(cfg: Config<V>, s: State<K, V>, k: K, v: V, now: real)
    requires ValidConfig(cfg) && WellFormed(s.entries)
    ensures var r := Revalidate(cfg, s, k, v, now);
      && SameLoads(s, r) && Counted(s, r, 0, 0, 0)
      && if k !in s.entries.table then r == s
         else if AgeAt(cfg, s, k, now) == Dead then LosesEntry(s, r, k)
         else
           var e := s.entries.table[k];
           && r.entries.table == s.entries.table[k := Entry(v, now, e.ttl, e.tags)] && r.evictions == s.evictions
           && r.entries.keys == match cfg.policy
                                case Lru => Minus(s.entries.keys, {k}) + [k]
                                case Fifo => s.entries.keys
  {
    if k in s.entries.table {
      AgesAre(cfg, s.entries.table[k], now);
      if !Expired(cfg, s.entries.table[k], now) {
        WeightUpdate(cfg, s.entries, k, s.entries.table[k].(value := v, storedAt := now));
        TouchFacts(cfg, Put(s.entries, k, s.entries.table[k].(value := v, storedAt := now)), k);
      }
    }
  }

  /** These entries are gone, the others are as before in their old order, and the evictions are counted. */
  ghost predicate Takes<K(!new), V>(s: State<K, V>, r: State<K, V>, gone: set<K>) {
    && gone <= s.entries.table.Keys && r.entries.table == s.entries.table - gone
    && r.entries.keys == Minus(s.entries.keys, gone) && r.evictions == s.evictions + |gone|
  }

  /** Invalidation takes exactly the entries that carry one of the tags, or that the predicate accepts; `clear` takes
      all, and all loads in flight. */
  lemma InvalidationTakes<K(!new), V>(s: State<K, V>, tags: set<string>, pred: (K, Option<V>) -> bool)
    ensures Takes(s, InvalidateTags(s, tags),
                  set k | k in s.entries.table && exists t :: t in tags && t in s.entries.table[k].tags)
    ensures Takes(s, InvalidateWhere(s, pred),
                  set k | k in s.entries.table && pred(k, Some(s.entries.table[k].value)))
    ensures Takes(s, Clear(s), s.entries.table.Keys) && Clear(s).pending == map[]
    ensures SameLoads(s, InvalidateTags(s, tags)) && SameLoads(s, InvalidateWhere(s, pred))
  {
    var carrying := set k | k in s.entries.table && exists t :: t in tags && t in s.entries.table[k].tags;
    forall k | k in s.entries.table
      ensures s.entries.table[k].tags * tags != {} <==> exists t :: t in tags && t in s.entries.table[k].tags
    {
      if t :| t in tags && t in s.entries.table[k].tags { assert t in s.entries.table[k].tags * tags; }
    }
    assert Tagged(s.entries, tags) == carrying;
  }

  /** Disposing empties everything, once. */
  lemma DisposeEmpties<K(!new), V>(cfg: Config<V>, s: State<K, V>, now: real)
    requires WellFormed(s.entries)
    ensures var r := Dispose(cfg, s, now);
      if s.disposed then r == s
      else
        && r.disposed && r.entries.table == map[] && r.entries.keys == [] && r.pending == map[] && r.bumps == map[]
        && r.loads == s.loads && Counted(s, r, 0, 0, 0)
  {
    if !s.disposed {
      var s1 := Sweep(cfg, s.(disposed := true, pending := map[], bumps := map[]), now);
      SweepKeepsLive(cfg, s.(disposed := true, pending := map[], bumps := map[]), now);
      MinusEverything(s1.entries.keys, s1.entries.table.Keys);
    }
  }
}
