/** What each operation of the shared cache does, as a function on states.

    A state is what the closure variables of `createCache` hold, together with the loads whose promise reactions
    the host still has to run. The tag index and the byte counter are not part of it: here they are derived from
    the entries, and the class in `SharedCache.dfy` maintains them step by step. The clock is a parameter, so it
    stands still within one operation. */
module CacheSpec {
  import opened Prelude
  import opened OrderedMaps

  datatype Error = BadOption | UsedAfterDispose

  // ---- options --------------------------------------------------------------------------

  datatype TtlOption = Never | Ms(n: Number)

  datatype Policy = Lru | Fifo

  datatype Options<!V> = Options(
    ttl: TtlOption, staleWhileRevalidate: Number, maxSize: Number,
    maxBytes: Option<Number>, sizeOf: Option<V -> Number>, policy: Policy)

  /** `capacity` is `maxSize` rounded down: a map's size is an integer, so the two bounds agree. */
  datatype Config<!V> = Config(
    defaultTtl: Option<real>, swr: real, capacity: nat,
    maxBytes: Option<real>, sizeOf: Option<V -> Number>, policy: Policy)

  ghost predicate ValidConfig<V>(cfg: Config<V>) {
    && (cfg.defaultTtl.Some? ==> cfg.defaultTtl.value > 0.0)
    && cfg.swr >= 0.0
    && (cfg.maxBytes.Some? ==> cfg.maxBytes.value >= 0.0)
  }

  predicate BadNumber(n: Number) { !n.Finite? || n.value < 0.0 }

  function Configure<V>(o: Options<V>): (r: Result<Config<V>, Error>)
    ensures r.Ok? ==> ValidConfig(r.value)
    ensures r.Ok? ==> Finite(r.value.swr) == o.staleWhileRevalidate && r.value.policy == o.policy
    ensures r.Ok? ==> (r.value.defaultTtl == None <==> o.ttl == Never || o.ttl == Ms(Finite(0.0)))
    ensures r.Ok? && r.value.defaultTtl.Some? ==> o.ttl == Ms(Finite(r.value.defaultTtl.value))
    ensures r.Ok? ==> r.value.sizeOf == o.sizeOf && (r.value.maxBytes == None <==> o.maxBytes == None)
    ensures r.Ok? && r.value.maxBytes.Some? ==> o.maxBytes == Some(Finite(r.value.maxBytes.value))
    ensures r.Ok? ==> o.maxSize.Finite? && r.value.capacity as real <= o.maxSize.value < r.value.capacity as real + 1.0
    ensures r.Err? <==>
      || (o.ttl.Ms? && BadNumber(o.ttl.n)) || BadNumber(o.staleWhileRevalidate)
      || BadNumber(o.maxSize) || o.maxSize == Finite(0.0) || (o.maxBytes.Some? && BadNumber(o.maxBytes.value))
  {
    if o.ttl.Ms? && BadNumber(o.ttl.n) then Err(BadOption)
    else if BadNumber(o.staleWhileRevalidate) then Err(BadOption)
    else if BadNumber(o.maxSize) || o.maxSize.value == 0.0 then Err(BadOption)
    else if o.maxBytes.Some? && BadNumber(o.maxBytes.value) then Err(BadOption)
    else Ok(Config(
      if o.ttl.Never? || o.ttl.n.value == 0.0 then None else Some(o.ttl.n.value),
      o.staleWhileRevalidate.value,
      o.maxSize.value.Floor,
      if o.maxBytes.None? then None else Some(o.maxBytes.value.value),
      o.sizeOf, o.policy))
  }

  // ---- entries --------------------------------------------------------------------------

  datatype EntryTtl = Inherit | Forever | Limit(ms: real)

  datatype Entry<V> = Entry(value: V, storedAt: real, ttl: EntryTtl, tags: set<string>)

  datatype EntryOptions = EntryOptions(ttl: Option<TtlOption>, tags: seq<string>)

  const NO_OPTIONS := EntryOptions(None, [])

  function ToEntryTtl(ttl: Option<TtlOption>): Result<EntryTtl, Error> {
    match ttl
    case None => Ok(Inherit)
    case Some(Never) => Ok(Forever)
    case Some(Ms(n)) =>
      if n == Finite(0.0) then Ok(Forever)
      else if BadNumber(n) then Err(BadOption)
      else Ok(Limit(n.value))
  }

  function LimitOf<V>(cfg: Config<V>, ttl: EntryTtl): Option<real> {
    match ttl
    case Inherit => cfg.defaultTtl
    case Forever => None
    case Limit(ms) => Some(ms)
  }

  function TtlOf<V>(cfg: Config<V>, e: Entry<V>): Option<real> { LimitOf(cfg, e.ttl) }

  /** Past the hard limit ttl + swr. */
  predicate Expired<V>(cfg: Config<V>, e: Entry<V>, now: real) {
    var t := TtlOf(cfg, e);
    t.Some? && now - e.storedAt > t.value + cfg.swr
  }

  /** Past ttl, but still inside the stale window. */
  predicate StaleWithin<V>(cfg: Config<V>, e: Entry<V>, now: real) {
    var t := TtlOf(cfg, e);
    var age := now - e.storedAt;
    cfg.swr > 0.0 && t.Some? && age > t.value && age <= t.value + cfg.swr
  }

  function EntrySize<V>(cfg: Config<V>, v: V): (r: real)
    ensures r >= 0.0
  {
    match cfg.sizeOf
    case None => 0.0
    case Some(f) => if f(v).Finite? && f(v).value > 0.0 then f(v).value else 0.0
  }

  /** The byte weight of the entries under `keys`. */
  ghost function Total<K, V>(cfg: Config<V>, keys: seq<K>, table: map<K, Entry<V>>): (r: real)
    requires forall k :: k in keys ==> k in table
    ensures r >= 0.0
  {
    if keys == [] then 0.0 else EntrySize(cfg, table[keys[0]].value) + Total(cfg, keys[1..], table)
  }

  ghost function Weight<K, V>(cfg: Config<V>, m: OrderedMap<K, Entry<V>>): real
    requires WellFormed(m)
  {
    Total(cfg, m.keys, m.table)
  }

  // ---- states ---------------------------------------------------------------------------

  /** A change counter: a key that has not been changed has none. */
  type Positive = n: int | 0 < n witness 1

  /** What the loader passed to `getOrLoad` does when it is called. */
  datatype Loader<V> = Throws | Returns(value: V) | Defers

  /** A load whose completion the host still has to run; `direct` holds the value of a loader that returned one. */
  datatype Load<K, V> = Load(key: K, opts: EntryOptions, s0: nat, direct: Option<V>)

  datatype State<K, V> = State(
    entries: OrderedMap<K, Entry<V>>,
    pending: map<K, nat>, bumps: map<K, Positive>,
    loads: map<nat, Load<K, V>>, nextLoad: nat,
    hits: nat, misses: nat, staleHits: nat, evictions: nat, disposed: bool)

  function Init<K, V>(): State<K, V> {
    State(Empty(), map[], map[], map[], 0, 0, 0, 0, 0, false)
  }

  function Count<K(==)>(bumps: map<K, Positive>, k: K): nat { if k in bumps then bumps[k] else 0 }

  /** One more change for every key of `ks` that has a load in flight. */
  function Bump<K(==), V>(s: State<K, V>, ks: set<K>): State<K, V> {
    s.(bumps := map k | k in s.bumps.Keys + ks * s.pending.Keys ::
                  Count(s.bumps, k) + if k in ks && k in s.pending then 1 else 0)
  }

  /** The entries under `ks` leave the cache (expiry, eviction, deletion or invalidation). */
  function Remove<K(==, !new), V>(s: State<K, V>, ks: set<K>): State<K, V> {
    Bump(s, ks).(entries := Drop(s.entries, ks), evictions := s.evictions + |ks|)
  }

  function ExpiredKeys<K(==), V>(cfg: Config<V>, m: OrderedMap<K, Entry<V>>, now: real): set<K> {
    set k | k in m.table && Expired(cfg, m.table[k], now)
  }

  function Sweep<K(==, !new), V>(cfg: Config<V>, s: State<K, V>, now: real): State<K, V> {
    Remove(s, ExpiredKeys(cfg, s.entries, now))
  }

  /** The oldest keys beyond the capacity. */
  function Excess<K, V>(cfg: Config<V>, keys: seq<K>): seq<K> {
    keys[..Max(0, |keys| - cfg.capacity)]
  }

  /** How many of the oldest keys must go before the rest weighs at most `budget`. */
  ghost function Overweight<K, V>(cfg: Config<V>, keys: seq<K>, table: map<K, Entry<V>>, budget: real): (n: nat)
    requires forall k :: k in keys ==> k in table
    ensures n <= |keys|
  {
    if keys == [] || Total(cfg, keys, table) <= budget then 0 else 1 + Overweight(cfg, keys[1..], table, budget)
  }

  ghost function TooHeavy<K, V>(cfg: Config<V>, m: OrderedMap<K, Entry<V>>): seq<K>
    requires WellFormed(m)
  {
    if cfg.sizeOf.Some? && cfg.maxBytes.Some?
    then m.keys[..Overweight(cfg, m.keys, m.table, cfg.maxBytes.value)]
    else []
  }

  ghost function TrimSize<K(!new), V>(cfg: Config<V>, s: State<K, V>): State<K, V> {
    Remove(s, Elements(Excess(cfg, s.entries.keys)))
  }

  ghost function TrimBytes<K(!new), V>(cfg: Config<V>, s: State<K, V>): State<K, V>
    requires WellFormed(s.entries)
  {
    Remove(s, Elements(TooHeavy(cfg, s.entries)))
  }

  /** Sweep what has expired, then drop the oldest until both limits hold. */
  ghost function Trim<K(!new), V>(cfg: Config<V>, s: State<K, V>, now: real): State<K, V>
    requires WellFormed(s.entries)
  {
    DropWellFormed(s.entries, ExpiredKeys(cfg, s.entries, now));
    var s1 := Sweep(cfg, s, now);
    DropWellFormed(s1.entries, Elements(Excess(cfg, s1.entries.keys)));
    TrimBytes(cfg, TrimSize(cfg, s1))
  }

  function Touch<K(==, !new), V>(cfg: Config<V>, m: OrderedMap<K, Entry<V>>, k: K): OrderedMap<K, Entry<V>>
    requires k in m.table
  {
    if cfg.policy.Lru? then Put(Drop(m, {k}), k, m.table[k]) else m
  }

  // ---- operations -----------------------------------------------------------------------

  /** The old entry of `k` is taken out; unlike `Remove` this is not an eviction. */
  function Displaced<K(==, !new), V>(s: State<K, V>, k: K): State<K, V> {
    Bump(s, {k}).(entries := Drop(s.entries, {k}))
  }

  function Inserted<K(==, !new), V>(s: State<K, V>, k: K, e: Entry<V>): State<K, V> {
    Displaced(s, k).(entries := Put(Drop(s.entries, {k}), k, e))
  }

  /** A write to `k`. A bad per-entry ttl is noticed only after the old entry is gone. */
  ghost function Store<K(!new), V>(cfg: Config<V>, s: State<K, V>, k: K, v: V, opts: EntryOptions, now: real)
    : State<K, V>
    requires WellFormed(s.entries)
  {
    DropWellFormed(s.entries, {k});
    match ToEntryTtl(opts.ttl)
    case Err(_) => Displaced(s, k)
    case Ok(ttl) => Trim(cfg, Inserted(s, k, Entry(v, now, ttl, Elements(opts.tags))), now)
  }

  function Get<K(==, !new), V>(cfg: Config<V>, s: State<K, V>, k: K, now: real): (State<K, V>, Option<V>) {
    if k !in s.entries.table then (s.(misses := s.misses + 1), None)
    else
      var e := s.entries.table[k];
      if Expired(cfg, e, now) then
        var s1 := Remove(s, {k});
        (s1.(misses := s1.misses + 1), None)
      else
        var s1 := s.(entries := Touch(cfg, s.entries, k));
        (if StaleWithin(cfg, e, now) then s1.(staleHits := s.staleHits + 1) else s1.(hits := s.hits + 1), Some(e.value))
  }

  /** `peek`, and `has` apart from its answer. */
  function Peek<K(==, !new), V>(cfg: Config<V>, s: State<K, V>, k: K, now: real): (State<K, V>, Option<V>) {
    if k !in s.entries.table then (s, None)
    else if Expired(cfg, s.entries.table[k], now) then (Remove(s, {k}), None)
    else (s, Some(s.entries.table[k].value))
  }

  function Delete<K(==, !new), V>(s: State<K, V>, k: K): State<K, V> {
    if k in s.entries.table then Remove(s, {k}) else Bump(s, {k})
  }

  function RemoveEverything<K(==, !new), V>(s: State<K, V>): State<K, V> { Remove(s, s.entries.table.Keys) }

  function Clear<K(==, !new), V>(s: State<K, V>): State<K, V> {
    RemoveEverything(Bump(s, s.pending.Keys)).(pending := map[])
  }

  /** True exactly when `k` holds an entry that `revalidate` can refresh. */
  predicate Live<K(==), V>(cfg: Config<V>, s: State<K, V>, k: K, now: real) {
    k in s.entries.table && !Expired(cfg, s.entries.table[k], now)
  }

  function Revalidate<K(==, !new), V>(cfg: Config<V>, s: State<K, V>, k: K, v: V, now: real): State<K, V> {
    if k !in s.entries.table then s
    else if Expired(cfg, s.entries.table[k], now) then Remove(s, {k})
    else
      var e := s.entries.table[k].(value := v, storedAt := now);
      Bump(s, {k}).(entries := Touch(cfg, Put(s.entries, k, e), k))
  }

  function Tagged<K(==), V>(m: OrderedMap<K, Entry<V>>, tags: set<string>): set<K> {
    set k | k in m.table && m.table[k].tags * tags != {}
  }

  function InvalidateTags<K(==, !new), V>(s: State<K, V>, tags: set<string>): State<K, V> {
    Remove(s, Tagged(s.entries, tags))
  }

  function Matching<K(==), V>(m: OrderedMap<K, Entry<V>>, pred: (K, Option<V>) -> bool): set<K> {
    set k | k in m.table && pred(k, Some(m.table[k].value))
  }

  function PendingMatching<K(==), V>(s: State<K, V>, pred: (K, Option<V>) -> bool): set<K> {
    set k | k in s.pending && pred(k, None)
  }

  /** A predicate also reaches the loads in flight, whose value is still undefined. */
  function InvalidateWhere<K(==, !new), V>(s: State<K, V>, pred: (K, Option<V>) -> bool): State<K, V> {
    Remove(Bump(s, PendingMatching(s, pred)), Matching(s.entries, pred))
  }

  /** Calling the loader. A promise is recorded as in flight, a plain value is committed by a microtask. */
  function StartLoad<K(==), V>(s: State<K, V>, k: K, loader: Loader<V>, opts: EntryOptions): State<K, V> {
    if loader.Throws? then s
    else
      var direct := if loader.Returns? then Some(loader.value) else None;
      s.(loads := s.loads[s.nextLoad := Load(k, opts, Count(s.bumps, k), direct)],
         pending := s.pending[k := s.nextLoad], nextLoad := s.nextLoad + 1)
  }

  /** What the promise returned by `getOrLoad` stands for. */
  datatype Reply<V> = Served(value: V) | Joined(load: nat) | Started(load: nat) | LoaderFailed

  function Begun<K, V>(s: State<K, V>, loader: Loader<V>): Reply<V> {
    match loader
    case Throws => LoaderFailed
    case Returns(v) => Served(v)
    case Defers => Started(s.nextLoad)
  }

  /** No usable entry: join the load in flight, or start one. */
  function Miss<K(==), V>(s: State<K, V>, k: K, loader: Loader<V>, opts: EntryOptions): (State<K, V>, Reply<V>) {
    if k in s.pending then (s, Joined(s.pending[k]))
    else
      var s1 := s.(misses := s.misses + 1);
      (StartLoad(s1, k, loader, opts), Begun(s1, loader))
  }

  function GetOrLoad<K(==, !new), V>(cfg: Config<V>, s: State<K, V>, k: K, loader: Loader<V>, opts: EntryOptions,
                                     now: real)
    : (State<K, V>, Reply<V>)
  {
    if !Live(cfg, s, k, now) then Miss(if k in s.entries.table then Remove(s, {k}) else s, k, loader, opts)
    else
      var e := s.entries.table[k];
      if StaleWithin(cfg, e, now) then
        var s1 := s.(staleHits := s.staleHits + 1);
        (if k in s.pending then s1 else StartLoad(s1, k, loader, opts), Served(e.value))
      else (s.(entries := Touch(cfg, s.entries, k), hits := s.hits + 1), Served(e.value))
  }

  /** Bookkeeping when load `id` ends. Only a deferred load resets its key's change counter. */
  function Release<K(==), V>(s: State<K, V>, id: nat): State<K, V>
    requires id in s.loads
  {
    var l := s.loads[id];
    s.(loads := s.loads - {id},
       pending := if l.key in s.pending && s.pending[l.key] == id then s.pending - {l.key} else s.pending,
       bumps := if l.direct.None? then s.bumps - {l.key} else s.bumps)
  }

  /** The code's own test of whether a finished load may still be stored. */
  predicate Commits<K(==), V>(s: State<K, V>, id: nat)
    requires id in s.loads
  {
    !s.disposed && Count(s.bumps, s.loads[id].key) == s.loads[id].s0
  }

  /** Load `id` ends with a value, or is rejected (`None`; only a deferred load can be). */
  ghost function Complete<K(!new), V>(cfg: Config<V>, s: State<K, V>, id: nat, outcome: Option<V>, now: real)
    : State<K, V>
    requires WellFormed(s.entries) && id in s.loads
  {
    var l := s.loads[id];
    var value := if l.direct.Some? then l.direct else outcome;
    var s1 := Release(s, id);
    if value.Some? && Commits(s, id) then Store(cfg, s1, l.key, value.value, l.opts, now) else s1
  }

  ghost function Dispose<K(!new), V>(cfg: Config<V>, s: State<K, V>, now: real): State<K, V> {
    if s.disposed then s
    else RemoveEverything(Sweep(cfg, s.(disposed := true, pending := map[], bumps := map[]), now))
  }
}
