/** Whole runs of the shared cache: any sequence of calls, load completions and clock readings. */
module CacheRuns {
  import opened Prelude
  import opened OrderedMaps
  import opened CacheSpec
  import opened CacheFacts

  datatype Op<!K, !V> =
    | DoGet(k: K)
    | DoPeek(k: K)
    | DoSet(k: K, v: V, opts: EntryOptions)
    | DoDelete(k: K)
    | DoClear
    | DoRevalidate(k: K, v: V)
    | DoInvalidateTags(tags: set<string>)
    | DoInvalidateWhere(pred: (K, Option<V>) -> bool)
    | DoGetOrLoad(k: K, loader: Loader<V>, opts: EntryOptions)
    | DoComplete(id: nat, outcome: Option<V>)
    | DoSweep
    | DoDispose

  datatype Event<!K, !V> = Event(op: Op<K, V>, now: real)

  /** The operations that throw once the cache is disposed, leaving the state alone. */
  predicate NeedsAlive<K, V>(op: Op<K, V>) {
    op.DoGet? || op.DoSet? || op.DoRevalidate? || op.DoInvalidateTags? || op.DoInvalidateWhere? || op.DoGetOrLoad?
  }

  ghost function Step<K(!new), V>(cfg: Config<V>, s: State<K, V>, e: Event<K, V>): State<K, V>
    requires WellFormed(s.entries)
  {
    if s.disposed && NeedsAlive(e.op) then s
    else if e.op.DoDispose? then Dispose(cfg, s, e.now)
    else match e.op
      case DoGet(k) => Get(cfg, s, k, e.now).0
      case DoPeek(k) => Peek(cfg, s, k, e.now).0
      case DoSet(k, v, opts) => Store(cfg, s, k, v, opts, e.now)
      case DoDelete(k) => Delete(s, k)
      case DoClear => Clear(s)
      case DoRevalidate(k, v) => Revalidate(cfg, s, k, v, e.now)
      case DoInvalidateTags(tags) => InvalidateTags(s, tags)
      case DoInvalidateWhere(pred) => InvalidateWhere(s, pred)
      case DoGetOrLoad(k, loader, opts) => GetOrLoad(cfg, s, k, loader, opts, e.now).0
      case DoComplete(id, outcome) => if id in s.loads then Complete(cfg, s, id, outcome, e.now) else s
      case DoSweep => Sweep(cfg, s, e.now)
  }

  // ---- the invariant of every run -------------------------------------------------------

  ghost predicate Inv<K(!new), V>(cfg: Config<V>, s: State<K, V>) {
    && WellFormed(s.entries)
    && |s.entries.keys| <= cfg.capacity
    && (forall id :: id in s.loads ==> id < s.nextLoad)
    && (forall k :: k in s.pending ==> s.pending[k] in s.loads && s.loads[s.pending[k]].key == k)
    && (s.disposed ==> s.entries == Empty() && s.pending == map[])
  }

  lemma MinusLength<T(!new)>(s: seq<T>, xs: set<T>)
    requires Distinct(s) && xs <= Elements(s)
    ensures |Minus(s, xs)| == |s| - |xs|
  {
    MinusDistinct(s, xs);
    DistinctCardinality(s);
    DistinctCardinality(Minus(s, xs));
    assert Elements(Minus(s, xs)) == Elements(s) - xs;
  }

  /** Removing entries counts each of them once as an eviction. */
  lemma RemoveFacts<K(!new), V>(s: State<K, V>, ks: set<K>)
    requires WellFormed(s.entries) && ks <= s.entries.table.Keys
    ensures var r := Remove(s, ks);
      && WellFormed(r.entries)
      && |r.entries.keys| + r.evictions == |s.entries.keys| + s.evictions
  {
    DropWellFormed(s.entries, ks);
    MinusLength(s.entries.keys, ks);
  }

  lemma TrimBalance<K(!new), V>(cfg: Config<V>, s: State<K, V>, now: real)
    requires WellFormed(s.entries)
    ensures var r := Trim(cfg, s, now);
      && WellFormed(r.entries)
      && |r.entries.keys| + r.evictions == |s.entries.keys| + s.evictions
  {
    RemoveFacts(s, ExpiredKeys(cfg, s.entries, now));
    var s1 := Sweep(cfg, s, now);
    RemoveFacts(s1, Elements(Excess(cfg, s1.entries.keys)));
    var s2 := TrimSize(cfg, s1);
    RemoveFacts(s2, Elements(TooHeavy(cfg, s2.entries)));
  }

  /** How much a write to `k` adds to size + evictions: one for a new key, minus one when a bad ttl loses the old
      entry. */
  function StoreGain<K(==), V>(s: State<K, V>, k: K, opts: EntryOptions): int {
    if ToEntryTtl(opts.ttl).Ok? then (if k in s.entries.table then 0 else 1)
    else if k in s.entries.table then -1 else 0
  }

  lemma DisplacedFacts<K(!new), V>(s: State<K, V>, k: K, r: State<K, V>)
    requires WellFormed(s.entries) && r == Displaced(s, k)
    ensures WellFormed(r.entries) && k !in r.entries.table && r.evictions == s.evictions
    ensures |r.entries.keys| == |s.entries.keys| - if k in s.entries.table then 1 else 0
  {
    DropWellFormed(s.entries, {k});
    if k in s.entries.table { MinusLength(s.entries.keys, {k}); } else { DropAbsent(s.entries, {k}); }
  }

  lemma InsertedFacts<K(!new), V>(cfg: Config<V>, s: State<K, V>, k: K, e: Entry<V>, r: State<K, V>)
    requires WellFormed(s.entries) && r == Inserted(s, k, e)
    ensures WellFormed(r.entries) && r.evictions == s.evictions
    ensures |r.entries.keys| == |s.entries.keys| + if k in s.entries.table then 0 else 1
  {
    DisplacedFacts(s, k, Displaced(s, k));
    WeightPut(cfg, Drop(s.entries, {k}), k, e);
  }

  lemma StoreFacts<K(!new), V>(cfg: Config<V>, s: State<K, V>, k: K, v: V, opts: EntryOptions, now: real)
    requires WellFormed(s.entries) && ValidConfig(cfg)
    ensures var r := Store(cfg, s, k, v, opts, now);
      && WellFormed(r.entries)
      && (ToEntryTtl(opts.ttl).Ok? ==> |r.entries.keys| <= cfg.capacity)
      && |r.entries.keys| <= Max(|s.entries.keys|, cfg.capacity)
      && |r.entries.keys| + r.evictions == |s.entries.keys| + s.evictions + StoreGain(s, k, opts)
      && (r.pending, r.loads, r.nextLoad, r.disposed) == (s.pending, s.loads, s.nextLoad, s.disposed)
  {
    if ToEntryTtl(opts.ttl).Ok? {
      var e := Entry(v, now, ToEntryTtl(opts.ttl).value, Elements(opts.tags));
      var s2 := Inserted(s, k, e);
      InsertedFacts(cfg, s, k, e, s2);
      TrimFacts(cfg, s2, now);
      TrimBalance(cfg, s2, now);
    } else {
      DisplacedFacts(s, k, Displaced(s, k));
    }
  }

  lemma RevalidateFacts<K(!new), V>(cfg: Config<V>, s: State<K, V>, k: K, v: V, now: real)
    requires WellFormed(s.entries)
    ensures var r := Revalidate(cfg, s, k, v, now);
      && WellFormed(r.entries)
      && |r.entries.keys| <= |s.entries.keys|
      && |r.entries.keys| + r.evictions == |s.entries.keys| + s.evictions
      && (Live(cfg, s, k, now) ==>
            r.entries.table == s.entries.table[k := s.entries.table[k].(value := v, storedAt := now)])
  {
    if Live(cfg, s, k, now) {
      var e := s.entries.table[k].(value := v, storedAt := now);
      assert WellFormed(Put(s.entries, k, e));
      TouchFacts(cfg, Put(s.entries, k, e), k);
    } else if k in s.entries.table {
      RemoveFacts(s, {k});
    }
  }

  /** What one event adds to size + evictions. */
  ghost function Gain<K(!new), V>(cfg: Config<V>, s: State<K, V>, e: Event<K, V>): int {
    if s.disposed && NeedsAlive(e.op) then 0
    else match e.op
      case DoSet(k, _, opts) => StoreGain(s, k, opts)
      case DoComplete(id, outcome) =>
        if Stores(s, id, outcome) then StoreGain(s, s.loads[id].key, s.loads[id].opts) else 0
      case _ => 0
  }

  /** Load `id` ends here and its value is stored. */
  predicate Stores<K(==), V>(s: State<K, V>, id: nat, outcome: Option<V>) {
    id in s.loads && (s.loads[id].direct.Some? || outcome.Some?) && Commits(s, id)
  }

  /** `r` still satisfies the invariant, and size + evictions grew by `gain`. */
  ghost predicate Keeps<K(!new), V>(cfg: Config<V>, s: State<K, V>, r: State<K, V>, gain: int) {
    Inv(cfg, r) && |r.entries.keys| + r.evictions == |s.entries.keys| + s.evictions + gain
  }

  lemma RemoveKeeps<K(!new), V>(cfg: Config<V>, s: State<K, V>, ks: set<K>)
    requires Inv(cfg, s) && ks <= s.entries.table.Keys
    ensures Keeps(cfg, s, Remove(s, ks), 0)
  {
    RemoveFacts(s, ks);
    if s.disposed { RemoveNothing(s); assert ks == {}; }
  }

  lemma GetKeeps<K(!new), V>(cfg: Config<V>, s: State<K, V>, k: K, now: real)
    requires Inv(cfg, s) && !s.disposed
    ensures Keeps(cfg, s, Get(cfg, s, k, now).0, 0)
  {
    if Live(cfg, s, k, now) {
      TouchFacts(cfg, s.entries, k);
    } else if k in s.entries.table {
      RemoveKeeps(cfg, s, {k});
    }
  }

  lemma StoreKeeps<K(!new), V>(cfg: Config<V>, s: State<K, V>, k: K, v: V, opts: EntryOptions, now: real)
    requires ValidConfig(cfg) && Inv(cfg, s) && !s.disposed
    ensures Keeps(cfg, s, Store(cfg, s, k, v, opts, now), StoreGain(s, k, opts))
  {
    StoreFacts(cfg, s, k, v, opts, now);
  }

  lemma EverythingKeeps<K(!new), V>(cfg: Config<V>, s: State<K, V>)
    requires WellFormed(s.entries) && |s.entries.keys| <= cfg.capacity
    ensures var r := RemoveEverything(s);
      && r.entries == Empty()
      && |r.entries.keys| + r.evictions == |s.entries.keys| + s.evictions
  {
    RemoveFacts(s, s.entries.table.Keys);
    MinusEverything(s.entries.keys, s.entries.table.Keys);
    assert RemoveEverything(s).entries.table == map[];
  }

  lemma ClearKeeps<K(!new), V>(cfg: Config<V>, s: State<K, V>)
    requires Inv(cfg, s)
    ensures Keeps(cfg, s, Clear(s), 0)
  {
    EverythingKeeps(cfg, Bump(s, s.pending.Keys));
  }

  lemma DisposeKeeps<K(!new), V>(cfg: Config<V>, s: State<K, V>, now: real)
    requires Inv(cfg, s)
    ensures Keeps(cfg, s, Dispose(cfg, s, now), 0)
  {
    if !s.disposed {
      var s0 := s.(disposed := true, pending := map[], bumps := map[]);
      RemoveFacts(s0, ExpiredKeys(cfg, s0.entries, now));
      EverythingKeeps(cfg, Sweep(cfg, s0, now));
    }
  }

  lemma RevalidateKeeps<K(!new), V>(cfg: Config<V>, s: State<K, V>, k: K, v: V, now: real)
    requires Inv(cfg, s) && !s.disposed
    ensures Keeps(cfg, s, Revalidate(cfg, s, k, v, now), 0)
  {
    RevalidateFacts(cfg, s, k, v, now);
  }

  lemma DeleteKeeps<K(!new), V>(cfg: Config<V>, s: State<K, V>, k: K, r: State<K, V>)
    requires Inv(cfg, s) && r == Delete(s, k)
    ensures Keeps(cfg, s, r, 0)
  {
    if k in s.entries.table { RemoveKeeps(cfg, s, {k}); }
  }

  lemma InvalidateKeeps<K(!new), V>(cfg: Config<V>, s: State<K, V>, pred: (K, Option<V>) -> bool)
    requires Inv(cfg, s)
    ensures Keeps(cfg, s, InvalidateWhere(s, pred), 0)
  {
    RemoveKeeps(cfg, Bump(s, PendingMatching(s, pred)), Matching(s.entries, pred));
  }

  lemma StartKeeps<K(!new), V>(cfg: Config<V>, s: State<K, V>, k: K, loader: Loader<V>, opts: EntryOptions)
    requires Inv(cfg, s) && !s.disposed && k !in s.pending
    ensures Keeps(cfg, s, StartLoad(s, k, loader, opts), 0)
  {
  }

  lemma MissKeeps<K(!new), V>(cfg: Config<V>, s: State<K, V>, k: K, loader: Loader<V>, opts: EntryOptions)
    requires Inv(cfg, s) && !s.disposed
    ensures Keeps(cfg, s, Miss(s, k, loader, opts).0, 0)
  {
    if k !in s.pending { StartKeeps(cfg, s.(misses := s.misses + 1), k, loader, opts); }
  }

  lemma LoadKeeps<K(!new), V>(cfg: Config<V>, s: State<K, V>, k: K, loader: Loader<V>, opts: EntryOptions, now: real)
    requires Inv(cfg, s) && !s.disposed
    ensures Keeps(cfg, s, GetOrLoad(cfg, s, k, loader, opts, now).0, 0)
  {
    if Live(cfg, s, k, now) {
      if StaleWithin(cfg, s.entries.table[k], now) {
        if k !in s.pending { StartKeeps(cfg, s.(staleHits := s.staleHits + 1), k, loader, opts); }
      } else {
        TouchFacts(cfg, s.entries, k);
      }
    } else {
      if k in s.entries.table {
        RemoveKeeps(cfg, s, {k});
        MissKeeps(cfg, Remove(s, {k}), k, loader, opts);
      } else {
        MissKeeps(cfg, s, k, loader, opts);
      }
    }
  }

  lemma ReleaseKeeps<K(!new), V>(cfg: Config<V>, s: State<K, V>, id: nat, r: State<K, V>)
    requires Inv(cfg, s) && id in s.loads && r == Release(s, id)
    ensures Keeps(cfg, s, r, 0)
  {
  }

  lemma CompleteKeeps<K(!new), V>(cfg: Config<V>, s: State<K, V>, id: nat, outcome: Option<V>, now: real)
    requires ValidConfig(cfg) && Inv(cfg, s) && id in s.loads
    ensures Keeps(cfg, s, Complete(cfg, s, id, outcome, now),
                  if Stores(s, id, outcome) then StoreGain(s, s.loads[id].key, s.loads[id].opts) else 0)
  {
    var l, s1 := s.loads[id], Release(s, id);
    ReleaseKeeps(cfg, s, id, s1);
    if Stores(s, id, outcome) {
      StoreKeeps(cfg, s1, l.key, if l.direct.Some? then l.direct.value else outcome.value, l.opts, now);
      assert StoreGain(s1, l.key, l.opts) == StoreGain(s, l.key, l.opts);
    }
  }

  ghost predicate StepKeeps<K(!new), V>(cfg: Config<V>, s: State<K, V>, e: Event<K, V>)
    requires WellFormed(s.entries)
  {
    Keeps(cfg, s, Step(cfg, s, e), Gain(cfg, s, e))
  }

  lemma ReadStepKeeps<K(!new), V>(cfg: Config<V>, s: State<K, V>, e: Event<K, V>)
    requires Inv(cfg, s) && !(s.disposed && NeedsAlive(e.op))
    requires e.op.DoGet? || e.op.DoPeek? || e.op.DoSweep? || e.op.DoGetOrLoad?
    ensures StepKeeps(cfg, s, e)
  {
    if e.op.DoGet? {
      GetKeeps(cfg, s, e.op.k, e.now);
      assert Step(cfg, s, e) == Get(cfg, s, e.op.k, e.now).0;
    } else if e.op.DoPeek? {
      if e.op.k in s.entries.table { RemoveKeeps(cfg, s, {e.op.k}); }
    } else if e.op.DoGetOrLoad? {
      LoadKeeps(cfg, s, e.op.k, e.op.loader, e.op.opts, e.now);
      assert Step(cfg, s, e) == GetOrLoad(cfg, s, e.op.k, e.op.loader, e.op.opts, e.now).0;
    } else {
      RemoveKeeps(cfg, s, ExpiredKeys(cfg, s.entries, e.now));
    }
  }

  lemma WriteStepKeeps<K(!new), V>(cfg: Config<V>, s: State<K, V>, e: Event<K, V>)
    requires ValidConfig(cfg) && Inv(cfg, s) && !(s.disposed && NeedsAlive(e.op))
    requires e.op.DoSet? || e.op.DoRevalidate? || e.op.DoComplete?
    ensures StepKeeps(cfg, s, e)
  {
    match e.op
    case DoSet(k, v, opts) => StoreKeeps(cfg, s, k, v, opts, e.now);
    case DoRevalidate(k, v) => RevalidateKeeps(cfg, s, k, v, e.now);
    case DoComplete(id, outcome) => if id in s.loads { CompleteKeeps(cfg, s, id, outcome, e.now); }
  }

  lemma RemovalStepKeeps<K(!new), V>(cfg: Config<V>, s: State<K, V>, e: Event<K, V>)
    requires Inv(cfg, s) && !(s.disposed && NeedsAlive(e.op))
    requires e.op.DoDelete? || e.op.DoInvalidateTags? || e.op.DoInvalidateWhere?
    ensures StepKeeps(cfg, s, e)
  {
    if e.op.DoDelete? {
      DeleteKeeps(cfg, s, e.op.k, Delete(s, e.op.k));
    } else if e.op.DoInvalidateTags? {
      RemoveKeeps(cfg, s, Tagged(s.entries, e.op.tags));
      assert Step(cfg, s, e) == InvalidateTags(s, e.op.tags);
    } else {
      InvalidateKeeps(cfg, s, e.op.pred);
      assert Step(cfg, s, e) == InvalidateWhere(s, e.op.pred);
    }
  }

  lemma DisposeStepKeeps<K(!new), V>(cfg: Config<V>, s: State<K, V>, e: Event<K, V>, r: State<K, V>)
    requires Inv(cfg, s) && e.op.DoDispose? && r == Dispose(cfg, s, e.now)
    ensures Step(cfg, s, e) == r && Keeps(cfg, s, r, 0)
  {
    DisposeKeeps(cfg, s, e.now);
  }

  lemma ClearStepKeeps<K(!new), V>(cfg: Config<V>, s: State<K, V>, e: Event<K, V>, r: State<K, V>)
    requires Inv(cfg, s) && e.op.DoClear? && r == Clear(s)
    ensures Step(cfg, s, e) == r && Keeps(cfg, s, r, 0)
  {
    ClearKeeps(cfg, s);
  }

  /** Every operation keeps the invariant and conserves entries: what comes in is either present or was evicted. */
  lemma StepKeepsInv<K(!new), V>(cfg: Config<V>, s: State<K, V>, e: Event<K, V>)
    requires ValidConfig(cfg) && Inv(cfg, s)
    ensures StepKeeps(cfg, s, e)
  {
    if s.disposed && NeedsAlive(e.op) {
    } else if e.op.DoGet? || e.op.DoPeek? || e.op.DoSweep? || e.op.DoGetOrLoad? {
      ReadStepKeeps(cfg, s, e);
    } else if e.op.DoSet? || e.op.DoRevalidate? || e.op.DoComplete? {
      WriteStepKeeps(cfg, s, e);
    } else if e.op.DoClear? {
      ClearStepKeeps(cfg, s, e, Clear(s));
    } else if e.op.DoDispose? {
      DisposeStepKeeps(cfg, s, e, Dispose(cfg, s, e.now));
    } else {
      RemovalStepKeeps(cfg, s, e);
    }
  }

  ghost function Run<K(!new), V>(cfg: Config<V>, s: State<K, V>, es: seq<Event<K, V>>): (r: State<K, V>)
    requires ValidConfig(cfg) && Inv(cfg, s)
    ensures Inv(cfg, r)
    decreases |es|
  {
    if es == [] then s
    else StepKeepsInv(cfg, s, es[0]); Run(cfg, Step(cfg, s, es[0]), es[1..])
  }

  ghost function GainOver<K(!new), V>(cfg: Config<V>, s: State<K, V>, es: seq<Event<K, V>>): int
    requires ValidConfig(cfg) && Inv(cfg, s)
    decreases |es|
  {
    if es == [] then 0
    else StepKeepsInv(cfg, s, es[0]); Gain(cfg, s, es[0]) + GainOver(cfg, Step(cfg, s, es[0]), es[1..])
  }

  /** Over any run from the empty cache, the writes that created an entry (less the entries a bad ttl lost) are the
      entries still there plus the evictions counted. */
  lemma {:induction false} EntriesAreConserved<K(!new), V>(cfg: Config<V>, s: State<K, V>, es: seq<Event<K, V>>)
    requires ValidConfig(cfg) && Inv(cfg, s)
    ensures var r := Run(cfg, s, es);
      |r.entries.keys| + r.evictions == |s.entries.keys| + s.evictions + GainOver(cfg, s, es)
    decreases |es|
  {
    if es != [] {
      StepKeepsInv(cfg, s, es[0]);
      EntriesAreConserved(cfg, Step(cfg, s, es[0]), es[1..]);
    }
  }
}
