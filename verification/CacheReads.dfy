/** What a read of the shared cache may return: the value written last to its key, no older than its limits allow. */
module CacheReads {
  import opened Prelude
  import opened OrderedMaps
  import opened CacheSpec
  import opened CacheFacts
  import opened CacheRuns
  import opened CacheGuard

  /** A write to a key: a new entry with its ttl, or a new value and time for the old one. */
  datatype Writing<V> = Entered(value: V, ttl: EntryTtl) | Renewed(value: V)

  /** What the last write to a key left: the value, when it was written, and the ttl given with it or, if it renewed an
      entry, with the write before. */
  datatype Written<V> = Written(value: V, at: real, ttl: EntryTtl)

  function WrittenAfter<V>(before: Option<Written<V>>, w: Option<Writing<V>>, now: real): Option<Written<V>> {
    match w
    case None => before
    case Some(Entered(v, ttl)) => Some(Written(v, now, ttl))
    case Some(Renewed(v)) => if before.Some? then Some(Written(v, now, before.value.ttl)) else None
  }

  function Entering<V>(v: V, opts: EntryOptions): Option<Writing<V>> {
    if ToEntryTtl(opts.ttl).Ok? then Some(Entered(v, ToEntryTtl(opts.ttl).value)) else None
  }

  /** What the end of load `id` writes to key `k`, if anything. */
  function CommitOf<K(==), V>(s: State<K, V>, k: K, id: nat, outcome: Option<V>): Option<Writing<V>> {
    if Stores(s, id, outcome) && s.loads[id].key == k
    then Entering(if s.loads[id].direct.Some? then s.loads[id].direct.value else outcome.value, s.loads[id].opts)
    else None
  }

  /** What event `e` writes to key `k`, if anything. */
  ghost function WriteOf<K(!new), V>(cfg: Config<V>, s: State<K, V>, k: K, e: Event<K, V>): Option<Writing<V>> {
    match e.op
    case DoSet(j, v, opts) => if j == k && !s.disposed then Entering(v, opts) else None
    case DoRevalidate(j, v) => if j == k && !s.disposed && Live(cfg, s, k, e.now) then Some(Renewed(v)) else None
    case DoComplete(id, outcome) => CommitOf(s, k, id, outcome)
    case _ => None
  }

  /** The last write to `k` in the run; `before` is the last one before the run. */
  ghost function LastWrite<K(!new), V>(cfg: Config<V>, s: State<K, V>, k: K, es: seq<Event<K, V>>,
                                       before: Option<Written<V>>)
    : Option<Written<V>>
    requires ValidConfig(cfg) && Inv(cfg, s)
    decreases |es|
  {
    if es == [] then before
    else
      StepKeepsInv(cfg, s, es[0]);
      var w := WriteOf(cfg, s, k, es[0]);
      LastWrite(cfg, Step(cfg, s, es[0]), k, es[1..], WrittenAfter(before, w, es[0].now))
  }

  /** After the step, an entry of `k` is the one just entered, the old one renewed, or the old one unchanged. */
  ghost predicate Explained<K(!new), V>(s: State<K, V>, r: State<K, V>, k: K, w: Option<Writing<V>>, now: real) {
    k in r.entries.table ==>
      var e := r.entries.table[k];
      match w
      case None => k in s.entries.table && e == s.entries.table[k]
      case Some(Entered(v, ttl)) => e.value == v && e.storedAt == now && e.ttl == ttl
      case Some(Renewed(v)) => k in s.entries.table && e == s.entries.table[k].(value := v, storedAt := now)
  }

  lemma TrimExplained<K(!new), V>(cfg: Config<V>, s: State<K, V>, now: real, k: K)
    requires WellFormed(s.entries)
    ensures Explained(s, Trim(cfg, s, now), k, None, now)
  {
    DropWellFormed(s.entries, ExpiredKeys(cfg, s.entries, now));
    var s1 := Sweep(cfg, s, now);
    DropWellFormed(s1.entries, Elements(Excess(cfg, s1.entries.keys)));
  }

  lemma StoreExplained<K(!new), V>(cfg: Config<V>, s: State<K, V>, j: K, v: V, opts: EntryOptions, now: real,
                                   r: State<K, V>, k: K)
    requires WellFormed(s.entries) && r == Store(cfg, s, j, v, opts, now)
    ensures Explained(s, r, k, if j == k then Entering(v, opts) else None, now)
  {
    if ToEntryTtl(opts.ttl).Ok? {
      var e := Entry(v, now, ToEntryTtl(opts.ttl).value, Elements(opts.tags));
      InsertedReplaces(s, j, e, k);
      TrimExplained(cfg, Inserted(s, j, e), now, k);
    }
  }

  lemma CompleteExplained<K(!new), V>(cfg: Config<V>, s: State<K, V>, id: nat, outcome: Option<V>, now: real,
                                      r: State<K, V>, k: K)
    requires WellFormed(s.entries) && id in s.loads && r == Complete(cfg, s, id, outcome, now)
    ensures Explained(s, r, k, CommitOf(s, k, id, outcome), now)
  {
    if Stores(s, id, outcome) {
      var l := s.loads[id];
      var v := if l.direct.Some? then l.direct.value else outcome.value;
      StoreExplained(cfg, Release(s, id), l.key, v, l.opts, now, r, k);
    }
  }

  lemma GetExplained<K(!new), V>(cfg: Config<V>, s: State<K, V>, j: K, now: real, r: State<K, V>, k: K)
    requires WellFormed(s.entries) && r == Get(cfg, s, j, now).0
    ensures Explained(s, r, k, None, now)
  {
    if Live(cfg, s, j, now) { TouchFacts(cfg, s.entries, j); }
  }

  lemma LoadExplained<K(!new), V>(cfg: Config<V>, s: State<K, V>, j: K, loader: Loader<V>, opts: EntryOptions,
                                  now: real, r: State<K, V>, k: K)
    requires WellFormed(s.entries) && r == GetOrLoad(cfg, s, j, loader, opts, now).0
    ensures Explained(s, r, k, None, now)
  {
    if !Live(cfg, s, j, now) {
      MissIsQuiet(if j in s.entries.table then Remove(s, {j}) else s, j, loader, opts, r);
    } else if StaleWithin(cfg, s.entries.table[j], now) {
      assert r.entries == s.entries;
    } else {
      TouchFacts(cfg, s.entries, j);
      assert r.entries == Touch(cfg, s.entries, j);
    }
  }

  lemma MissIsQuiet<K(!new), V>(s: State<K, V>, k: K, loader: Loader<V>, opts: EntryOptions, r: State<K, V>)
    requires r == Miss(s, k, loader, opts).0
    ensures r.entries == s.entries && r.disposed == s.disposed
  {
  }

  lemma RevalidateExplained<K(!new), V>(cfg: Config<V>, s: State<K, V>, j: K, v: V, now: real, r: State<K, V>, k: K)
    requires WellFormed(s.entries) && !s.disposed && r == Revalidate(cfg, s, j, v, now)
    ensures Explained(s, r, k, if j == k && Live(cfg, s, k, now) then Some(Renewed(v)) else None, now)
  {
    RevalidateFacts(cfg, s, j, v, now);
  }

  lemma StepExplained<K(!new), V>(cfg: Config<V>, s: State<K, V>, e: Event<K, V>, r: State<K, V>, k: K)
    requires ValidConfig(cfg) && Inv(cfg, s) && r == Step(cfg, s, e)
    ensures Explained(s, r, k, WriteOf(cfg, s, k, e), e.now)
  {
    if s.disposed && NeedsAlive(e.op) {
    } else if e.op.DoSet? {
      StoreExplained(cfg, s, e.op.k, e.op.v, e.op.opts, e.now, r, k);
    } else if e.op.DoComplete? {
      if e.op.id in s.loads { CompleteExplained(cfg, s, e.op.id, e.op.outcome, e.now, r, k); }
    } else if e.op.DoRevalidate? {
      RevalidateExplained(cfg, s, e.op.k, e.op.v, e.now, r, k);
    } else if e.op.DoGet? {
      GetExplained(cfg, s, e.op.k, e.now, r, k);
    } else if e.op.DoGetOrLoad? {
      LoadExplained(cfg, s, e.op.k, e.op.loader, e.op.opts, e.now, r, k);
    } else if e.op.DoDispose? {
      DisposeKeeps(cfg, s, e.now);
      DisposeIsFinal(cfg, s, e);
      StepKeepsInv(cfg, s, e);
    } else {
      RemovalExplained(cfg, s, e, r, k);
    }
  }

  lemma RemovalExplained<K(!new), V>(cfg: Config<V>, s: State<K, V>, e: Event<K, V>, r: State<K, V>, k: K)
    requires WellFormed(s.entries) && !(s.disposed && NeedsAlive(e.op)) && r == Step(cfg, s, e)
    requires e.op.DoPeek? || e.op.DoDelete? || e.op.DoClear? || e.op.DoInvalidateTags? || e.op.DoInvalidateWhere? ||
      e.op.DoSweep?
    ensures Explained(s, r, k, None, e.now)
  {
  }

  /** Over any run an entry holds the value, the time and the ttl of the last write to its key. */
  lemma {:induction false} EntriesAreLastWrites<K(!new), V>(cfg: Config<V>, s: State<K, V>, k: K, es: seq<Event<K, V>>,
                                                            before: Option<Written<V>>)
    requires ValidConfig(cfg) && Inv(cfg, s)
    requires k in s.entries.table ==> before == Some(Record(s.entries.table[k]))
    ensures var r := Run(cfg, s, es);
      k in r.entries.table ==> LastWrite(cfg, s, k, es, before) == Some(Record(r.entries.table[k]))
    decreases |es|
  {
    if es != [] {
      var s1 := Step(cfg, s, es[0]);
      RunUnrolls(cfg, s, es, s1);
      StepExplained(cfg, s, es[0], s1, k);
      var w := WriteOf(cfg, s, k, es[0]);
      EntriesAreLastWrites(cfg, s1, k, es[1..], WrittenAfter(before, w, es[0].now));
    }
  }

  function Record<V>(e: Entry<V>): Written<V> { Written(e.value, e.storedAt, e.ttl) }

  /** The value is the one written last to the key in the run, and not older than the ttl given with it and the stale
      window allow. */
  ghost predicate IsLastWrite<K(!new), V>(cfg: Config<V>, es: seq<Event<K, V>>, k: K, v: V, now: real)
    requires ValidConfig(cfg)
  {
    var w := LastWrite(cfg, Init(), k, es, None);
    && w.Some? && w.value.value == v
    && (LimitOf(cfg, w.value.ttl).Some? ==> now - w.value.at <= LimitOf(cfg, w.value.ttl).value + cfg.swr)
  }

  /** After any history, whatever `get`, `peek` or `getOrLoad` return from the cache is the last write to that key,
      and young enough. A reply to `getOrLoad` without a live entry is not from the cache but from the loader. */
  lemma ReadsReturnTheLastWrite<K(!new), V>(cfg: Config<V>, es: seq<Event<K, V>>, k: K, now: real, s: State<K, V>,
                                            loader: Loader<V>, opts: EntryOptions)
    requires ValidConfig(cfg) && s == Run(cfg, Init(), es)
    ensures var v := Get(cfg, s, k, now).1; v.Some? ==> IsLastWrite(cfg, es, k, v.value, now)
    ensures var v := Peek(cfg, s, k, now).1; v.Some? ==> IsLastWrite(cfg, es, k, v.value, now)
    ensures Live(cfg, s, k, now) ==>
      var reply := GetOrLoad(cfg, s, k, loader, opts, now).1;
      reply.Served? && IsLastWrite(cfg, es, k, reply.value, now)
  {
    EntriesAreLastWrites(cfg, Init(), k, es, None);
    if Live(cfg, s, k, now) {
      var e := s.entries.table[k];
      assert IsLastWrite(cfg, es, k, e.value, now);
    }
  }

  // ---- the byte budget --------------------------------------------------------------------

  ghost predicate WithinBudget<K(!new), V>(cfg: Config<V>, s: State<K, V>)
    requires WellFormed(s.entries)
  {
    cfg.sizeOf.Some? && cfg.maxBytes.Some? ==> Weight(cfg, s.entries) <= cfg.maxBytes.value
  }

  /** Every successful write ends within the byte budget, wherever it started. */
  lemma WritesRestoreBudget<K(!new), V>(cfg: Config<V>, s: State<K, V>, k: K, v: V, opts: EntryOptions, now: real)
    requires ValidConfig(cfg) && WellFormed(s.entries) && ToEntryTtl(opts.ttl).Ok?
    ensures var r := Store(cfg, s, k, v, opts, now); WellFormed(r.entries) && WithinBudget(cfg, r)
  {
    var e := Entry(v, now, ToEntryTtl(opts.ttl).value, Elements(opts.tags));
    InsertedReplaces(s, k, e, k);
    TrimFacts(cfg, Inserted(s, k, e), now);
  }

  /** `revalidate` does not trim: it stays within the budget exactly when the new value still fits in place of the
      old. */
  lemma RevalidateBudget<K(!new), V>(cfg: Config<V>, s: State<K, V>, k: K, v: V, now: real, sizeOf: V -> Number,
                                     budget: real)
    requires WellFormed(s.entries) && Live(cfg, s, k, now) && cfg.sizeOf == Some(sizeOf) && cfg.maxBytes == Some(budget)
    ensures var r := Revalidate(cfg, s, k, v, now);
      && WellFormed(r.entries)
      && (WithinBudget(cfg, r) <==>
            Weight(cfg, s.entries) - EntrySize(cfg, s.entries.table[k].value) + EntrySize(cfg, v) <= budget)
  {
    var e := s.entries.table[k].(value := v, storedAt := now);
    WeightUpdate(cfg, s.entries, k, e);
    TouchFacts(cfg, Put(s.entries, k, e), k);
  }
}
