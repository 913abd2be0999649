/** Which finished loads may be stored: the change counters of the shared cache against what really happened. */
module CacheGuard {
  import opened Prelude
  import opened OrderedMaps
  import opened CacheSpec
  import opened CacheFacts
  import opened CacheRuns

  // ---- what counts as a change of a key ------------------------------------------------

  /** The event writes key `k`, or asks for its removal. */
  ghost predicate Addresses<K(!new), V>(cfg: Config<V>, s: State<K, V>, k: K, e: Event<K, V>) {
    match e.op
    case DoSet(j, _, _) => j == k
    case DoDelete(j) => j == k
    case DoRevalidate(j, _) => j == k && Live(cfg, s, k, e.now)
    case DoClear => true
    case DoInvalidateWhere(pred) => pred(k, None)
    case DoComplete(id, outcome) => Stores(s, id, outcome) && s.loads[id].key == k
    case _ => false
  }

  ghost predicate Leaves<K(!new), V>(s: State<K, V>, r: State<K, V>, k: K) {
    k in s.entries.table && k !in r.entries.table
  }

  /** The event changes key `k`: it addresses it, or its entry leaves the cache for whatever reason. */
  ghost predicate Touches<K(!new), V>(cfg: Config<V>, s: State<K, V>, k: K, e: Event<K, V>)
    requires WellFormed(s.entries)
  {
    Addresses(cfg, s, k, e) || Leaves(s, Step(cfg, s, e), k)
  }

  ghost predicate TouchedDuring<K(!new), V>(cfg: Config<V>, s: State<K, V>, k: K, es: seq<Event<K, V>>)
    requires ValidConfig(cfg) && Inv(cfg, s)
    decreases |es|
  {
    && es != []
    && (Touches(cfg, s, k, es[0]) ||
        (StepKeepsInv(cfg, s, es[0]); TouchedDuring(cfg, Step(cfg, s, es[0]), k, es[1..])))
  }

  predicate Completes<K, V>(e: Event<K, V>, id: nat) { e.op.DoComplete? && e.op.id == id }

  /** Load `id` is not ended by any of the events. */
  ghost predicate StaysInFlight<K, V>(es: seq<Event<K, V>>, id: nat) { forall e :: e in es ==> !Completes(e, id) }

  /** No other deferred load of the same key is in flight. */
  ghost predicate NoRival<K, V>(s: State<K, V>, id: nat)
    requires id in s.loads
  {
    forall j :: j in s.loads && j != id && s.loads[j].key == s.loads[id].key ==> s.loads[j].direct.Some?
  }

  // ---- the counter of one key, one event at a time ----------------------------------------

  /** What a step that ends no load does, from `s` to `r`: load `id` stays, and the counter of `k` rises exactly when
      the key was touched while a load of it was registered. */
  ghost predicate Moves<K(!new), V>(s: State<K, V>, r: State<K, V>, id: nat, k: K, touched: bool) {
    && r.disposed == s.disposed
    && (id in s.loads ==> id in r.loads && r.loads[id] == s.loads[id])
    && (k in s.pending && !touched ==> k in r.pending && r.pending[k] == s.pending[k])
    && if k in s.pending && touched then Count(r.bumps, k) > Count(s.bumps, k)
       else Count(r.bumps, k) == Count(s.bumps, k)
  }

  /** What a step from `s` to `r` does to load `id` of key `k`: the load stays, the counter never falls, and while the
      load is the registered one the counter rises exactly when the key was touched. */
  ghost predicate Effect<K(!new), V>(s: State<K, V>, r: State<K, V>, id: nat, k: K, touched: bool)
    requires id in s.loads
  {
    && id in r.loads && r.loads[id] == s.loads[id] && r.disposed == s.disposed
    && Count(r.bumps, k) >= Count(s.bumps, k)
    && (k in s.pending && s.pending[k] == id ==>
          if touched then Count(r.bumps, k) > Count(s.bumps, k)
          else Count(r.bumps, k) == Count(s.bumps, k) && k in r.pending && r.pending[k] == id)
  }

  /** From `s` to `r` entries have only left, and the counter of `k` tells whether its entry did. */
  ghost predicate Shrinks<K(!new), V>(s: State<K, V>, r: State<K, V>, k: K) {
    && r.pending == s.pending && r.loads == s.loads && r.disposed == s.disposed
    && (k in r.entries.table ==> k in s.entries.table)
    && Count(r.bumps, k) == Count(s.bumps, k) +
         (if k in s.pending && k in s.entries.table && k !in r.entries.table then 1 else 0)
  }

  lemma RemoveShrinks<K(!new), V>(s: State<K, V>, ks: set<K>, k: K)
    requires ks <= s.entries.table.Keys
    ensures Shrinks(s, Remove(s, ks), k)
  {
  }

  lemma ShrinksTwice<K(!new), V>(a: State<K, V>, b: State<K, V>, c: State<K, V>, k: K)
    requires Shrinks(a, b, k) && Shrinks(b, c, k)
    ensures Shrinks(a, c, k)
  {
  }

  lemma TrimShrinks<K(!new), V>(cfg: Config<V>, s: State<K, V>, now: real, k: K)
    requires WellFormed(s.entries)
    ensures Shrinks(s, Trim(cfg, s, now), k)
  {
    var s1 := SweepShrinks(cfg, s, now, k);
    var s2 := TrimSizeShrinks(cfg, s1, k);
    var s3 := TrimBytesShrinks(cfg, s2, k);
    ShrinksTwice(s, s1, s2, k);
    ShrinksTwice(s, s2, s3, k);
  }

  lemma SweepShrinks<K(!new), V>(cfg: Config<V>, s: State<K, V>, now: real, k: K) returns (r: State<K, V>)
    requires WellFormed(s.entries)
    ensures r == Sweep(cfg, s, now) && WellFormed(r.entries) && Shrinks(s, r, k)
  {
    r := Sweep(cfg, s, now);
    RemoveShrinks(s, ExpiredKeys(cfg, s.entries, now), k);
    DropWellFormed(s.entries, ExpiredKeys(cfg, s.entries, now));
  }

  lemma TrimSizeShrinks<K(!new), V>(cfg: Config<V>, s: State<K, V>, k: K) returns (r: State<K, V>)
    requires WellFormed(s.entries)
    ensures r == TrimSize(cfg, s) && WellFormed(r.entries) && Shrinks(s, r, k)
  {
    r := TrimSize(cfg, s);
    RemoveShrinks(s, Elements(Excess(cfg, s.entries.keys)), k);
    DropWellFormed(s.entries, Elements(Excess(cfg, s.entries.keys)));
  }

  lemma TrimBytesShrinks<K(!new), V>(cfg: Config<V>, s: State<K, V>, k: K) returns (r: State<K, V>)
    requires WellFormed(s.entries)
    ensures r == TrimBytes(cfg, s) && WellFormed(r.entries) && Shrinks(s, r, k)
  {
    r := TrimBytes(cfg, s);
    RemoveShrinks(s, Elements(TooHeavy(cfg, s.entries)), k);
    DropWellFormed(s.entries, Elements(TooHeavy(cfg, s.entries)));
  }

  /** From `s` to `m` key `j` was bumped and its entry replaced; nothing else moved. */
  ghost predicate Replaces<K(!new), V>(s: State<K, V>, m: State<K, V>, j: K, k: K) {
    && m.pending == s.pending && m.loads == s.loads && m.disposed == s.disposed
    && (k != j ==> (k in m.entries.table <==> k in s.entries.table))
    && Count(m.bumps, k) == Count(s.bumps, k) + if k == j && k in s.pending then 1 else 0
  }

  lemma InsertedReplaces<K(!new), V>(s: State<K, V>, j: K, e: Entry<V>, k: K)
    requires WellFormed(s.entries)
    ensures WellFormed(Inserted(s, j, e).entries) && Replaces(s, Inserted(s, j, e), j, k)
  {
    DropWellFormed(s.entries, {j});
  }

  /** A write is a replacement followed by removals. */
  lemma ReplaceThenTrim<K(!new), V>(cfg: Config<V>, s: State<K, V>, m: State<K, V>, j: K, now: real,
                                    r: State<K, V>, id: nat, k: K)
    requires WellFormed(m.entries) && Replaces(s, m, j, k) && r == Trim(cfg, m, now)
    ensures Moves(s, r, id, k, j == k || Leaves(s, r, k))
  {
    TrimShrinks(cfg, m, now, k);
  }

  lemma DisplacedEffect<K(!new), V>(s: State<K, V>, j: K, r: State<K, V>, id: nat, k: K)
    requires r == Displaced(s, j)
    ensures Moves(s, r, id, k, j == k || Leaves(s, r, k))
  {
  }

  lemma StoreEffect<K(!new), V>(cfg: Config<V>, s: State<K, V>, j: K, v: V, opts: EntryOptions, now: real,
                                r: State<K, V>, id: nat, k: K)
    requires WellFormed(s.entries) && r == Store(cfg, s, j, v, opts, now)
    ensures Moves(s, r, id, k, j == k || Leaves(s, r, k))
  {
    DropWellFormed(s.entries, {j});
    if ToEntryTtl(opts.ttl).Ok? {
      var e := Entry(v, now, ToEntryTtl(opts.ttl).value, Elements(opts.tags));
      InsertedReplaces(s, j, e, k);
      ReplaceThenTrim(cfg, s, Inserted(s, j, e), j, now, r, id, k);
    } else {
      DisplacedEffect(s, j, r, id, k);
    }
  }

  lemma RemoveEffect<K(!new), V>(s: State<K, V>, ks: set<K>, r: State<K, V>, id: nat, k: K)
    requires ks <= s.entries.table.Keys && r == Remove(s, ks)
    ensures Moves(s, r, id, k, Leaves(s, r, k))
  {
    RemoveShrinks(s, ks, k);
  }

  lemma GetEffect<K(!new), V>(cfg: Config<V>, s: State<K, V>, j: K, now: real, r: State<K, V>, id: nat, k: K)
    requires WellFormed(s.entries) && r == Get(cfg, s, j, now).0
    ensures Moves(s, r, id, k, Leaves(s, r, k))
  {
    if Live(cfg, s, j, now) {
      TouchFacts(cfg, s.entries, j);
    } else if j in s.entries.table {
      RemoveShrinks(s, {j}, k);
    }
  }

  lemma DeleteEffect<K(!new), V>(s: State<K, V>, j: K, r: State<K, V>, id: nat, k: K)
    requires r == Delete(s, j)
    ensures Moves(s, r, id, k, j == k || Leaves(s, r, k))
  {
    if j in s.entries.table { RemoveShrinks(s, {j}, k); }
  }

  lemma ClearEffect<K(!new), V>(s: State<K, V>, r: State<K, V>, id: nat, k: K)
    requires r == Clear(s)
    ensures Moves(s, r, id, k, true)
  {
  }

  lemma RevalidateEffect<K(!new), V>(cfg: Config<V>, s: State<K, V>, j: K, v: V, now: real, r: State<K, V>, id: nat,
                                     k: K)
    requires WellFormed(s.entries) && r == Revalidate(cfg, s, j, v, now)
    ensures Moves(s, r, id, k, (j == k && Live(cfg, s, k, now)) || Leaves(s, r, k))
  {
    if Live(cfg, s, j, now) {
      var e := s.entries.table[j].(value := v, storedAt := now);
      assert WellFormed(Put(s.entries, j, e));
      TouchFacts(cfg, Put(s.entries, j, e), j);
    } else if j in s.entries.table {
      RemoveShrinks(s, {j}, k);
    }
  }

  lemma InvalidateEffect<K(!new), V>(s: State<K, V>, pred: (K, Option<V>) -> bool, r: State<K, V>, id: nat, k: K)
    requires r == InvalidateWhere(s, pred)
    ensures Moves(s, r, id, k, pred(k, None) || Leaves(s, r, k))
  {
    RemoveShrinks(Bump(s, PendingMatching(s, pred)), Matching(s.entries, pred), k);
  }

  lemma StartEffect<K(!new), V>(s: State<K, V>, j: K, loader: Loader<V>, opts: EntryOptions, r: State<K, V>, id: nat,
                                k: K)
    requires s.nextLoad !in s.loads && j !in s.pending && r == StartLoad(s, j, loader, opts)
    ensures Moves(s, r, id, k, false) && r.entries == s.entries
  {
  }

  lemma EffectThenQuiet<K(!new), V>(a: State<K, V>, b: State<K, V>, c: State<K, V>, id: nat, k: K, touched: bool)
    requires Moves(a, b, id, k, touched) && Moves(b, c, id, k, false)
    ensures Moves(a, c, id, k, touched)
  {
  }

  lemma MissEffect<K(!new), V>(s: State<K, V>, j: K, loader: Loader<V>, opts: EntryOptions, r: State<K, V>, id: nat,
                               k: K)
    requires s.nextLoad !in s.loads && r == Miss(s, j, loader, opts).0
    ensures Moves(s, r, id, k, false) && r.entries == s.entries
  {
    if j !in s.pending { StartEffect(s.(misses := s.misses + 1), j, loader, opts, r, id, k); }
  }

  lemma RemovedMissEffect<K(!new), V>(s: State<K, V>, j: K, loader: Loader<V>, opts: EntryOptions, r: State<K, V>,
                                      id: nat, k: K)
    requires s.nextLoad !in s.loads && j in s.entries.table
    requires r == Miss(Remove(s, {j}), j, loader, opts).0
    ensures Moves(s, r, id, k, Leaves(s, r, k))
  {
    var s1 := Remove(s, {j});
    RemoveEffect(s, {j}, s1, id, k);
    MissEffect(s1, j, loader, opts, r, id, k);
    EffectThenQuiet(s, s1, r, id, k, Leaves(s, s1, k));
  }

  lemma LoadEffect<K(!new), V>(cfg: Config<V>, s: State<K, V>, j: K, loader: Loader<V>, opts: EntryOptions, now: real,
                               r: State<K, V>, id: nat, k: K)
    requires WellFormed(s.entries) && s.nextLoad !in s.loads
    requires r == GetOrLoad(cfg, s, j, loader, opts, now).0
    ensures Moves(s, r, id, k, Leaves(s, r, k))
  {
    if Live(cfg, s, j, now) {
      if StaleWithin(cfg, s.entries.table[j], now) {
        var s1 := s.(staleHits := s.staleHits + 1);
        if j !in s.pending { StartEffect(s1, j, loader, opts, r, id, k); }
      } else {
        TouchFacts(cfg, s.entries, j);
      }
    } else {
      if j in s.entries.table {
        RemovedMissEffect(s, j, loader, opts, r, id, k);
      } else {
        MissEffect(s, j, loader, opts, r, id, k);
      }
    }
  }

  lemma CompleteEffect<K(!new), V>(cfg: Config<V>, s: State<K, V>, j: nat, outcome: Option<V>, now: real,
                                   r: State<K, V>, id: nat, k: K)
    requires WellFormed(s.entries) && id in s.loads && j in s.loads && j != id
    requires s.loads[id].key == k && NoRival(s, id) && r == Complete(cfg, s, j, outcome, now)
    ensures Effect(s, r, id, k, (Stores(s, j, outcome) && s.loads[j].key == k) || Leaves(s, r, k))
  {
    var l, s1 := s.loads[j], Release(s, j);
    assert Effect(s, s1, id, k, false);
    if Stores(s, j, outcome) {
      StoreEffect(cfg, s1, l.key, if l.direct.Some? then l.direct.value else outcome.value, l.opts, now, r, id, k);
    }
  }

  ghost predicate StepMoves<K(!new), V>(cfg: Config<V>, s: State<K, V>, e: Event<K, V>, r: State<K, V>, id: nat, k: K) {
    Moves(s, r, id, k, Addresses(cfg, s, k, e) || Leaves(s, r, k))
  }

  lemma ReadStepEffect<K(!new), V>(cfg: Config<V>, s: State<K, V>, e: Event<K, V>, r: State<K, V>, id: nat, k: K)
    requires Inv(cfg, s) && !s.disposed && r == Step(cfg, s, e)
    requires e.op.DoGet? || e.op.DoPeek? || e.op.DoSweep? || e.op.DoGetOrLoad?
    ensures StepMoves(cfg, s, e, r, id, k)
  {
    match e.op
    case DoGet(j) => GetEffect(cfg, s, j, e.now, r, id, k);
    case DoPeek(j) => if r != s { RemoveEffect(s, {j}, r, id, k); }
    case DoGetOrLoad(j, loader, opts) => LoadEffect(cfg, s, j, loader, opts, e.now, r, id, k);
    case DoSweep => RemoveEffect(s, ExpiredKeys(cfg, s.entries, e.now), r, id, k);
  }

  lemma WriteStepEffect<K(!new), V>(cfg: Config<V>, s: State<K, V>, e: Event<K, V>, r: State<K, V>, id: nat, k: K)
    requires Inv(cfg, s) && !s.disposed && r == Step(cfg, s, e) && (e.op.DoSet? || e.op.DoRevalidate?)
    ensures StepMoves(cfg, s, e, r, id, k)
  {
    if e.op.DoSet? {
      StoreEffect(cfg, s, e.op.k, e.op.v, e.op.opts, e.now, r, id, k);
    } else {
      RevalidateEffect(cfg, s, e.op.k, e.op.v, e.now, r, id, k);
    }
  }

  lemma RemovalStepEffect<K(!new), V>(cfg: Config<V>, s: State<K, V>, e: Event<K, V>, r: State<K, V>, id: nat, k: K)
    requires Inv(cfg, s) && !s.disposed && r == Step(cfg, s, e)
    requires e.op.DoDelete? || e.op.DoClear? || e.op.DoInvalidateTags? || e.op.DoInvalidateWhere?
    ensures StepMoves(cfg, s, e, r, id, k)
  {
    if e.op.DoDelete? {
      DeleteEffect(s, e.op.k, r, id, k);
    } else if e.op.DoClear? {
      assert r == Clear(s);
      ClearEffect(s, r, id, k);
    } else if e.op.DoInvalidateTags? {
      assert r == Remove(s, Tagged(s.entries, e.op.tags));
      RemoveEffect(s, Tagged(s.entries, e.op.tags), r, id, k);
    } else {
      assert r == InvalidateWhere(s, e.op.pred);
      InvalidateEffect(s, e.op.pred, r, id, k);
    }
  }

  /** Every event that neither ends a load nor disposes the cache. */
  lemma PlainStepEffect<K(!new), V>(cfg: Config<V>, s: State<K, V>, e: Event<K, V>, r: State<K, V>, id: nat, k: K)
    requires Inv(cfg, s) && !s.disposed && r == Step(cfg, s, e) && !e.op.DoComplete? && !e.op.DoDispose?
    ensures StepMoves(cfg, s, e, r, id, k)
  {
    if e.op.DoGet? || e.op.DoPeek? || e.op.DoSweep? || e.op.DoGetOrLoad? {
      ReadStepEffect(cfg, s, e, r, id, k);
    } else if e.op.DoSet? || e.op.DoRevalidate? {
      WriteStepEffect(cfg, s, e, r, id, k);
    } else {
      RemovalStepEffect(cfg, s, e, r, id, k);
    }
  }

  // ---- whole runs -------------------------------------------------------------------------

  /** Load `id` is in flight with its counter telling the truth about whether its key was touched so far. */
  ghost predicate Tracked<K(!new), V>(s: State<K, V>, id: nat, touched: bool) {
    && id in s.loads && NoRival(s, id)
    && var k := s.loads[id].key;
       if touched then Count(s.bumps, k) > s.loads[id].s0
       else Count(s.bumps, k) == s.loads[id].s0 && k in s.pending && s.pending[k] == id
  }

  lemma TrackedStep<K(!new), V>(cfg: Config<V>, s: State<K, V>, e: Event<K, V>, r: State<K, V>, id: nat, touched: bool)
    requires Inv(cfg, s) && !s.disposed && Tracked(s, id, touched)
    requires !Completes(e, id) && !e.op.DoDispose? && r == Step(cfg, s, e)
    ensures id in r.loads && r.loads[id] == s.loads[id] && !r.disposed
    ensures NoRival(r, id) ==> Tracked(r, id, touched || Touches(cfg, s, s.loads[id].key, e))
  {
    var k := s.loads[id].key;
    if !e.op.DoComplete? {
      PlainStepEffect(cfg, s, e, r, id, k);
    } else if e.op.id in s.loads {
      CompleteEffect(cfg, s, e.op.id, e.op.outcome, e.now, r, id, k);
    }
  }

  lemma DisposedStays<K(!new), V>(cfg: Config<V>, s: State<K, V>, e: Event<K, V>)
    requires WellFormed(s.entries) && s.disposed
    ensures Step(cfg, s, e).disposed
    ensures forall id :: id in s.loads && !Completes(e, id) ==> id in Step(cfg, s, e).loads
  {
  }

  ghost predicate NoRivalThroughout<K(!new), V>(cfg: Config<V>, s: State<K, V>, id: nat, es: seq<Event<K, V>>)
    requires ValidConfig(cfg) && Inv(cfg, s)
    decreases |es|
  {
    && id in s.loads && NoRival(s, id)
    && (es != [] ==> (StepKeepsInv(cfg, s, es[0]); NoRivalThroughout(cfg, Step(cfg, s, es[0]), id, es[1..])))
  }

  lemma StaysInFlightTail<K, V>(es: seq<Event<K, V>>, id: nat)
    requires StaysInFlight(es, id) && es != []
    ensures !Completes(es[0], id) && StaysInFlight(es[1..], id)
  {
    assert es[0] in es;
    forall e | e in es[1..] ensures !Completes(e, id) { assert e in es; }
  }

  lemma {:induction false} DisposedNeverCommits<K(!new), V>(cfg: Config<V>, s: State<K, V>, id: nat,
                                                            es: seq<Event<K, V>>)
    requires ValidConfig(cfg) && Inv(cfg, s) && s.disposed && id in s.loads && StaysInFlight(es, id)
    ensures var r := Run(cfg, s, es); r.disposed && id in r.loads && !Commits(r, id)
    decreases |es|
  {
    if es != [] {
      DisposedStays(cfg, s, es[0]);
      StepKeepsInv(cfg, s, es[0]);
      StaysInFlightTail(es, id);
      DisposedNeverCommits(cfg, Step(cfg, s, es[0]), id, es[1..]);
    }
  }

  lemma RunUnrolls<K(!new), V>(cfg: Config<V>, s: State<K, V>, es: seq<Event<K, V>>, s1: State<K, V>)
    requires ValidConfig(cfg) && Inv(cfg, s) && es != [] && s1 == Step(cfg, s, es[0])
    ensures Inv(cfg, s1) && Run(cfg, s, es) == Run(cfg, s1, es[1..])
  {
    StepKeepsInv(cfg, s, es[0]);
  }

  lemma TouchedUnrolls<K(!new), V>(cfg: Config<V>, s: State<K, V>, k: K, es: seq<Event<K, V>>, s1: State<K, V>,
                                   touches: bool)
    requires ValidConfig(cfg) && Inv(cfg, s) && es != [] && s1 == Step(cfg, s, es[0])
    requires touches == Touches(cfg, s, k, es[0])
    ensures Inv(cfg, s1) && (TouchedDuring(cfg, s, k, es) <==> touches || TouchedDuring(cfg, s1, k, es[1..]))
  {
    StepKeepsInv(cfg, s, es[0]);
  }

  lemma {:induction false} VerdictOverRun<K(!new), V>(cfg: Config<V>, s: State<K, V>, id: nat, sofar: bool,
                                                      es: seq<Event<K, V>>,
                                                      r: State<K, V>, touched: bool)
    requires ValidConfig(cfg) && Inv(cfg, s) && !s.disposed && Tracked(s, id, sofar)
    requires StaysInFlight(es, id) && NoRivalThroughout(cfg, s, id, es)
    requires r == Run(cfg, s, es) && touched == (sofar || TouchedDuring(cfg, s, s.loads[id].key, es))
    ensures id in r.loads && (Commits(r, id) <==> !r.disposed && !touched)
    decreases |es|
  {
    if es != [] {
      var s1 := Step(cfg, s, es[0]);
      StaysInFlightTail(es, id);
      RunUnrolls(cfg, s, es, s1);
      if es[0].op.DoDispose? {
        DisposeIsFinal(cfg, s, es[0]);
        DisposedNeverCommits(cfg, s1, id, es[1..]);
      } else {
        var touches := Touches(cfg, s, s.loads[id].key, es[0]);
        TouchedUnrolls(cfg, s, s.loads[id].key, es, s1, touches);
        TrackedStep(cfg, s, es[0], s1, id, sofar);
        VerdictOverRun(cfg, s1, id, sofar || touches, es[1..], r, touched);
      }
    }
  }

  /** At the end of any run during which no rival load overlaps it, a load's value may be stored exactly when its key
      was not touched meanwhile and the cache is not disposed. */
  lemma CommitsExactlyIfUntouched<K(!new), V>(cfg: Config<V>, s: State<K, V>, id: nat, es: seq<Event<K, V>>)
    requires ValidConfig(cfg) && Inv(cfg, s) && !s.disposed && Tracked(s, id, false)
    requires StaysInFlight(es, id) && NoRivalThroughout(cfg, s, id, es)
    ensures var r := Run(cfg, s, es);
      && id in r.loads
      && (Commits(r, id) <==> !r.disposed && !TouchedDuring(cfg, s, s.loads[id].key, es))
  {
    VerdictOverRun(cfg, s, id, false, es, Run(cfg, s, es), TouchedDuring(cfg, s, s.loads[id].key, es));
  }

  lemma DisposeIsFinal<K(!new), V>(cfg: Config<V>, s: State<K, V>, e: Event<K, V>)
    requires WellFormed(s.entries) && e.op.DoDispose?
    ensures Step(cfg, s, e).disposed && Step(cfg, s, e).loads == s.loads
  {
    assert Step(cfg, s, e) == Dispose(cfg, s, e.now);
  }

  // ---- runs without clear() -----------------------------------------------------------------

  ghost predicate NoClear<K, V>(es: seq<Event<K, V>>) { forall e :: e in es ==> !e.op.DoClear? }

  /** Load `id` is the one registered for its key, unless the cache is disposed. */
  ghost predicate Registered<K, V>(s: State<K, V>, id: nat) {
    id in s.loads && (s.disposed || (s.loads[id].key in s.pending && s.pending[s.loads[id].key] == id))
  }

  /** No step but clear() unregisters a load that goes on, and no rival starts beside a registered load. */
  ghost predicate StaysAlone<K(!new), V>(s: State<K, V>, r: State<K, V>, id: nat)
    requires id in s.loads
  {
    && Registered(r, id) && r.loads[id] == s.loads[id]
    && forall j :: j in r.loads && r.loads[j].key == s.loads[id].key ==> j in s.loads && s.loads[j] == r.loads[j]
  }

  lemma StartStaysAlone<K(!new), V>(s: State<K, V>, k: K, loader: Loader<V>, opts: EntryOptions, r: State<K, V>,
                                    id: nat)
    requires Registered(s, id) && !s.disposed && s.nextLoad !in s.loads && k !in s.pending
    requires r == StartLoad(s, k, loader, opts)
    ensures StaysAlone(s, r, id)
  {
  }

  lemma LoadStaysAlone<K(!new), V>(cfg: Config<V>, s: State<K, V>, k: K, loader: Loader<V>, opts: EntryOptions,
                                   now: real, r: State<K, V>, id: nat)
    requires Inv(cfg, s) && !s.disposed && Registered(s, id) && r == GetOrLoad(cfg, s, k, loader, opts, now).0
    ensures StaysAlone(s, r, id)
  {
    if Live(cfg, s, k, now) {
      var s1 := s.(staleHits := s.staleHits + 1);
      if StaleWithin(cfg, s.entries.table[k], now) && k !in s.pending { StartStaysAlone(s1, k, loader, opts, r, id); }
    } else {
      var s1 := if k in s.entries.table then Remove(s, {k}) else s;
      if k !in s.pending { StartStaysAlone(s1.(misses := s1.misses + 1), k, loader, opts, r, id); }
    }
  }

  lemma CompleteStaysAlone<K(!new), V>(cfg: Config<V>, s: State<K, V>, j: nat, outcome: Option<V>, now: real,
                                       r: State<K, V>, id: nat)
    requires ValidConfig(cfg) && Inv(cfg, s) && Registered(s, id) && j in s.loads && j != id
    requires r == Complete(cfg, s, j, outcome, now)
    ensures StaysAlone(s, r, id)
  {
    var l, s1 := s.loads[j], Release(s, j);
    if Stores(s, j, outcome) {
      StoreFacts(cfg, s1, l.key, if l.direct.Some? then l.direct.value else outcome.value, l.opts, now);
    }
    assert (r.pending, r.loads, r.disposed) == (s1.pending, s1.loads, s1.disposed);
  }

  lemma WriteStaysAlone<K(!new), V>(cfg: Config<V>, s: State<K, V>, e: Event<K, V>, r: State<K, V>, id: nat)
    requires ValidConfig(cfg) && Inv(cfg, s) && Registered(s, id) && r == Step(cfg, s, e)
    requires e.op.DoSet? || (e.op.DoComplete? && e.op.id != id)
    ensures StaysAlone(s, r, id)
  {
    if e.op.DoSet? {
      if !s.disposed { StoreFacts(cfg, s, e.op.k, e.op.v, e.op.opts, e.now); }
    } else if e.op.id in s.loads {
      CompleteStaysAlone(cfg, s, e.op.id, e.op.outcome, e.now, r, id);
    }
  }

  lemma StepStaysAlone<K(!new), V>(cfg: Config<V>, s: State<K, V>, e: Event<K, V>, r: State<K, V>, id: nat)
    requires ValidConfig(cfg) && Inv(cfg, s) && Registered(s, id) && r == Step(cfg, s, e)
    requires !e.op.DoClear? && !Completes(e, id)
    ensures StaysAlone(s, r, id)
  {
    if e.op.DoSet? || e.op.DoComplete? {
      WriteStaysAlone(cfg, s, e, r, id);
    } else if e.op.DoGetOrLoad? {
      if !s.disposed { LoadStaysAlone(cfg, s, e.op.k, e.op.loader, e.op.opts, e.now, r, id); }
    } else if e.op.DoDispose? {
      DisposeIsFinal(cfg, s, e);
    } else {
      assert r.loads == s.loads && r.pending == s.pending && r.disposed == s.disposed;
    }
  }

  lemma {:induction false} NoRivalWithoutClear<K(!new), V>(cfg: Config<V>, s: State<K, V>, id: nat,
                                                           es: seq<Event<K, V>>)
    requires ValidConfig(cfg) && Inv(cfg, s) && Registered(s, id) && NoRival(s, id)
    requires NoClear(es) && StaysInFlight(es, id)
    ensures NoRivalThroughout(cfg, s, id, es)
    decreases |es|
  {
    if es != [] {
      var s1 := Step(cfg, s, es[0]);
      StepKeepsInv(cfg, s, es[0]);
      StaysInFlightTail(es, id);
      assert !es[0].op.DoClear? && NoClear(es[1..]) by {
        assert es[0] in es;
        forall e | e in es[1..] ensures !e.op.DoClear? { assert e in es; }
      }
      StepStaysAlone(cfg, s, es[0], s1, id);
      NoRivalWithoutClear(cfg, s1, id, es[1..]);
    }
  }

  /** After every continuation without clear(), the commit test of load `id` tells exactly whether its key was
      touched. */
  ghost predicate GuardIsExact<K(!new), V(!new)>(cfg: Config<V>, s: State<K, V>, id: nat)
    requires ValidConfig(cfg) && Inv(cfg, s) && id in s.loads
  {
    forall es: seq<Event<K, V>> :: NoClear(es) && StaysInFlight(es, id) ==>
      var r := Run(cfg, s, es);
      id in r.loads && (Commits(r, id) <==> !r.disposed && !TouchedDuring(cfg, s, s.loads[id].key, es))
  }

  /** The change counter protects a freshly started load in every continuation without clear() exactly when no other
      deferred load of its key is in flight. Such a rival can only be left over from a clear() during a load. */
  lemma GuardExactIffNoRival<K(!new), V(!new)>(cfg: Config<V>, s: State<K, V>, id: nat)
    requires ValidConfig(cfg) && Inv(cfg, s) && !s.disposed && id in s.loads
    requires Registered(s, id) && Count(s.bumps, s.loads[id].key) == s.loads[id].s0
    ensures GuardIsExact(cfg, s, id) <==> NoRival(s, id)
  {
    if NoRival(s, id) {
      forall es: seq<Event<K, V>> | NoClear(es) && StaysInFlight(es, id)
        ensures var r := Run(cfg, s, es);
          id in r.loads && (Commits(r, id) <==> !r.disposed && !TouchedDuring(cfg, s, s.loads[id].key, es))
      {
        NoRivalWithoutClear(cfg, s, id, es);
        CommitsExactlyIfUntouched(cfg, s, id, es);
      }
    } else {
      var j :| j in s.loads && j != id && s.loads[j].key == s.loads[id].key && s.loads[j].direct.None?;
      RivalBreaksGuard(cfg, s, id, j);
    }
  }

  /** The end of a rival resets the counter both loads share: a fresh load at count 0 then ignores a deletion, and any
      other is dropped although nobody touched its key. */
  lemma RivalBreaksGuard<K(!new), V(!new)>(cfg: Config<V>, s: State<K, V>, id: nat, j: nat)
    requires ValidConfig(cfg) && Inv(cfg, s) && !s.disposed && id in s.loads
    requires Registered(s, id) && Count(s.bumps, s.loads[id].key) == s.loads[id].s0
    requires j in s.loads && j != id && s.loads[j].key == s.loads[id].key && s.loads[j].direct.None?
    ensures !GuardIsExact(cfg, s, id)
  {
    var k := s.loads[id].key;
    var end: Event<K, V> := Event(DoComplete(j, None), 0.0);
    if s.loads[id].s0 > 0 {
      var es := [end];
      var s1 := Step(cfg, s, end);
      RunUnrolls(cfg, s, es, s1);
      TouchedUnrolls(cfg, s, k, es, s1, Touches(cfg, s, k, end));
      assert s1 == Release(s, j);
      assert !Touches(cfg, s, k, end) && !Commits(s1, id);
      assert NoClear(es) && StaysInFlight(es, id);
    } else {
      var del: Event<K, V> := Event(DoDelete(k), 0.0);
      var es := [del, end];
      var s1 := Step(cfg, s, del);
      RunUnrolls(cfg, s, es, s1);
      TouchedUnrolls(cfg, s, k, es, s1, Touches(cfg, s, k, del));
      assert es[1..] == [end];
      var s2 := Step(cfg, s1, end);
      RunUnrolls(cfg, s1, [end], s2);
      DeleteEffect(s, k, s1, id, k);
      assert s1.loads == s.loads;
      assert s2 == Release(s1, j);
      assert Touches(cfg, s, k, del) && Commits(s2, id);
      assert NoClear(es) && StaysInFlight(es, id);
    }
  }
}
