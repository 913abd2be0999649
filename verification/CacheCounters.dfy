/** Which change counters of the shared cache outlive the loads they were kept for. */
module CacheCounters {
  import opened Prelude
  import opened OrderedMaps
  import opened CacheSpec
  import opened CacheFacts
  import opened CacheRuns
  import opened CacheGuard
  import opened CacheLoads

  // ---- one event ---------------------------------------------------------------------------

  /** A deferred load of `k` ends; this deletes the counter of `k`. */
  ghost predicate EndsDeferred<K(!new), V>(s: State<K, V>, k: K, e: Event<K, V>) {
    e.op.DoComplete? && e.op.id in s.loads && s.loads[e.op.id].key == k && s.loads[e.op.id].direct.None?
  }

  /** A load of `k` is registered while the event does its work; one that ends is released first. */
  ghost predicate Loading<K(!new), V>(s: State<K, V>, k: K, e: Event<K, V>) {
    k in s.pending && !(e.op.DoComplete? && e.op.id in s.loads && s.pending[k] == e.op.id)
  }

  /** The event changes key `k` while a load of it is registered. */
  ghost predicate TouchesLoading<K(!new), V>(cfg: Config<V>, s: State<K, V>, k: K, e: Event<K, V>)
    requires WellFormed(s.entries)
  {
    Loading(s, k, e) && Touches(cfg, s, k, e)
  }

  /** What one event that leads to `r` does to the counter of a key. */
  ghost predicate CounterMoves<K(!new), V>(cfg: Config<V>, s: State<K, V>, e: Event<K, V>, r: State<K, V>, k: K) {
    && r.disposed == s.disposed
    && (k in r.bumps <==>
          || (k in s.bumps && !EndsDeferred(s, k, e))
          || (Loading(s, k, e) && (Addresses(cfg, s, k, e) || Leaves(s, r, k))))
  }

  lemma CountTells<K(!new), V>(s: State<K, V>, k: K)
    ensures Count(s.bumps, k) > 0 <==> k in s.bumps
  {
  }

  lemma ReleaseMarks<K(!new), V>(cfg: Config<V>, s: State<K, V>, e: Event<K, V>, r: State<K, V>, k: K)
    requires Inv(cfg, s) && e.op.DoComplete? && e.op.id in s.loads && r == Release(s, e.op.id)
    ensures r.entries == s.entries && r.disposed == s.disposed
    ensures k in r.bumps <==> k in s.bumps && !EndsDeferred(s, k, e)
    ensures k in r.pending <==> Loading(s, k, e)
  {
  }

  lemma CompleteMarks<K(!new), V>(cfg: Config<V>, s: State<K, V>, e: Event<K, V>, r: State<K, V>, k: K)
    requires Inv(cfg, s) && e.op.DoComplete? && e.op.id in s.loads
    requires r == Complete(cfg, s, e.op.id, e.op.outcome, e.now)
    ensures CounterMoves(cfg, s, e, r, k)
  {
    var id, outcome := e.op.id, e.op.outcome;
    var l, s1 := s.loads[id], Release(s, id);
    ReleaseMarks(cfg, s, e, s1, k);
    assert Addresses(cfg, s, k, e) <==> Stores(s, id, outcome) && l.key == k;
    if Stores(s, id, outcome) {
      StoreEffect(cfg, s1, l.key, if l.direct.Some? then l.direct.value else outcome.value, l.opts, e.now, r, id, k);
      CountTells(s1, k);
      CountTells(r, k);
    }
  }

  lemma PlainMarks<K(!new), V>(cfg: Config<V>, s: State<K, V>, e: Event<K, V>, r: State<K, V>, k: K)
    requires Inv(cfg, s) && !s.disposed && r == Step(cfg, s, e) && !e.op.DoComplete? && !e.op.DoDispose?
    ensures CounterMoves(cfg, s, e, r, k)
  {
    PlainStepEffect(cfg, s, e, r, s.nextLoad, k);
    assert Loading(s, k, e) <==> k in s.pending;
    CountTells(s, k);
    CountTells(r, k);
  }

  ghost predicate DisposedIsEmpty<K(!new), V>(s: State<K, V>) { s.disposed ==> s.bumps == map[] }

  lemma DisposeEmpties<K(!new), V>(cfg: Config<V>, s: State<K, V>, now: real, r: State<K, V>)
    requires DisposedIsEmpty(s) && r == Dispose(cfg, s, now)
    ensures r.disposed && r.bumps == map[]
  {
  }

  lemma DisposedKeepsNone<K(!new), V>(cfg: Config<V>, s: State<K, V>, e: Event<K, V>, r: State<K, V>)
    requires Inv(cfg, s) && DisposedIsEmpty(s) && r == Step(cfg, s, e)
    requires s.disposed || e.op.DoDispose?
    ensures r.disposed && r.bumps == map[]
  {
    if e.op.DoDispose? {
      DisposeEmpties(cfg, s, e.now, r);
    } else if e.op.DoComplete? && e.op.id in s.loads {
      assert r == Release(s, e.op.id);
    }
  }

  lemma CounterStep<K(!new), V>(cfg: Config<V>, s: State<K, V>, e: Event<K, V>, r: State<K, V>, k: K)
    requires ValidConfig(cfg) && Inv(cfg, s) && DisposedIsEmpty(s) && r == Step(cfg, s, e)
    ensures DisposedIsEmpty(r)
    ensures !r.disposed ==> CounterMoves(cfg, s, e, r, k)
  {
    if s.disposed || e.op.DoDispose? {
      DisposedKeepsNone(cfg, s, e, r);
    } else {
      if e.op.DoComplete? {
        if e.op.id in s.loads { CompleteStep(cfg, s, e); CompleteMarks(cfg, s, e, r, k); }
      } else {
        PlainMarks(cfg, s, e, r, k);
      }
    }
  }

  // ---- whole runs -----------------------------------------------------------------------------

  ghost predicate NoDeferred<K(!new), V>(s: State<K, V>, k: K) {
    forall id :: id in s.loads && s.loads[id].key == k ==> s.loads[id].direct.Some?
  }

  /** From `s` on no deferred load of `k` is in flight at any moment. */
  ghost predicate NeverDeferred<K(!new), V>(cfg: Config<V>, s: State<K, V>, k: K, es: seq<Event<K, V>>)
    requires ValidConfig(cfg) && Inv(cfg, s)
    decreases |es|
  {
    && NoDeferred(s, k)
    && (es != [] ==> (StepKeepsInv(cfg, s, es[0]); NeverDeferred(cfg, Step(cfg, s, es[0]), k, es[1..])))
  }

  /** At some moment `k` was changed while a load of it was registered, and from then on no deferred load of it was in
      flight. The registered load was then one that had returned its value at once. */
  ghost predicate LeftBehind<K(!new), V>(cfg: Config<V>, s: State<K, V>, k: K, es: seq<Event<K, V>>)
    requires ValidConfig(cfg) && Inv(cfg, s)
    decreases |es|
  {
    && es != []
    && (StepKeepsInv(cfg, s, es[0]);
        var s1 := Step(cfg, s, es[0]);
        || (TouchesLoading(cfg, s, k, es[0]) && NeverDeferred(cfg, s1, k, es[1..]))
        || LeftBehind(cfg, s1, k, es[1..]))
  }

  lemma NeverDeferredUnrolls<K(!new), V>(cfg: Config<V>, s: State<K, V>, k: K, es: seq<Event<K, V>>, s1: State<K, V>)
    requires ValidConfig(cfg) && Inv(cfg, s) && es != [] && s1 == Step(cfg, s, es[0])
    ensures Inv(cfg, s1)
    ensures NeverDeferred(cfg, s, k, es) <==> NoDeferred(s, k) && NeverDeferred(cfg, s1, k, es[1..])
    ensures LeftBehind(cfg, s, k, es) <==>
      (TouchesLoading(cfg, s, k, es[0]) && NeverDeferred(cfg, s1, k, es[1..])) || LeftBehind(cfg, s1, k, es[1..])
  {
    StepKeepsInv(cfg, s, es[0]);
  }

  /** A deferred load of `k` goes away only by ending. */
  lemma DeferredEnds<K(!new), V>(cfg: Config<V>, s: State<K, V>, e: Event<K, V>, r: State<K, V>, k: K)
    requires ValidConfig(cfg) && Inv(cfg, s) && r == Step(cfg, s, e) && NoDeferred(r, k)
    ensures NoDeferred(s, k) || EndsDeferred(s, k, e)
    ensures NoDeferred(s, k) ==> !EndsDeferred(s, k, e)
  {
    if !NoDeferred(s, k) {
      var id :| id in s.loads && s.loads[id].key == k && s.loads[id].direct.None?;
      if !Completes(e, id) {
        StepLoads(cfg, s, e, r);
      }
    }
  }

  lemma {:induction false} CounterOverRun<K(!new), V>(cfg: Config<V>, s: State<K, V>, k: K, es: seq<Event<K, V>>,
                                                      r: State<K, V>)
    requires ValidConfig(cfg) && Inv(cfg, s) && DisposedIsEmpty(s) && r == Run(cfg, s, es) && NoDeferred(r, k)
    ensures DisposedIsEmpty(r)
    ensures !r.disposed ==>
      (k in r.bumps <==> (k in s.bumps && NeverDeferred(cfg, s, k, es)) || LeftBehind(cfg, s, k, es))
    decreases |es|
  {
    if es != [] {
      var s1 := Step(cfg, s, es[0]);
      RunUnrolls(cfg, s, es, s1);
      NeverDeferredUnrolls(cfg, s, k, es, s1);
      CounterStep(cfg, s, es[0], s1, k);
      CounterOverRun(cfg, s1, k, es[1..], r);
      if s1.disposed {
        DisposedRun(cfg, s1, es[1..]);
      } else if NeverDeferred(cfg, s1, k, es[1..]) {
        DeferredEnds(cfg, s, es[0], s1, k);
      }
    }
  }

  lemma {:induction false} DisposedRun<K(!new), V>(cfg: Config<V>, s: State<K, V>, es: seq<Event<K, V>>)
    requires ValidConfig(cfg) && Inv(cfg, s) && s.disposed
    ensures Run(cfg, s, es).disposed
    decreases |es|
  {
    if es != [] {
      RunUnrolls(cfg, s, es, Step(cfg, s, es[0]));
      DisposedStays(cfg, s, es[0]);
      DisposedRun(cfg, Step(cfg, s, es[0]), es[1..]);
    }
  }

  /** Over any run of a new cache: a key none of whose deferred loads is in flight has a counter exactly if it was left
      behind and the cache is not disposed. */
  lemma CounterOutlivesLoadsIff<K(!new), V>(cfg: Config<V>, k: K, es: seq<Event<K, V>>)
    requires ValidConfig(cfg) && NoDeferred(Run(cfg, Init(), es), k)
    ensures var r := Run(cfg, Init(), es);
      k in r.bumps <==> !r.disposed && LeftBehind(cfg, Init<K, V>(), k, es)
  {
    CounterOverRun(cfg, Init(), k, es, Run(cfg, Init(), es));
  }

  // ---- loaders that never return at once --------------------------------------------------------

  predicate Deferring<K, V>(e: Event<K, V>) { e.op.DoGetOrLoad? ==> !e.op.loader.Returns? }

  ghost predicate AllDeferred<K, V>(s: State<K, V>) { forall id :: id in s.loads ==> s.loads[id].direct.None? }

  lemma DeferringStep<K(!new), V>(cfg: Config<V>, s: State<K, V>, e: Event<K, V>, r: State<K, V>)
    requires ValidConfig(cfg) && Inv(cfg, s) && AllDeferred(s) && Deferring(e) && r == Step(cfg, s, e)
    ensures AllDeferred(r)
  {
    StepLoads(cfg, s, e, r);
    if e.op.DoGetOrLoad? && !s.disposed { LoadOpens(cfg, s, e.op.k, e.op.loader, e.op.opts, e.now, r); }
  }

  lemma {:induction false} DeferringLeavesNothing<K(!new), V>(cfg: Config<V>, s: State<K, V>, k: K,
                                                              es: seq<Event<K, V>>)
    requires ValidConfig(cfg) && Inv(cfg, s) && AllDeferred(s) && (forall e :: e in es ==> Deferring(e))
    ensures !LeftBehind(cfg, s, k, es)
    decreases |es|
  {
    if es != [] {
      var s1 := Step(cfg, s, es[0]);
      NeverDeferredUnrolls(cfg, s, k, es, s1);
      DeferringStep(cfg, s, es[0], s1);
      DeferringLeavesNothing(cfg, s1, k, es[1..]);
      if TouchesLoading(cfg, s, k, es[0]) {
        StepLoads(cfg, s, es[0], s1);
        assert !NoDeferred(s1, k);
      }
    }
  }

  /** The comment in the code holds when every loader returns a promise: counters do not outlive the loads in flight. */
  lemma DeferringLoadersKeepNoCounters<K(!new), V>(cfg: Config<V>, k: K, es: seq<Event<K, V>>)
    requires ValidConfig(cfg) && (forall e :: e in es ==> Deferring(e)) && NoDeferred(Run(cfg, Init(), es), k)
    ensures k !in Run(cfg, Init(), es).bumps
  {
    CounterOutlivesLoadsIff(cfg, k, es);
    DeferringLeavesNothing(cfg, Init(), k, es);
  }

  /** It fails for a loader that returns its value at once when the key is deleted before the value is stored. */
  lemma CounterLeftBehind<K(!new), V>(cfg: Config<V>, k: K, v: V, now: real)
    requires ValidConfig(cfg)
    ensures
      var r := Run(cfg, Init(), [Event(DoGetOrLoad(k, Returns(v), NO_OPTIONS), now), Event(DoDelete(k), now),
        Event(DoComplete(0, None), now)]);
      r.loads == map[] && r.pending == map[] && r.bumps == map[k := 1]
  {
    var load: Event<K, V> := Event(DoGetOrLoad(k, Returns(v), NO_OPTIONS), now);
    var del: Event<K, V> := Event(DoDelete(k), now);
    var end: Event<K, V> := Event(DoComplete(0, None), now);
    var s0: State<K, V> := Init();
    var s1 := Step(cfg, s0, load);
    StepKeepsInv(cfg, s0, load);
    assert s1 == GetOrLoad(cfg, s0, k, Returns(v), NO_OPTIONS, now).0;
    assert s1.loads == map[0 := Load(k, NO_OPTIONS, 0, Some(v))] && s1.pending == map[k := 0] && s1.bumps == map[];
    var s2 := Step(cfg, s1, del);
    StepKeepsInv(cfg, s1, del);
    assert s2 == Bump(s1, {k});
    assert s2.bumps == map[k := 1];
    var s3 := Step(cfg, s2, end);
    StepKeepsInv(cfg, s2, end);
    CompleteStep(cfg, s2, end);
    assert s3 == Release(s2, 0);
    RunThree(cfg, s0, load, del, end, [], s1, s2, s3);
    assert [load, del, end] + [] == [load, del, end];
  }
}
