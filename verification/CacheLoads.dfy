/** Loads of the shared cache from call to commit: single flight, what is finally stored, and what clear() undoes. */
module CacheLoads {
  import opened Prelude
  import opened OrderedMaps
  import opened CacheSpec
  import opened CacheFacts
  import opened CacheRuns
  import opened CacheGuard

  // ---- at most one load per key ----------------------------------------------------------

  ghost predicate OneLoadPerKey<K(!new), V>(s: State<K, V>) {
    forall i, j :: i in s.loads && j in s.loads && s.loads[i].key == s.loads[j].key ==> i == j
  }

  /** Every load in flight is the one registered for its key. */
  ghost predicate AllRegistered<K(!new), V>(s: State<K, V>) {
    OneLoadPerKey(s) && forall id :: id in s.loads ==> Registered(s, id)
  }

  /** clear() is only called while no load is in flight; a caller can read this off `stats().pending`. */
  ghost predicate QuietClear<K, V>(s: State<K, V>, e: Event<K, V>) { e.op.DoClear? ==> s.pending == map[] }

  lemma RegisteredStep<K(!new), V>(cfg: Config<V>, s: State<K, V>, e: Event<K, V>, r: State<K, V>)
    requires ValidConfig(cfg) && Inv(cfg, s) && AllRegistered(s) && QuietClear(s, e) && r == Step(cfg, s, e)
    ensures AllRegistered(r)
  {
    if e.op.DoClear? {
      assert forall id :: id in s.loads ==> Registered(s, id);
    } else {
      forall id | id in s.loads && !Completes(e, id) ensures StaysAlone(s, r, id) {
        StepStaysAlone(cfg, s, e, r, id);
      }
      StepLoads(cfg, s, e, r);
    }
  }

  lemma OthersKeepLoads<K(!new), V>(cfg: Config<V>, s: State<K, V>, e: Event<K, V>, r: State<K, V>)
    requires Inv(cfg, s) && r == Step(cfg, s, e)
    requires !e.op.DoSet? && !e.op.DoComplete? && !e.op.DoGetOrLoad? && !e.op.DoDispose?
    ensures r.loads == s.loads
  {
  }

  /** Loads only ever appear through `getOrLoad`, registered for their key, and only disappear by completing. */
  lemma StepLoads<K(!new), V>(cfg: Config<V>, s: State<K, V>, e: Event<K, V>, r: State<K, V>)
    requires ValidConfig(cfg) && Inv(cfg, s) && r == Step(cfg, s, e)
    ensures forall id :: id in s.loads && !Completes(e, id) ==> id in r.loads
    ensures forall id :: id in r.loads && id in s.loads ==> r.loads[id] == s.loads[id] && !Completes(e, id)
    ensures forall id :: id in r.loads && id !in s.loads ==>
              id == s.nextLoad && Registered(r, id) && e.op.DoGetOrLoad? && !s.disposed
  {
    if e.op.DoSet? {
      if !s.disposed { StoreFacts(cfg, s, e.op.k, e.op.v, e.op.opts, e.now); }
    } else if e.op.DoComplete? {
      if e.op.id in s.loads { CompleteLoads(cfg, s, e.op.id, e.op.outcome, e.now, r); }
    } else if e.op.DoGetOrLoad? {
      if !s.disposed { LoadLoads(cfg, s, e.op.k, e.op.loader, e.op.opts, e.now, r); }
    } else if e.op.DoDispose? {
      DisposeIsFinal(cfg, s, e);
    } else {
      OthersKeepLoads(cfg, s, e, r);
    }
  }

  lemma CompleteLoads<K(!new), V>(cfg: Config<V>, s: State<K, V>, id: nat, outcome: Option<V>, now: real,
                                  r: State<K, V>)
    requires ValidConfig(cfg) && Inv(cfg, s) && id in s.loads && r == Complete(cfg, s, id, outcome, now)
    ensures r.loads == s.loads - {id}
  {
    if Stores(s, id, outcome) {
      var l := s.loads[id];
      StoreFacts(cfg, Release(s, id), l.key, if l.direct.Some? then l.direct.value else outcome.value, l.opts, now);
    }
  }

  /** What starting a load does to the loads, whatever led to it. */
  ghost predicate Opens<K(!new), V>(s: State<K, V>, k: K, loader: Loader<V>, opts: EntryOptions, r: State<K, V>) {
    && !r.disposed
    && (forall id :: id in s.loads ==> id in r.loads && r.loads[id] == s.loads[id])
    && (forall id :: id in r.loads && id !in s.loads ==> id == s.nextLoad && Registered(r, id))
    && (s.nextLoad in r.loads ==>
          && Registered(r, s.nextLoad) && r.loads[s.nextLoad].key == k && r.loads[s.nextLoad].opts == opts
          && Count(r.bumps, k) == r.loads[s.nextLoad].s0
          && r.loads[s.nextLoad].direct == if loader.Returns? then Some(loader.value) else None)
  }

  lemma StartOpens<K(!new), V>(s: State<K, V>, k: K, loader: Loader<V>, opts: EntryOptions, r: State<K, V>)
    requires !s.disposed && (forall id :: id in s.loads ==> id < s.nextLoad)
    requires r == (if k in s.pending then s else StartLoad(s, k, loader, opts))
    ensures Opens(s, k, loader, opts, r)
  {
  }

  lemma MissOpens<K(!new), V>(s: State<K, V>, k: K, loader: Loader<V>, opts: EntryOptions, r: State<K, V>)
    requires !s.disposed && (forall id :: id in s.loads ==> id < s.nextLoad)
    requires r == Miss(s, k, loader, opts).0
    ensures Opens(s, k, loader, opts, r)
  {
    StartOpens(if k in s.pending then s else s.(misses := s.misses + 1), k, loader, opts, r);
  }

  lemma RemovedOpens<K(!new), V>(s: State<K, V>, ks: set<K>, k: K, loader: Loader<V>, opts: EntryOptions,
                                 r: State<K, V>)
    requires Opens(Remove(s, ks), k, loader, opts, r)
    ensures Opens(s, k, loader, opts, r)
  {
    var s1 := Remove(s, ks);
    assert s1.loads == s.loads && s1.nextLoad == s.nextLoad;
  }

  lemma LoadOpens<K(!new), V>(cfg: Config<V>, s: State<K, V>, k: K, loader: Loader<V>, opts: EntryOptions, now: real,
                              r: State<K, V>)
    requires Inv(cfg, s) && !s.disposed && r == GetOrLoad(cfg, s, k, loader, opts, now).0
    ensures Opens(s, k, loader, opts, r)
  {
    if !Live(cfg, s, k, now) {
      if k in s.entries.table {
        MissOpens(Remove(s, {k}), k, loader, opts, r);
        RemovedOpens(s, {k}, k, loader, opts, r);
      } else {
        MissOpens(s, k, loader, opts, r);
      }
    } else if StaleWithin(cfg, s.entries.table[k], now) {
      StartOpens(s.(staleHits := s.staleHits + 1), k, loader, opts, r);
    }
  }

  lemma LoadLoads<K(!new), V>(cfg: Config<V>, s: State<K, V>, k: K, loader: Loader<V>, opts: EntryOptions, now: real,
                              r: State<K, V>)
    requires Inv(cfg, s) && !s.disposed && r == GetOrLoad(cfg, s, k, loader, opts, now).0
    ensures forall id :: id in s.loads ==> id in r.loads && r.loads[id] == s.loads[id]
    ensures forall id :: id in r.loads && id !in s.loads ==> id == s.nextLoad && Registered(r, id)
  {
    LoadOpens(cfg, s, k, loader, opts, now, r);
  }

  ghost predicate QuietClears<K(!new), V>(cfg: Config<V>, s: State<K, V>, es: seq<Event<K, V>>)
    requires ValidConfig(cfg) && Inv(cfg, s)
    decreases |es|
  {
    es != [] ==> QuietClear(s, es[0]) && (StepKeepsInv(cfg, s, es[0]); QuietClears(cfg, Step(cfg, s, es[0]), es[1..]))
  }

  /** Single flight: as long as clear() is not called during a load, no key ever has two loads in flight. */
  lemma {:induction false} SingleFlight<K(!new), V>(cfg: Config<V>, s: State<K, V>, es: seq<Event<K, V>>)
    requires ValidConfig(cfg) && Inv(cfg, s) && AllRegistered(s) && QuietClears(cfg, s, es)
    ensures AllRegistered(Run(cfg, s, es))
    decreases |es|
  {
    if es != [] {
      var s1 := Step(cfg, s, es[0]);
      RunUnrolls(cfg, s, es, s1);
      RegisteredStep(cfg, s, es[0], s1);
      SingleFlight(cfg, s1, es[1..]);
    }
  }

  // ---- from the call to the commit ---------------------------------------------------------

  /** A load that `getOrLoad` starts is registered, and its counter starts level. */
  lemma StartedLoadIsTracked<K(!new), V>(cfg: Config<V>, s: State<K, V>, k: K, loader: Loader<V>, opts: EntryOptions,
                                         now: real, r: State<K, V>)
    requires Inv(cfg, s) && !s.disposed && r == GetOrLoad(cfg, s, k, loader, opts, now).0 && s.nextLoad in r.loads
    ensures Registered(r, s.nextLoad) && r.loads[s.nextLoad].key == k && r.loads[s.nextLoad].opts == opts
    ensures Count(r.bumps, k) == r.loads[s.nextLoad].s0 && !r.disposed
    ensures r.loads[s.nextLoad].direct == if loader.Returns? then Some(loader.value) else None
  {
    LoadOpens(cfg, s, k, loader, opts, now, r);
  }

  /** A load started by `getOrLoad` and ended later with a value is stored exactly when its key was not written,
      removed or invalidated in between and the cache is still alive; otherwise ending it leaves the entries alone. */
  lemma LoadIsStoredExactlyIfUntouched<K(!new), V>(
      cfg: Config<V>, s: State<K, V>, k: K, loader: Loader<V>, opts: EntryOptions, now0: real,
      es: seq<Event<K, V>>, outcome: Option<V>, now: real)
    requires ValidConfig(cfg) && Inv(cfg, s) && AllRegistered(s) && !s.disposed
    requires s.nextLoad in GetOrLoad(cfg, s, k, loader, opts, now0).0.loads
    requires NoClear(es) && StaysInFlight(es, s.nextLoad)
    requires loader.Returns? || outcome.Some?
    ensures Inv(cfg, GetOrLoad(cfg, s, k, loader, opts, now0).0)
    ensures var id, s1 := s.nextLoad, GetOrLoad(cfg, s, k, loader, opts, now0).0;
      var r := Run(cfg, s1, es);
      && id in r.loads
      && Complete(cfg, r, id, outcome, now) ==
           if r.disposed || TouchedDuring(cfg, s1, k, es) then Release(r, id)
           else Store(cfg, Release(r, id), k, if loader.Returns? then loader.value else outcome.value, opts, now)
  {
    var id, s1 := s.nextLoad, GetOrLoad(cfg, s, k, loader, opts, now0).0;
    LoadKeeps(cfg, s, k, loader, opts, now0);
    StartedLoadIsTracked(cfg, s, k, loader, opts, now0, s1);
    var e: Event<K, V> := Event(DoGetOrLoad(k, loader, opts), now0);
    RegisteredStep(cfg, s, e, s1);
    NoRivalWithoutClear(cfg, s1, id, es);
    CommitsExactlyIfUntouched(cfg, s1, id, es);
    LoadRecordStays(cfg, s1, id, es);
  }

  lemma {:induction false} LoadRecordStays<K(!new), V>(cfg: Config<V>, s: State<K, V>, id: nat, es: seq<Event<K, V>>)
    requires ValidConfig(cfg) && Inv(cfg, s) && id in s.loads && id in Run(cfg, s, es).loads
    requires StaysInFlight(es, id)
    ensures Run(cfg, s, es).loads[id] == s.loads[id]
    decreases |es|
  {
    if es != [] {
      var s1 := Step(cfg, s, es[0]);
      RunUnrolls(cfg, s, es, s1);
      StaysInFlightTail(es, id);
      StepLoads(cfg, s, es[0], s1);
      LoadRecordStays(cfg, s1, id, es[1..]);
    }
  }

  // ---- clear() during a load --------------------------------------------------------------------

  /** Key `k` has no entry; these are its loads in flight, the registered ones and its change count. */
  ghost predicate Flight<K(!new), V>(s: State<K, V>, k: K, loads: map<nat, Load<K, V>>, pending: map<K, nat>,
                                     count: nat)
  {
    && !s.disposed && k !in s.entries.table
    && s.loads == loads && s.pending == pending && Count(s.bumps, k) == count
  }

  lemma FlightStarts<K(!new), V>(cfg: Config<V>, s: State<K, V>, k: K, now: real, count: nat, r: State<K, V>)
    requires Inv(cfg, s) && Flight(s, k, s.loads, map[], count)
    requires r == Step(cfg, s, Event(DoGetOrLoad(k, Defers, NO_OPTIONS), now))
    ensures Flight(r, k, s.loads[s.nextLoad := Load(k, NO_OPTIONS, count, None)], map[k := s.nextLoad], count)
    ensures r.nextLoad == s.nextLoad + 1
  {
    assert r == GetOrLoad(cfg, s, k, Defers, NO_OPTIONS, now).0;
  }

  lemma FlightCleared<K(!new), V>(cfg: Config<V>, s: State<K, V>, k: K, id: nat, now: real, count: nat, r: State<K, V>)
    requires Inv(cfg, s) && Flight(s, k, s.loads, map[k := id], count) && r == Step(cfg, s, Event(DoClear, now))
    ensures Flight(r, k, s.loads, map[], count + 1) && r.nextLoad == s.nextLoad
  {
    assert r == Clear(s);
  }

  /** A load that was in flight during clear() can come back: if the same key is loaded again and that second load ends
      first, the counter starts over and the value of the first load, older than the clear, is stored last. */
  lemma OldLoadSurvivesClear<K(!new), V>(cfg: Config<V>, k: K, older: V, newer: V, now: real)
    requires ValidConfig(cfg) && cfg.defaultTtl.None? && cfg.capacity >= 1 && cfg.maxBytes.None?
    ensures
      var load: Event<K, V> := Event(DoGetOrLoad(k, Defers, NO_OPTIONS), now);
      var r := Run(cfg, Init(), [load, Event(DoClear, now), load, Event(DoComplete(1, Some(newer)), now),
        Event(DoComplete(0, Some(older)), now)]);
      k in r.entries.table && r.entries.table[k].value == older
  {
    var load: Event<K, V> := Event(DoGetOrLoad(k, Defers, NO_OPTIONS), now);
    var ends: seq<Event<K, V>> := [Event(DoComplete(1, Some(newer)), now), Event(DoComplete(0, Some(older)), now)];
    var s1, s2, s3 := LoadClearLoad(cfg, k, now);
    RunThree(cfg, Init(), load, Event(DoClear, now), load, ends, s1, s2, s3);
    assert [load, Event(DoClear, now), load] + ends == [load, Event(DoClear, now), load, ends[0], ends[1]];
    BothLoadsEnd(cfg, s3, k, older, newer, now, ends);
  }

  lemma LoadClearLoad<K(!new), V>(cfg: Config<V>, k: K, now: real)
    returns (s1: State<K, V>, s2: State<K, V>, s3: State<K, V>)
    requires ValidConfig(cfg)
    ensures Inv(cfg, s1) && Inv(cfg, s2) && Inv(cfg, s3)
    ensures var load: Event<K, V> := Event(DoGetOrLoad(k, Defers, NO_OPTIONS), now);
      && s1 == Step(cfg, Init(), load) && s2 == Step(cfg, s1, Event(DoClear, now)) && s3 == Step(cfg, s2, load)
    ensures Flight(s3, k, s3.loads, map[k := 1], 1)
    ensures 0 in s3.loads && s3.loads[0] == Load(k, NO_OPTIONS, 0, None)
    ensures 1 in s3.loads && s3.loads[1] == Load(k, NO_OPTIONS, 1, None)
  {
    var load: Event<K, V> := Event(DoGetOrLoad(k, Defers, NO_OPTIONS), now);
    var clear: Event<K, V> := Event(DoClear, now);
    var s0: State<K, V> := Init();
    s1 := Step(cfg, s0, load);
    FlightStarts(cfg, s0, k, now, 0, s1);
    StepKeepsInv(cfg, s0, load);
    s2 := Step(cfg, s1, clear);
    FlightCleared(cfg, s1, k, 0, now, 0, s2);
    StepKeepsInv(cfg, s1, clear);
    s3 := Step(cfg, s2, load);
    FlightStarts(cfg, s2, k, now, 1, s3);
    StepKeepsInv(cfg, s2, load);
  }

  lemma RunThree<K(!new), V>(cfg: Config<V>, s: State<K, V>, a: Event<K, V>, b: Event<K, V>, c: Event<K, V>,
                             rest: seq<Event<K, V>>,
                             s1: State<K, V>, s2: State<K, V>, s3: State<K, V>)
    requires ValidConfig(cfg) && Inv(cfg, s) && Inv(cfg, s1) && Inv(cfg, s2) && Inv(cfg, s3)
    requires s1 == Step(cfg, s, a) && s2 == Step(cfg, s1, b) && s3 == Step(cfg, s2, c)
    ensures Run(cfg, s, [a, b, c] + rest) == Run(cfg, s3, rest)
  {
    assert [a, b, c] + rest == [a] + ([b] + ([c] + rest));
    RunCons(cfg, s, a, [b] + ([c] + rest), s1);
    RunCons(cfg, s1, b, [c] + rest, s2);
    RunCons(cfg, s2, c, rest, s3);
  }

  lemma RunCons<K(!new), V>(cfg: Config<V>, s: State<K, V>, e: Event<K, V>, rest: seq<Event<K, V>>, s1: State<K, V>)
    requires ValidConfig(cfg) && Inv(cfg, s) && Inv(cfg, s1) && s1 == Step(cfg, s, e)
    ensures Run(cfg, s, [e] + rest) == Run(cfg, s1, rest)
  {
    var all := [e] + rest;
    assert all[0] == e && all[1..] == rest;
    RunUnrolls(cfg, s, all, s1);
  }

  lemma CompleteStep<K(!new), V>(cfg: Config<V>, s: State<K, V>, e: Event<K, V>)
    requires WellFormed(s.entries) && e.op.DoComplete? && e.op.id in s.loads
    ensures Step(cfg, s, e) == Complete(cfg, s, e.op.id, e.op.outcome, e.now)
  {
  }

  lemma BothLoadsEnd<K(!new), V>(cfg: Config<V>, s: State<K, V>, k: K, older: V, newer: V, now: real,
                                 ends: seq<Event<K, V>>)
    requires ValidConfig(cfg) && cfg.defaultTtl.None? && cfg.capacity >= 1 && cfg.maxBytes.None? && Inv(cfg, s)
    requires Flight(s, k, s.loads, map[k := 1], 1)
    requires 0 in s.loads && s.loads[0] == Load(k, NO_OPTIONS, 0, None)
    requires 1 in s.loads && s.loads[1] == Load(k, NO_OPTIONS, 1, None)
    requires ends == [Event(DoComplete(1, Some(newer)), now), Event(DoComplete(0, Some(older)), now)]
    ensures var r := Run(cfg, s, ends); k in r.entries.table && r.entries.table[k].value == older
  {
    var first, rest := ends[0], ends[1..];
    assert first == Event(DoComplete(1, Some(newer)), now) && rest == [Event(DoComplete(0, Some(older)), now)];
    var s1 := Step(cfg, s, first);
    RunUnrolls(cfg, s, ends, s1);
    CompleteStep(cfg, s, first);
    assert s1 == Complete(cfg, s, 1, Some(newer), now);
    NewerLoadEnds(cfg, s, k, newer, now, s1);
    LateLoadLands(cfg, s1, k, older, now, rest);
  }

  /** The second load ends, and takes the counter of the key with it. */
  lemma NewerLoadEnds<K(!new), V>(cfg: Config<V>, s: State<K, V>, k: K, newer: V, now: real, r: State<K, V>)
    requires ValidConfig(cfg) && Inv(cfg, s) && Flight(s, k, s.loads, map[k := 1], 1)
    requires 0 in s.loads && 1 in s.loads && s.loads[1] == Load(k, NO_OPTIONS, 1, None)
    requires r == Complete(cfg, s, 1, Some(newer), now)
    ensures !r.disposed && 0 in r.loads && r.loads[0] == s.loads[0] && Count(r.bumps, k) == 0
  {
    assert Count(s.bumps, k) == 1 && k in s.pending && s.pending[k] == 1;
    ReleasedCount(cfg, s, 1, Some(newer), now, r);
  }

  lemma LateLoadLands<K(!new), V>(cfg: Config<V>, s: State<K, V>, k: K, v: V, now: real, es: seq<Event<K, V>>)
    requires ValidConfig(cfg) && cfg.defaultTtl.None? && cfg.capacity >= 1 && cfg.maxBytes.None? && Inv(cfg, s)
    requires !s.disposed && 0 in s.loads && s.loads[0] == Load(k, NO_OPTIONS, 0, None) && Count(s.bumps, k) == 0
    requires es == [Event(DoComplete(0, Some(v)), now)]
    ensures var r := Run(cfg, s, es); k in r.entries.table && r.entries.table[k].value == v
  {
    var r := Step(cfg, s, es[0]);
    RunUnrolls(cfg, s, es, r);
    CompleteStep(cfg, s, es[0]);
    StoreLands(cfg, Release(s, 0), k, v, now);
  }

  lemma ReleasedCount<K(!new), V>(cfg: Config<V>, s: State<K, V>, id: nat, outcome: Option<V>, now: real,
                                  r: State<K, V>)
    requires ValidConfig(cfg) && Inv(cfg, s) && !s.disposed && id in s.loads && s.loads[id].direct.None?
    requires outcome.Some?
    requires Commits(s, id)
    requires s.loads[id].key in s.pending && s.pending[s.loads[id].key] == id
    requires r == Complete(cfg, s, id, outcome, now)
    ensures Count(r.bumps, s.loads[id].key) == 0 && s.loads[id].key !in r.pending && r.loads == s.loads - {id}
    ensures !r.disposed
  {
    var k, v, s1 := s.loads[id].key, outcome.value, Release(s, id);
    StoreFacts(cfg, s1, k, v, s.loads[id].opts, now);
    if ToEntryTtl(s.loads[id].opts.ttl).Ok? {
      var e := Entry(v, now, ToEntryTtl(s.loads[id].opts.ttl).value, Elements(s.loads[id].opts.tags));
      InsertedReplaces(s1, k, e, k);
      TrimShrinks(cfg, Inserted(s1, k, e), now, k);
    }
  }

  /** With no expiry, no byte budget and room for one entry, a write is still there when it is done. */
  lemma StoreLands<K(!new), V>(cfg: Config<V>, s: State<K, V>, k: K, v: V, now: real)
    requires ValidConfig(cfg) && WellFormed(s.entries) && cfg.defaultTtl.None? && cfg.capacity >= 1
    requires cfg.maxBytes.None?
    ensures var m := Store(cfg, s, k, v, NO_OPTIONS, now).entries; k in m.table && m.table[k].value == v
  {
    var e := Entry(v, now, Inherit, Elements(NO_OPTIONS.tags));
    InsertedReplaces(s, k, e, k);
    var s1 := Inserted(s, k, e);
    SweepKeepsLive(cfg, s1, now);
    var s2 := Sweep(cfg, s1, now);
    NewestSurvives(cfg, s1, now, k);
    TrimSizeKeeps(cfg, s2);
    TrimBytesKeeps(cfg, TrimSize(cfg, s2));
    assert Store(cfg, s, k, v, NO_OPTIONS, now) == TrimSize(cfg, s2);
  }

  /** Sweeping keeps a live newest entry newest. */
  lemma NewestSurvives<K(!new), V>(cfg: Config<V>, s: State<K, V>, now: real, k: K)
    requires WellFormed(s.entries) && s.entries.keys != [] && Last(s.entries.keys) == k
    requires Live(cfg, s, k, now)
    ensures var keys := Sweep(cfg, s, now).entries.keys; keys != [] && Last(keys) == k
  {
    var keys, xs := s.entries.keys, ExpiredKeys(cfg, s.entries, now);
    assert keys == Front(keys) + [k];
    MinusConcat(Front(keys), [k], xs);
    assert Minus([k], xs) == [k];
  }
}
