/** The `zen-fetch` protocol: URL evaluations start fetches, each of which goes on asynchronously, in any order with the
    others, until it is read, fails, is aborted or finds itself out of date. */
module FetchRace {
  import opened Prelude

  datatype FetchState<D> = FetchState(loading: bool, error: Option<string>, data: Option<D>)

  function Loading<D>(): FetchState<D> { FetchState(true, None, None) }

  function Failed<D>(message: string): FetchState<D> { FetchState(false, Some(message), None) }

  function Loaded<D>(data: D): FetchState<D> { FetchState(false, None, Some(data)) }

  const MAX_RETRIES := 3

  datatype Phase = Requesting | Waiting | Reading

  /** One suspended fetch: which attempt it is at, its abort controller, and what it awaits. */
  datatype Flight = Flight(attempt: nat, controller: nat, phase: Phase)

  datatype Step<D> =
    | Broken(message: string)
    | Cached(data: D)
    | Started
    | Response(id: nat, status: nat, message: string)
    | Failure(id: nat, message: string)
    | Read(id: nat, data: D)
    | Resume(id: nat)
    | Dropped(id: nat)
    | Cleanup

  datatype State<D> = State(
    currentId: nat,
    current: Option<nat>,
    aborted: set<nat>,
    nextController: nat,
    flights: map<nat, Flight>,
    shown: FetchState<D>,
    issued: seq<nat>,
    cleaned: bool)

  function Fresh<D>(): State<D> { State(0, None, {}, 0, map[], Loading(), [], false) }

  predicate IsOk(status: nat) { 200 <= status <= 299 }

  /** What can happen: the effect runs until it is disposed; an abort error needs an aborted controller. */
  predicate Enabled<D>(s: State<D>, step: Step<D>) {
    match step
    case Broken(_) => !s.cleaned
    case Cached(_) => !s.cleaned
    case Started => !s.cleaned
    case Response(id, _, _) => id in s.flights && s.flights[id].phase.Requesting?
    case Failure(id, _) => id in s.flights && !s.flights[id].phase.Waiting?
    case Read(id, _) => id in s.flights && s.flights[id].phase.Reading?
    case Resume(id) => id in s.flights && s.flights[id].phase.Waiting?
    case Dropped(id) => id in s.flights && !s.flights[id].phase.Waiting? && s.flights[id].controller in s.aborted
    case Cleanup => true
  }

  // ---- the steps ------------------------------------------------------------------------------------

  function Ended<D>(s: State<D>, id: nat): State<D> { s.(flights := s.flights - {id}) }

  function Abort<D>(s: State<D>, controller: Option<nat>): State<D> {
    if controller.None? then s else s.(aborted := s.aborted + {controller.value})
  }

  function Perform<D>(s: State<D>, id: nat, attempt: nat, controller: nat): State<D> {
    if id != s.currentId then Ended(s, id)
    else
      var flights := s.flights[id := Flight(attempt, controller, Requesting)];
      s.(shown := Loading(), issued := s.issued + [id], flights := flights)
  }

  function Start<D>(s: State<D>): State<D> {
    var c := s.nextController;
    Perform(Abort(s, s.current).(currentId := s.currentId + 1, current := Some(c), nextController := c + 1),
            s.currentId + 1, 0, c)
  }

  function Fail<D>(s: State<D>, id: nat, message: string): State<D>
    requires id in s.flights
  {
    if id != s.currentId then Ended(s, id)
    else Ended(Abort(s, Some(s.flights[id].controller)), id).(shown := Failed(message))
  }

  function Respond<D>(s: State<D>, id: nat, status: nat, message: string): State<D>
    requires id in s.flights
  {
    var f := s.flights[id];
    if status == 429 && f.attempt < MAX_RETRIES then
      Abort(s, Some(f.controller)).(flights := s.flights[id := f.(phase := Waiting)])
    else if !IsOk(status) then Fail(s, id, message)
    else s.(flights := s.flights[id := f.(phase := Reading)])
  }

  /** What the status of a response decides: 200 to 299 go on to the body; 429 waits for another attempt, up to the
      third retry, and gives up its controller; anything else ends the fetch, and is shown if the fetch is still the
      current one. */
  lemma StatusDecides<D>(s: State<D>, id: nat, status: nat, message: string)
    requires id in s.flights && s.flights[id].phase.Requesting?
    ensures var f, r := s.flights[id], Next(s, Response(id, status, message));
      && r.currentId == s.currentId && r.issued == s.issued && r.nextController == s.nextController
      && (forall other :: other in s.flights && other != id ==>
            other in r.flights && r.flights[other] == s.flights[other])
      && if status / 100 == 2 then
           r.flights == s.flights[id := Flight(f.attempt, f.controller, Reading)] && r.shown == s.shown
           && r.aborted == s.aborted
         else if status == 429 && f.attempt < 3 then
           r.flights == s.flights[id := Flight(f.attempt, f.controller, Waiting)] && r.shown == s.shown
           && r.aborted == s.aborted + {f.controller}
         else
           r.flights == s.flights - {id}
           && r.shown == (if id == s.currentId then FetchState(false, Some(message), None) else s.shown)
  {
  }

  function Finish<D>(s: State<D>, id: nat, data: D): State<D> {
    if id != s.currentId then Ended(s, id) else Ended(s, id).(shown := Loaded(data))
  }

  function Retry<D>(s: State<D>, id: nat): State<D>
    requires id in s.flights
  {
    if id != s.currentId then Ended(s, id)
    else Perform(s.(nextController := s.nextController + 1), id, s.flights[id].attempt + 1, s.nextController)
  }

  function Clean<D>(s: State<D>): State<D> {
    if s.cleaned then s
    else Abort(s, s.current).(currentId := s.currentId + 1, current := None, cleaned := true)
  }

  function Next<D>(s: State<D>, step: Step<D>): State<D>
    requires Enabled(s, step)
  {
    match step
    case Broken(message) => s.(shown := Failed(message))
    case Cached(data) => s.(shown := Loaded(data))
    case Started => Start(s)
    case Response(id, status, message) => Respond(s, id, status, message)
    case Failure(id, message) => Fail(s, id, message)
    case Read(id, data) => Finish(s, id, data)
    case Resume(id) => Retry(s, id)
    case Dropped(id) => Ended(s, id)
    case Cleanup => Clean(s)
  }

  // ---- the directive as an object -------------------------------------------------------------------------

  class FetchDirective<D(==)> {
    var currentFetchId: nat
    var currentAbortController: Option<nat>
    var aborted: set<nat>
    var nextController: nat
    var flights: map<nat, Flight>
    var fetchState: FetchState<D>
    var issued: seq<nat>
    var cleaned: bool

    ghost function St(): State<D>
      reads this
    {
      State(currentFetchId, currentAbortController, aborted, nextController, flights, fetchState, issued, cleaned)
    }

    constructor ()
      ensures St() == Fresh()
    {
      currentFetchId, currentAbortController, aborted, nextController := 0, None, {}, 0;
      flights, fetchState, issued, cleaned := map[], FetchState(true, None, None), [], false;
    }

    method AbortController(controller: nat)
      modifies this`aborted
      ensures aborted == old(aborted) + {controller}
    {
      aborted := aborted + {controller};
    }

    method PerformFetch(id: nat, attempt: nat, controller: nat)
      modifies this
      ensures St() == Perform(old(St()), id, attempt, controller)
    {
      if id != currentFetchId {
        flights := flights - {id};
        return;
      }
      fetchState := FetchState(true, None, None);
      issued := issued + [id];
      flights := flights[id := Flight(attempt, controller, Requesting)];
    }

    method EvaluateBroken(message: string)
      requires !cleaned
      modifies this
      ensures St() == Next(old(St()), Broken(message))
    {
      fetchState := FetchState(false, Some(message), None);
    }

    method EvaluateCached(data: D)
      requires !cleaned
      modifies this
      ensures St() == Next(old(St()), Cached(data))
    {
      fetchState := FetchState(false, None, Some(data));
    }

    method EvaluateAndFetch()
      requires !cleaned
      modifies this
      ensures St() == Next(old(St()), Started)
    {
      if currentAbortController.Some? {
        AbortController(currentAbortController.value);
      }
      currentFetchId := currentFetchId + 1;
      var controller := nextController;
      nextController := nextController + 1;
      currentAbortController := Some(controller);
      PerformFetch(currentFetchId, 0, controller);
    }

    method Catch(id: nat, message: string)
      requires id in flights
      modifies this
      ensures St() == Fail(old(St()), id, message)
    {
      var controller := flights[id].controller;
      flights := flights - {id};
      if id != currentFetchId {
        return;
      }
      AbortController(controller);
      fetchState := FetchState(false, Some(message), None);
    }

    method OnFailure(id: nat, message: string)
      requires Enabled(St(), Failure(id, message))
      modifies this
      ensures St() == Next(old(St()), Failure(id, message))
    {
      Catch(id, message);
    }

    method OnResponse(id: nat, status: nat, message: string)
      requires Enabled(St(), Response(id, status, message))
      modifies this
      ensures St() == Next(old(St()), Response(id, status, message))
    {
      var f := flights[id];
      if status == 429 && f.attempt < MAX_RETRIES {
        AbortController(f.controller);
        flights := flights[id := f.(phase := Waiting)];
        return;
      }
      if !IsOk(status) {
        Catch(id, message);
        return;
      }
      flights := flights[id := f.(phase := Reading)];
    }

    method OnBody(id: nat, data: D)
      requires Enabled(St(), Read(id, data))
      modifies this
      ensures St() == Next(old(St()), Read(id, data))
    {
      flights := flights - {id};
      if id != currentFetchId {
        return;
      }
      fetchState := FetchState(false, None, Some(data));
    }

    method OnDelayOver(id: nat)
      requires Enabled(St(), Resume(id))
      modifies this
      ensures St() == Next(old(St()), Resume(id))
    {
      if id != currentFetchId {
        flights := flights - {id};
        return;
      }
      var controller := nextController;
      nextController := nextController + 1;
      PerformFetch(id, flights[id].attempt + 1, controller);
    }

    method OnAbortError(id: nat)
      requires Enabled(St(), Dropped(id))
      modifies this
      ensures St() == Next(old(St()), Dropped(id))
    {
      flights := flights - {id};
    }

    method Cleanup()
      modifies this
      ensures St() == Next(old(St()), Step<D>.Cleanup)
    {
      if cleaned {
        return;
      }
      cleaned := true;
      currentFetchId := currentFetchId + 1;
      if currentAbortController.Some? {
        AbortController(currentAbortController.value);
        currentAbortController := None;
      }
    }
  }

  // ---- runs -----------------------------------------------------------------------------------------------

  ghost predicate CanRun<D>(s: State<D>, steps: seq<Step<D>>)
    decreases |steps|, 0
  {
    steps == [] || (CanRun(s, Front(steps)) && Enabled(Run(s, Front(steps)), Last(steps)))
  }

  ghost function Run<D>(s: State<D>, steps: seq<Step<D>>): State<D>
    requires CanRun(s, steps)
    decreases |steps|, 1
  {
    if steps == [] then s else Next(Run(s, Front(steps)), Last(steps))
  }

  // ---- the invariant ----------------------------------------------------------------------------------------

  function Requests(issued: seq<nat>, id: nat): nat {
    if issued == [] then 0 else Requests(Front(issued), id) + if Last(issued) == id then 1 else 0
  }

  ghost predicate Controllers<D>(s: State<D>) {
    && (forall c :: c in s.aborted ==> c < s.nextController)
    && (s.current.Some? ==> s.current.value < s.nextController)
    && (forall id :: id in s.flights ==> s.flights[id].controller < s.nextController)
    && (forall i, j :: i in s.flights && j in s.flights && i != j ==>
      s.flights[i].controller != s.flights[j].controller)
    && (forall id :: id in s.flights && s.current.Some? ==>
          (s.flights[id].controller == s.current.value <==> id == s.currentId && s.flights[id].attempt == 0))
  }

  /** Who is aborted: a fetch waiting to retry, by itself; and a superseded one if it is still at its first attempt. */
  ghost predicate Aborts<D>(s: State<D>) {
    forall id :: id in s.flights ==>
      (s.flights[id].controller in s.aborted <==>
       s.flights[id].phase.Waiting? || (id != s.currentId && s.flights[id].attempt == 0))
  }

  ghost predicate Counted<D>(s: State<D>) {
    && (forall id :: id in s.flights ==> 1 <= id <= s.currentId && s.flights[id].attempt <= MAX_RETRIES)
    && (forall id :: id in s.flights && s.flights[id].phase.Waiting? ==> s.flights[id].attempt < MAX_RETRIES)
    && (forall id :: id in s.flights ==> Requests(s.issued, id) == s.flights[id].attempt + 1)
    && (forall id :: Requests(s.issued, id) <= MAX_RETRIES + 1)
    && (forall id :: id > s.currentId ==> Requests(s.issued, id) == 0)
  }

  ghost predicate Inv<D>(s: State<D>) {
    && Controllers(s) && Aborts(s) && Counted(s)
    && (!s.cleaned ==> (s.currentId > 0 <==> s.current.Some?))
    && (s.cleaned ==> s.current.None? && s.currentId !in s.flights && s.currentId > 0)
    && (s.shown.loading && !s.cleaned ==> s.currentId in s.flights || s.currentId == 0)
  }

  lemma RequestsStep(issued: seq<nat>, id: nat)
    ensures forall x :: Requests(issued + [id], x) == Requests(issued, x) + if x == id then 1 else 0
  {
    assert Front(issued + [id]) == issued;
  }

  lemma FreshInv<D>(s: State<D>)
    requires s == Fresh()
    ensures Inv(s)
  {
    assert forall x :: Requests([], x) == 0;
  }

  lemma StartKeepsInv<D>(s: State<D>, r: State<D>)
    requires Inv(s) && !s.cleaned && r == Start(s)
    ensures Inv(r)
  {
    StartKeepsControllers(s, r);
    StartKeepsCounted(s, r);
  }

  lemma StartKeepsControllers<D>(s: State<D>, r: State<D>)
    requires Controllers(s) && Aborts(s) && r == Start(s)
    requires forall id :: id in s.flights ==> 1 <= id <= s.currentId
    requires s.currentId > 0 <==> s.current.Some?
    ensures Controllers(r) && Aborts(r)
  {
  }

  lemma StartKeepsCounted<D>(s: State<D>, r: State<D>)
    requires Counted(s) && r == Start(s)
    ensures Counted(r)
  {
    RequestsStep(s.issued, s.currentId + 1);
  }

  lemma EndKeepsInv<D>(s: State<D>, id: nat, r: State<D>)
    requires Inv(s) && id in s.flights && id != s.currentId && r == Ended(s, id)
    ensures Inv(r)
  {
  }

  lemma SettleKeepsInv<D>(s: State<D>, id: nat, aborted: set<nat>, shown: FetchState<D>, r: State<D>)
    requires Inv(s) && id in s.flights && !shown.loading
    requires aborted == s.aborted || aborted == s.aborted + {s.flights[id].controller}
    requires r == Ended(s, id).(aborted := aborted, shown := shown)
    ensures Inv(r)
  {
  }

  lemma FailKeepsInv<D>(s: State<D>, id: nat, message: string, r: State<D>)
    requires Inv(s) && id in s.flights && r == Fail(s, id, message)
    ensures Inv(r)
  {
    if id != s.currentId {
      EndKeepsInv(s, id, r);
    } else {
      SettleKeepsInv(s, id, s.aborted + {s.flights[id].controller}, Failed(message), r);
    }
  }

  lemma PhaseKeepsCounted<D>(s: State<D>, id: nat, phase: Phase, aborted: set<nat>, r: State<D>)
    requires Counted(s) && id in s.flights && (phase.Waiting? ==> s.flights[id].attempt < MAX_RETRIES)
    requires r == s.(aborted := aborted, flights := s.flights[id := s.flights[id].(phase := phase)])
    ensures Counted(r)
  {
  }

  lemma PhaseKeepsControllers<D>(s: State<D>, id: nat, phase: Phase, aborted: set<nat>, r: State<D>)
    requires Controllers(s) && id in s.flights
    requires aborted == s.aborted || aborted == s.aborted + {s.flights[id].controller}
    requires r == s.(aborted := aborted, flights := s.flights[id := s.flights[id].(phase := phase)])
    ensures Controllers(r)
  {
  }

  lemma ReadKeepsInv<D>(s: State<D>, id: nat, r: State<D>)
    requires Inv(s) && id in s.flights && s.flights[id].phase.Requesting?
    requires r == s.(flights := s.flights[id := s.flights[id].(phase := Reading)])
    ensures Inv(r)
  {
    PhaseKeepsCounted(s, id, Reading, s.aborted, r);
    PhaseKeepsControllers(s, id, Reading, s.aborted, r);
  }

  lemma WaitKeepsInv<D>(s: State<D>, id: nat, r: State<D>)
    requires Inv(s) && id in s.flights && s.flights[id].phase.Requesting? && s.flights[id].attempt < MAX_RETRIES
    requires r == Abort(s, Some(s.flights[id].controller))
                  .(flights := s.flights[id := s.flights[id].(phase := Waiting)])
    ensures Inv(r)
  {
    PhaseKeepsCounted(s, id, Waiting, s.aborted + {s.flights[id].controller}, r);
    PhaseKeepsControllers(s, id, Waiting, s.aborted + {s.flights[id].controller}, r);
  }

  lemma RespondKeepsInv<D>(s: State<D>, id: nat, status: nat, message: string, r: State<D>)
    requires Inv(s) && id in s.flights && s.flights[id].phase.Requesting? && r == Respond(s, id, status, message)
    ensures Inv(r)
  {
    if status == 429 && s.flights[id].attempt < MAX_RETRIES {
      WaitKeepsInv(s, id, r);
    } else if !IsOk(status) {
      FailKeepsInv(s, id, message, r);
    } else {
      ReadKeepsInv(s, id, r);
    }
  }

  lemma PerformKeepsInv<D>(s: State<D>, f: Flight, r: State<D>)
    requires Inv(s) && s.currentId in s.flights && f == s.flights[s.currentId] && f.phase.Waiting?
    requires r == s.(nextController := s.nextController + 1, shown := Loading(), issued := s.issued + [s.currentId],
                     flights := s.flights[s.currentId := Flight(f.attempt + 1, s.nextController, Requesting)])
    ensures Inv(r)
  {
    RequestsStep(s.issued, s.currentId);
  }

  lemma RetryKeepsInv<D>(s: State<D>, id: nat, r: State<D>)
    requires Inv(s) && id in s.flights && s.flights[id].phase.Waiting? && r == Retry(s, id)
    ensures Inv(r)
  {
    if id != s.currentId {
      EndKeepsInv(s, id, r);
    } else {
      PerformKeepsInv(s, s.flights[id], r);
    }
  }

  lemma FinishKeepsInv<D>(s: State<D>, id: nat, data: D, r: State<D>)
    requires Inv(s) && id in s.flights && r == Finish(s, id, data)
    ensures Inv(r)
  {
    if id != s.currentId {
      EndKeepsInv(s, id, r);
    } else {
      SettleKeepsInv(s, id, s.aborted, Loaded(data), r);
    }
  }

  lemma CleanKeepsInv<D>(s: State<D>, r: State<D>)
    requires Inv(s) && r == Clean(s)
    ensures Inv(r)
  {
  }

  lemma StepKeepsInv<D>(s: State<D>, step: Step<D>, r: State<D>)
    requires Inv(s) && Enabled(s, step) && r == Next(s, step)
    ensures Inv(r)
  {
    if step.Started? {
      StartKeepsInv(s, r);
    } else if step.Response? {
      RespondKeepsInv(s, step.id, step.status, step.message, r);
    } else if step.Failure? {
      FailKeepsInv(s, step.id, step.message, r);
    } else if step.Read? {
      FinishKeepsInv(s, step.id, step.data, r);
    } else if step.Resume? {
      RetryKeepsInv(s, step.id, r);
    } else if step.Dropped? {
      EndKeepsInv(s, step.id, r);
    } else if step.Cleanup? {
      CleanKeepsInv(s, r);
    }
  }

  lemma {:induction false} RunKeepsInv<D>(s: State<D>, steps: seq<Step<D>>)
    requires Inv(s) && CanRun(s, steps)
    ensures Inv(Run(s, steps))
    decreases |steps|
  {
    if steps != [] {
      RunKeepsInv(s, Front(steps));
      StepKeepsInv(Run(s, Front(steps)), Last(steps), Run(s, steps));
    }
  }

  // ---- what holds at every moment of every run ----------------------------------------------------------------

  /** No fetch ever makes more than four requests, and while one is loading it is still under way: the display is never
      stuck. Only a superseded fetch, never the latest one, can end in silence. */
  lemma EveryMoment<D>(steps: seq<Step<D>>, id: nat, s: State<D>)
    requires CanRun(Fresh(), steps) && s == Run(Fresh(), steps)
    ensures Requests(s.issued, id) <= MAX_RETRIES + 1
    ensures s.shown.loading && !s.cleaned && s.currentId > 0 ==> s.currentId in s.flights
    ensures Enabled(s, Dropped(id)) ==> id != s.currentId
  {
    FreshInv(Fresh<D>());
    RunKeepsInv(Fresh(), steps);
  }

  /** Starting a new fetch aborts the request of the previous one if and only if that is at its first attempt: a retry
      has a controller nobody keeps, and runs on. */
  lemma OnlyFirstAttemptsAreAborted<D>(steps: seq<Step<D>>, s: State<D>, r: State<D>)
    requires CanRun(Fresh(), steps) && s == Run(Fresh(), steps) && Enabled(s, Step<D>.Started) && r == Start(s)
    requires s.currentId in s.flights && !s.flights[s.currentId].phase.Waiting?
    ensures s.currentId in r.flights && r.flights[s.currentId] == s.flights[s.currentId]
    ensures r.flights[s.currentId].controller in r.aborted <==> s.flights[s.currentId].attempt == 0
  {
    FreshInv(Fresh<D>());
    RunKeepsInv(Fresh(), steps);
    StartKeepsInv(s, r);
  }

  lemma RunSnoc<D>(s: State<D>, steps: seq<Step<D>>, step: Step<D>)
    requires CanRun(s, steps) && Enabled(Run(s, steps), step)
    ensures CanRun(s, steps + [step]) && Run(s, steps + [step]) == Next(Run(s, steps), step)
  {
    assert Front(steps + [step]) == steps;
  }

  /** Such a retry is reached by one answer with status 429; a new fetch then leaves its request running. */
  lemma RetryEscapesTheAbort<D>(message: string)
    ensures var steps := [Started, Response(1, 429, message), Resume(1), Started];
      && CanRun(Fresh<D>(), steps)
      && var s := Run(Fresh<D>(), steps);
         && s.currentId == 2
         && 1 in s.flights && s.flights[1].attempt == 1 && s.flights[1].phase.Requesting?
         && s.flights[1].controller !in s.aborted
  {
    var init := Fresh<D>();
    RunSnoc(init, [], Started);
    var one: seq<Step<D>> := [] + [Started];
    RunSnoc(init, one, Response(1, 429, message));
    var two := one + [Response(1, 429, message)];
    RunSnoc(init, two, Resume(1));
    var three := two + [Resume(1)];
    RunSnoc(init, three, Started);
    assert three + [Started] == [Started, Response(1, 429, message), Resume(1), Started];
  }

  // ---- the last fetch wins ---------------------------------------------------------------------------------------

  function Starts<D>(steps: seq<Step<D>>): nat {
    if steps == [] then 0 else Starts(Front(steps)) + if Last(steps).Started? then 1 else 0
  }

  /** Whether the last step belongs to the fetch that was started as number `id`. */
  predicate Concerns<D>(steps: seq<Step<D>>, id: nat)
    requires steps != []
  {
    match Last(steps)
    case Started => Starts(steps) == id
    case Response(i, _, _) => i == id
    case Failure(i, _) => i == id
    case Read(i, _) => i == id
    case Resume(i) => i == id
    case Dropped(i) => i == id
    case _ => false
  }

  /** The steps of one fetch, without everything the others do in between. */
  function Own<D>(steps: seq<Step<D>>, id: nat): seq<Step<D>> {
    if steps == [] then []
    else if Concerns(steps, id) then Own(Front(steps), id) + [Last(steps)]
    else Own(Front(steps), id)
  }

  /** A fetch that is alone in the world: no ids, no controllers, no checks. */
  datatype Solo<D> = Solo(shown: FetchState<D>, attempt: nat)

  function SoloNext<D>(q: Solo<D>, step: Step<D>): Solo<D> {
    match step
    case Started => Solo(Loading(), 0)
    case Response(_, status, message) =>
      if (status == 429 && q.attempt < MAX_RETRIES) || IsOk(status) then q else q.(shown := Failed(message))
    case Failure(_, message) => q.(shown := Failed(message))
    case Read(_, data) => q.(shown := Loaded(data))
    case Resume(_) => Solo(Loading(), q.attempt + 1)
    case _ => q
  }

  function SoloRun<D>(own: seq<Step<D>>): Solo<D> {
    if own == [] then Solo(Loading(), 0) else SoloNext(SoloRun(Front(own)), Last(own))
  }

  ghost predicate OnlyFetches<D>(steps: seq<Step<D>>) {
    forall i :: 0 <= i < |steps| ==> !steps[i].Broken? && !steps[i].Cached? && !steps[i].Cleanup?
  }

  lemma SoloStep<D>(own: seq<Step<D>>, step: Step<D>)
    ensures SoloRun(own + [step]) == SoloNext(SoloRun(own), step)
  {
    assert Front(own + [step]) == own;
  }

  lemma OnlyStartsAdvance<D>(s: State<D>, step: Step<D>, r: State<D>)
    requires Enabled(s, step) && !step.Broken? && !step.Cached? && !step.Cleanup? && r == Next(s, step)
    ensures r.currentId == s.currentId + (if step.Started? then 1 else 0) && r.cleaned == s.cleaned
  {
  }

  lemma {:induction false} NothingBeforeTheStart<D>(steps: seq<Step<D>>, id: nat)
    requires CanRun(Fresh(), steps) && OnlyFetches(steps) && id > Run(Fresh(), steps).currentId
    ensures Run(Fresh(), steps).currentId == Starts(steps) && !Run(Fresh(), steps).cleaned && Own(steps, id) == []
    decreases |steps|
  {
    if steps != [] {
      var init := Front(steps);
      assert OnlyFetches(init);
      FreshInv(Fresh<D>());
      RunKeepsInv(Fresh(), init);
      assert Last(steps) == steps[|steps| - 1];
      OnlyStartsAdvance(Run(Fresh(), init), Last(steps), Run(Fresh(), steps));
      NothingBeforeTheStart(init, id);
    }
  }

  ghost predicate Follows<D>(s: State<D>, q: Solo<D>) {
    s.shown == q.shown && (s.currentId in s.flights ==> s.flights[s.currentId].attempt == q.attempt)
  }

  lemma SoloFollows<D>(s: State<D>, step: Step<D>, r: State<D>, q: Solo<D>)
    requires Enabled(s, step) && !step.Broken? && !step.Cached? && !step.Cleanup? && !step.Started?
    requires r == Next(s, step)
    requires Follows(s, q)
    ensures r.currentId == s.currentId
    ensures step.id == s.currentId ==> Follows(r, SoloNext(q, step))
    ensures step.id != s.currentId ==> Follows(r, q)
  {
  }

  /** In any interleaving of fetches, retries, failures and late completions, what is shown is what the last started
      fetch would show if it were the only one there ever was. */
  lemma {:induction false} LastFetchWins<D>(steps: seq<Step<D>>, s: State<D>)
    requires CanRun(Fresh(), steps) && OnlyFetches(steps) && s == Run(Fresh(), steps)
    ensures s.currentId == Starts(steps)
    ensures s.shown == SoloRun(Own(steps, Starts(steps))).shown
    ensures s.currentId in s.flights ==> s.flights[s.currentId].attempt == SoloRun(Own(steps, Starts(steps))).attempt
    decreases |steps|
  {
    if steps != [] {
      var init, step := Front(steps), Last(steps);
      assert OnlyFetches(init);
      assert step == steps[|steps| - 1];
      var before := Run(Fresh(), init);
      LastFetchWins(init, before);
      var own := Own(init, Starts(init));
      SoloStep(own, step);
      if step.Started? {
        NothingBeforeTheStart(init, before.currentId + 1);
        SoloStep([], step);
      } else {
        SoloFollows(before, step, s, SoloRun(own));
        assert Concerns(steps, Starts(steps)) <==> step.id == s.currentId;
      }
    }
  }

  // ---- after cleanup -----------------------------------------------------------------------------------------------

  /** Once cleaned up the state never changes again, and no request is made, whatever was under way. */
  lemma {:induction false} NothingAfterCleanup<D>(s: State<D>, steps: seq<Step<D>>)
    requires Inv(s) && s.cleaned && CanRun(s, steps)
    ensures var r := Run(s, steps); r.cleaned && r.shown == s.shown && r.issued == s.issued
    decreases |steps|
  {
    if steps != [] {
      NothingAfterCleanup(s, Front(steps));
      RunKeepsInv(s, Front(steps));
    }
  }

  // ---- evaluations that start no fetch ----------------------------------------------------------------------------

  predicate Evaluates<D>(step: Step<D>) { step.Broken? || step.Cached? || step.Started? }

  ghost predicate Quiet<D>(steps: seq<Step<D>>) {
    forall i :: 0 <= i < |steps| ==> !Evaluates(steps[i])
  }

  /** Until the URL is evaluated again, what is shown stays. */
  ghost predicate Settled<D(!new)>(s: State<D>) {
    forall more :: CanRun(s, more) && Quiet(more) ==> Run(s, more).shown == s.shown
  }

  lemma QuietStepKeepsShown<D>(s: State<D>, step: Step<D>, r: State<D>)
    requires Counted(s) && s.currentId !in s.flights && Enabled(s, step) && !Evaluates(step) && r == Next(s, step)
    ensures r.shown == s.shown && r.currentId !in r.flights
  {
  }

  lemma {:induction false} QuietKeepsShown<D>(s: State<D>, more: seq<Step<D>>)
    requires Inv(s) && s.currentId !in s.flights && CanRun(s, more) && Quiet(more)
    ensures Run(s, more).shown == s.shown && Run(s, more).currentId !in Run(s, more).flights
    decreases |more|
  {
    if more != [] {
      var init := Front(more);
      assert Quiet(init) && Last(more) == more[|more| - 1];
      QuietKeepsShown(s, init);
      RunKeepsInv(s, init);
      QuietStepKeepsShown(Run(s, init), Last(more), Run(s, more));
    }
  }

  lemma OneStepRun<D>(s: State<D>, step: Step<D>)
    requires Enabled(s, step)
    ensures CanRun(s, [step]) && Run(s, [step]) == Next(s, step)
  {
    var one := [step];
    assert Front(one) == [] && Last(one) == step;
    assert CanRun(s, []) && Run(s, []) == s;
    assert CanRun(s, Front(one)) && Run(s, Front(one)) == s;
    assert CanRun(s, one);
  }

  /** The cached and the invalid-URL branches leave the fetch id alone. So the answer they show stands if and only if
      the previous fetch was over by then; otherwise that fetch can still write over it. */
  lemma AnswerStandsIffNothingInFlight<D(!new)>(s: State<D>, step: Step<D>, r: State<D>)
    requires Inv(s) && Enabled(s, step) && (step.Broken? || step.Cached?) && r == Next(s, step)
    ensures Settled(r) <==> s.currentId !in s.flights
  {
    StepKeepsInv(s, step, r);
    var id := s.currentId;
    if id in s.flights {
      var other := if step.Broken? then step.message + "!" else "";
      var late: Step<D> := if s.flights[id].phase.Waiting? then Resume(id) else Failure(id, other);
      OneStepRun(r, late);
      if step.Broken? { assert |other| != |step.message|; }
      assert Next(r, late).shown != r.shown;
      assert Quiet([late]);
    } else {
      forall more | CanRun(r, more) && Quiet(more) ensures Run(r, more).shown == r.shown {
        QuietKeepsShown(r, more);
      }
    }
  }

  /** A fetch is under way when the URL changes to one that is cached: its data replaces the cached answer. */
  lemma OlderFetchOverwritesAnswer<D>(answer: D, older: D)
    ensures var steps := [Started, Cached(answer), Response(1, 200, ""), Read(1, older)];
      && CanRun(Fresh<D>(), steps) && CanRun(Fresh<D>(), steps[..2])
      && Run(Fresh<D>(), steps[..2]).shown == Loaded(answer) && Run(Fresh<D>(), steps).shown == Loaded(older)
  {
    var init := Fresh<D>();
    RunSnoc(init, [], Started);
    var one: seq<Step<D>> := [] + [Started];
    RunSnoc(init, one, Cached(answer));
    var two := one + [Cached(answer)];
    RunSnoc(init, two, Response(1, 200, ""));
    var three := two + [Response(1, 200, "")];
    RunSnoc(init, three, Read(1, older));
    var steps := [Started, Cached(answer), Response(1, 200, ""), Read(1, older)];
    assert three + [Read(1, older)] == steps && steps[..2] == two;
  }
}
