/** Debounced and throttled event handlers as machines over their inputs: events, timer firings and cancels. A timer may
    fire late but never early; the handler's invocations are the machine's output. */
module Timing {
  import opened Prelude
  import ActionCalls

  datatype Timer<E> = Timer(event: E, due: int)

  datatype Call<E> = Call(event: E, at: int)

  datatype Input<E> = Event(event: E, at: int) | Fire(at: int) | Cancel

  /** A timer fires only while it is set and not before it is due. */
  predicate Enabled<E>(timer: Option<Timer<E>>, i: Input<E>) {
    i.Fire? ==> timer.Some? && timer.value.due <= i.at
  }

  // ---- debounce ---------------------------------------------------------------------------------

  datatype Debounce<E> = Debounce(timer: Option<Timer<E>>, calls: seq<Call<E>>)

  function DebounceStep<E>(s: Debounce<E>, wait: nat, i: Input<E>): Debounce<E>
    requires Enabled(s.timer, i)
  {
    match i
    case Event(e, at) => s.(timer := Some(Timer(e, at + wait)))
    case Fire(at) => Debounce(None, s.calls + [Call(s.timer.value.event, at)])
    case Cancel => s.(timer := None)
  }

  /** Inputs that can happen: every firing is enabled when it comes. */
  ghost predicate DebounceTrace<E>(inputs: seq<Input<E>>, wait: nat)
    decreases |inputs|, 0
  {
    inputs == [] || (DebounceTrace(Front(inputs), wait) &&
      Enabled(DebounceRun(Front(inputs), wait).timer, Last(inputs)))
  }

  ghost function DebounceRun<E>(inputs: seq<Input<E>>, wait: nat): Debounce<E>
    requires DebounceTrace(inputs, wait)
    decreases |inputs|, 1
  {
    if inputs == [] then Debounce(None, []) else DebounceStep(DebounceRun(Front(inputs), wait), wait, Last(inputs))
  }

  class DebouncedHandler<E> {
    const wait: nat
    var timer: Option<Timer<E>>
    var calls: seq<Call<E>>

    ghost function State(): Debounce<E>
      reads this
    {
      Debounce(timer, calls)
    }

    constructor (wait: nat)
      ensures this.wait == wait && State() == Debounce(None, [])
    {
      this.wait, timer, calls := wait, None, [];
    }

    method Handle(event: E, now: int)
      modifies this
      ensures State() == DebounceStep(old(State()), wait, Event(event, now))
    {
      if timer.Some? {
        timer := None;
      }
      timer := Some(Timer(event, now + wait));
    }

    method OnTimer(now: int)
      requires Enabled(timer, Fire(now))
      modifies this
      ensures State() == DebounceStep(old(State()), wait, Fire(now))
    {
      var event := timer.value.event;
      timer := None;
      calls := calls + [Call(event, now)];
    }

    method CancelPending()
      modifies this
      ensures State() == DebounceStep(old(State()), wait, Cancel)
    {
      if timer.Some? {
        timer := None;
      }
    }
  }

  /** What debouncing promises, read off the inputs alone: an event is delivered when the timer fires right after it. */
  function Delivered<E>(inputs: seq<Input<E>>): seq<Call<E>> {
    if |inputs| < 2 then []
    else
      Delivered(Front(inputs)) +
      if Last(inputs).Fire? && Last(Front(inputs)).Event?
      then [Call(Last(Front(inputs)).event, Last(inputs).at)]
      else []
  }

  /** The handler's calls are exactly the delivered events, and what waits is the event of the last input, if any. */
  lemma {:induction false} DebounceDelivers<E>(inputs: seq<Input<E>>, wait: nat)
    requires DebounceTrace(inputs, wait)
    ensures DebounceRun(inputs, wait).calls == Delivered(inputs)
    ensures DebounceRun(inputs, wait).timer ==
      if inputs != [] && Last(inputs).Event? then Some(Timer(Last(inputs).event, Last(inputs).at + wait)) else None
    decreases |inputs|
  {
    if inputs != [] { DebounceDelivers(Front(inputs), wait); }
  }

  lemma {:induction false} PrefixIsTrace<E>(inputs: seq<Input<E>>, wait: nat, k: nat)
    requires DebounceTrace(inputs, wait) && k <= |inputs|
    ensures DebounceTrace(inputs[..k], wait)
    decreases |inputs|
  {
    if k < |inputs| {
      PrefixIsTrace(Front(inputs), wait, k);
      assert Front(inputs)[..k] == inputs[..k];
    } else {
      assert inputs[..k] == inputs;
    }
  }

  /** Every firing comes right after an event and at least `wait` later: nothing arrived in between. */
  lemma DeliveredAfterSilence<E>(inputs: seq<Input<E>>, wait: nat, k: nat)
    requires DebounceTrace(inputs, wait) && k < |inputs| && inputs[k].Fire?
    ensures k > 0 && inputs[k - 1].Event? && inputs[k - 1].at + wait <= inputs[k].at
  {
    var upto := inputs[..k + 1];
    PrefixIsTrace(inputs, wait, k + 1);
    assert Front(upto) == inputs[..k] && Last(upto) == inputs[k];
    DebounceDelivers(Front(upto), wait);
  }

  /** How many events the next input makes end in this way: superseded by another event, cancelled, or delivered. */
  function Ended<E>(inputs: seq<Input<E>>, how: Input<E> -> bool): nat {
    if |inputs| < 2 then 0
    else Ended(Front(inputs), how) + if Last(Front(inputs)).Event? && how(Last(inputs)) then 1 else 0
  }

  function Events<E>(inputs: seq<Input<E>>): nat {
    if inputs == [] then 0 else Events(Front(inputs)) + if Last(inputs).Event? then 1 else 0
  }

  /** Every event is superseded, cancelled, delivered once, or the one still waiting. */
  lemma {:induction false} EveryEventHasOneFate<E>(inputs: seq<Input<E>>, wait: nat)
    requires DebounceTrace(inputs, wait)
    ensures Events(inputs) ==
      Ended(inputs, (i: Input<E>) => i.Event?) + Ended(inputs, (i: Input<E>) => i.Cancel?) +
      |DebounceRun(inputs, wait).calls| + (if DebounceRun(inputs, wait).timer.Some? then 1 else 0)
    decreases |inputs|
  {
    DebounceDelivers(inputs, wait);
    if |inputs| == 1 {
      assert Events(Front(inputs)) == 0;
    } else if inputs != [] {
      EveryEventHasOneFate(Front(inputs), wait);
      DebounceDelivers(Front(inputs), wait);
    }
  }

  function Firings<E>(inputs: seq<Input<E>>): nat {
    if inputs == [] then 0 else Firings(Front(inputs)) + if Last(inputs).Fire? then 1 else 0
  }

  lemma {:induction false} FiringsGrow<E>(inputs: seq<Input<E>>, k: nat)
    requires k < |inputs| && inputs[k].Fire?
    ensures Firings(inputs[..k]) < Firings(inputs)
    decreases |inputs|
  {
    if k < |inputs| - 1 {
      FiringsGrow(Front(inputs), k);
      assert Front(inputs)[..k] == inputs[..k];
    } else {
      assert inputs[..k] == Front(inputs);
    }
  }

  /** One call for each firing, in order: with the event right before the firing, at the time of the firing. */
  lemma {:induction false} OneCallPerFiring<E>(inputs: seq<Input<E>>, wait: nat, k: nat)
    requires DebounceTrace(inputs, wait)
    ensures |DebounceRun(inputs, wait).calls| == Firings(inputs)
    ensures k < |inputs| && inputs[k].Fire? ==>
      && k > 0 && inputs[k - 1].Event? && Firings(inputs[..k]) < Firings(inputs)
      && DebounceRun(inputs, wait).calls[Firings(inputs[..k])] == Call(inputs[k - 1].event, inputs[k].at)
    decreases |inputs|
  {
    if inputs != [] {
      var front := Front(inputs);
      OneCallPerFiring(front, wait, k);
      DebounceDelivers(front, wait);
      if k < |inputs| && inputs[k].Fire? {
        FiringsGrow(inputs, k);
        if k < |front| { assert front[..k] == inputs[..k]; } else { assert inputs[..k] == front; }
      }
    }
  }

  datatype Fate = Superseded | Cancelled | Delivered(at: int) | Waiting

  /** What becomes of the event at `i`: the next input decides. */
  function FateOf<E>(inputs: seq<Input<E>>, i: nat): Fate
    requires i < |inputs|
  {
    if i == |inputs| - 1 then Waiting
    else match inputs[i + 1]
      case Event(_, _) => Superseded
      case Fire(at) => Fate.Delivered(at)
      case Cancel => Cancelled
  }

  /** The event at `i` is delivered, once, after at least the wait, or it is the one still waiting, or it is lost:
      then the input that follows makes no call and leaves no timer for it. */
  lemma FateOfEachEvent<E>(inputs: seq<Input<E>>, wait: nat, i: nat)
    requires DebounceTrace(inputs, wait) && i < |inputs| && inputs[i].Event?
    ensures var e, s := inputs[i].event, DebounceRun(inputs, wait);
      match FateOf(inputs, i)
      case Delivered(at) =>
        && inputs[i].at + wait <= at && Firings(inputs[..i + 1]) < |s.calls|
        && s.calls[Firings(inputs[..i + 1])] == Call(e, at)
      case Waiting => s.timer == Some(Timer(e, inputs[i].at + wait))
      case Superseded => AfterNext(inputs, wait, i).timer == Some(Timer(inputs[i + 1].event, inputs[i + 1].at + wait))
      case Cancelled => AfterNext(inputs, wait, i).timer == None
    ensures FateOf(inputs, i).Superseded? || FateOf(inputs, i).Cancelled? ==>
      |AfterNext(inputs, wait, i).calls| == Firings(inputs[..i + 1])
  {
    DebounceDelivers(inputs, wait);
    if i < |inputs| - 1 {
      var next := inputs[..i + 2];
      PrefixIsTrace(inputs, wait, i + 2);
      assert Last(next) == inputs[i + 1] && Front(next) == inputs[..i + 1];
      OneCallPerFiring(inputs, wait, i + 1);
      OneCallPerFiring(next, wait, 0);
      DebounceDelivers(next, wait);
      if inputs[i + 1].Fire? { DeliveredAfterSilence(inputs, wait, i + 1); }
    }
  }

  /** The machine right after the input that follows input `i`. */
  ghost function AfterNext<E>(inputs: seq<Input<E>>, wait: nat, i: nat): Debounce<E>
    requires DebounceTrace(inputs, wait) && i < |inputs|
  {
    var n := if i + 2 <= |inputs| then i + 2 else |inputs|;
    PrefixIsTrace(inputs, wait, n);
    DebounceRun(inputs[..n], wait)
  }

  // ---- when debouncing loses nothing ----------------------------------------------------------------

  function EventList<E>(inputs: seq<Input<E>>): (r: seq<E>)
    ensures |r| == Events(inputs)
  {
    if inputs == [] then []
    else if Last(inputs).Event? then EventList(Front(inputs)) + [Last(inputs).event]
    else EventList(Front(inputs))
  }

  function CalledWith<E>(calls: seq<Call<E>>): seq<E> {
    seq(|calls|, i requires 0 <= i < |calls| => calls[i].event)
  }

  predicate FiredNext<E>(inputs: seq<Input<E>>, i: nat)
    requires i < |inputs|
  {
    inputs[i].Event? ==> i + 1 < |inputs| && inputs[i + 1].Fire?
  }

  lemma {:induction false} FiredEventsAreCalled<E>(inputs: seq<Input<E>>, wait: nat)
    requires DebounceTrace(inputs, wait) && forall i :: 0 <= i < |inputs| - 1 ==> FiredNext(inputs, i)
    ensures EventList(inputs) ==
      CalledWith(DebounceRun(inputs, wait).calls) +
      if inputs != [] && Last(inputs).Event? then [Last(inputs).event] else []
    decreases |inputs|
  {
    if inputs != [] {
      var front := Front(inputs);
      forall i | 0 <= i < |front| - 1 ensures FiredNext(front, i) {
        assert FiredNext(inputs, i) && front[i] == inputs[i] && front[i + 1] == inputs[i + 1];
      }
      FiredEventsAreCalled(front, wait);
      DebounceDelivers(front, wait);
      if front != [] { assert FiredNext(inputs, |front| - 1); }
      var before, now := DebounceRun(front, wait).calls, DebounceRun(inputs, wait).calls;
      if Last(inputs).Fire? {
        assert now == before + [Call(Last(front).event, Last(inputs).at)];
        assert CalledWith(now) == CalledWith(before) + [Last(front).event];
      }
    }
  }

  lemma {:induction false} EndedAt<E>(inputs: seq<Input<E>>, how: Input<E> -> bool, i: nat)
    requires i + 1 < |inputs| && inputs[i].Event? && how(inputs[i + 1])
    ensures Ended(inputs, how) > 0
    decreases |inputs|
  {
    if i + 2 < |inputs| { EndedAt(Front(inputs), how, i); }
  }

  /** The handler gets exactly the events that came, in order, if and only if each is followed directly by a firing;
      so it is with any wait, and with 0 too. */
  lemma TransparentIffFiredNext<E>(inputs: seq<Input<E>>, wait: nat)
    requires DebounceTrace(inputs, wait)
    ensures CalledWith(DebounceRun(inputs, wait).calls) == EventList(inputs) <==>
      forall i :: 0 <= i < |inputs| ==> FiredNext(inputs, i)
  {
    if forall i :: 0 <= i < |inputs| ==> FiredNext(inputs, i) {
      FiredEventsAreCalled(inputs, wait);
      if inputs != [] { assert FiredNext(inputs, |inputs| - 1); }
    } else {
      var i :| 0 <= i < |inputs| && !FiredNext(inputs, i);
      EveryEventHasOneFate(inputs, wait);
      DebounceDelivers(inputs, wait);
      if i + 1 < |inputs| {
        if inputs[i + 1].Event? { EndedAt(inputs, (x: Input<E>) => x.Event?, i); }
        else { EndedAt(inputs, (x: Input<E>) => x.Cancel?, i); }
      }
    }
  }

  /** A wait of 0 still delays and merges events: the first of two events in a row is lost, whatever the timer does. */
  lemma ZeroDebounceStillMerges<E>(first: E, second: E, now: int)
    ensures var inputs := [Event(first, now), Event(second, now), Fire(now)];
      DebounceTrace(inputs, 0) && DebounceRun(inputs, 0).calls == [Call(second, now)]
  {
    var one, two := [Event(first, now)], [Event(first, now), Event(second, now)];
    var three := [Event(first, now), Event(second, now), Fire(now)];
    assert Front(one) == [] && Front(two) == one && Front(three) == two;
    assert DebounceTrace(one, 0);
    assert DebounceTrace(two, 0);
    DebounceDelivers(two, 0);
    DebounceDelivers(three, 0);
    assert Delivered(two) == Delivered(one) == [];
  }

  // ---- throttle -------------------------------------------------------------------------------------

  datatype Throttle<E> = Throttle(last: int, timer: Option<Timer<E>>, calls: seq<Call<E>>)

  function ThrottleStep<E>(s: Throttle<E>, wait: nat, i: Input<E>): Throttle<E>
    requires Enabled(s.timer, i)
  {
    match i
    case Event(e, at) =>
      if wait - (at - s.last) <= 0 then Throttle(at, None, s.calls + [Call(e, at)])
      else if s.timer.None? then s.(timer := Some(Timer(e, at + (wait - (at - s.last)))))
      else s
    case Fire(at) => Throttle(at, None, s.calls + [Call(s.timer.value.event, at)])
    case Cancel => s.(timer := None)
  }

  ghost predicate ThrottleTrace<E>(inputs: seq<Input<E>>, wait: nat)
    decreases |inputs|, 0
  {
    inputs == [] || (ThrottleTrace(Front(inputs), wait) &&
      Enabled(ThrottleRun(Front(inputs), wait).timer, Last(inputs)))
  }

  ghost function ThrottleRun<E>(inputs: seq<Input<E>>, wait: nat): Throttle<E>
    requires ThrottleTrace(inputs, wait)
    decreases |inputs|, 1
  {
    if inputs == [] then Throttle(0, None, []) else ThrottleStep(ThrottleRun(Front(inputs), wait), wait, Last(inputs))
  }

  class ThrottledHandler<E> {
    const wait: nat
    var last: int
    var timer: Option<Timer<E>>
    var calls: seq<Call<E>>

    ghost function State(): Throttle<E>
      reads this
    {
      Throttle(last, timer, calls)
    }

    constructor (wait: nat)
      ensures this.wait == wait && State() == Throttle(0, None, [])
    {
      this.wait, last, timer, calls := wait, 0, None, [];
    }

    method Handle(event: E, now: int)
      modifies this
      ensures State() == ThrottleStep(old(State()), wait, Event(event, now))
    {
      var remaining := wait - (now - last);
      if remaining <= 0 {
        if timer.Some? {
          timer := None;
        }
        last := now;
        calls := calls + [Call(event, now)];
      } else if timer.None? {
        timer := Some(Timer(event, now + remaining));
      }
    }

    method OnTimer(now: int)
      requires Enabled(timer, Fire(now))
      modifies this
      ensures State() == ThrottleStep(old(State()), wait, Fire(now))
    {
      var event := timer.value.event;
      last := now;
      timer := None;
      calls := calls + [Call(event, now)];
    }

    method CancelPending()
      modifies this
      ensures State() == ThrottleStep(old(State()), wait, Cancel)
    {
      if timer.Some? {
        timer := None;
      }
    }
  }

  ghost predicate Spaced<E>(calls: seq<Call<E>>, wait: nat) {
    forall i, j :: 0 <= i < j < |calls| ==> calls[i].at + wait <= calls[j].at
  }

  /** At every moment: calls are `wait` apart, `last` is the time of the last one, and the one timer there can be is due
      exactly `wait` after it. */
  lemma {:induction false} ThrottleKeepsItsDistance<E>(inputs: seq<Input<E>>, wait: nat)
    requires ThrottleTrace(inputs, wait)
    ensures var s := ThrottleRun(inputs, wait);
      && Spaced(s.calls, wait)
      && s.last == (if s.calls == [] then 0 else Last(s.calls).at)
      && (s.timer.Some? ==> s.timer.value.due == s.last + wait)
    decreases |inputs|
  {
    if inputs != [] {
      ThrottleKeepsItsDistance(Front(inputs), wait);
      var before, now := ThrottleRun(Front(inputs), wait), ThrottleRun(inputs, wait);
      if now.calls != before.calls {
        assert now.calls == before.calls + [Last(now.calls)];
        assert before.calls != [] ==> before.last + wait <= Last(now.calls).at;
      }
    }
  }

  /** So n calls take at least n - 1 waits. */
  lemma {:induction false} CallRateIsBounded<E>(calls: seq<Call<E>>, wait: nat, i: nat, j: nat)
    requires Spaced(calls, wait) && i <= j < |calls|
    ensures calls[i].at + (j - i) * wait <= calls[j].at
    decreases j - i
  {
    if i < j { CallRateIsBounded(calls, wait, i, j - 1); }
  }

  /** The first event held back since the last call, cancel or start: what a pending timer will deliver. */
  lemma {:induction false} WaitingIsFirstOfBurst<E>(inputs: seq<Input<E>>, wait: nat) returns (b: nat)
    requires ThrottleTrace(inputs, wait) && ThrottleRun(inputs, wait).timer.Some?
    ensures b < |inputs| && inputs[b].Event? && ThrottleRun(inputs, wait).timer.value.event == inputs[b].event
    ensures forall k :: b < k < |inputs| ==> inputs[k].Event?
    ensures ThrottleTrace(inputs[..b], wait) && ThrottleRun(inputs[..b], wait).timer.None?
    ensures forall k :: b < k <= |inputs| ==>
              ThrottleTrace(inputs[..k], wait) && ThrottleRun(inputs[..k], wait).timer.Some?
    decreases |inputs|
  {
    var init := Front(inputs);
    assert inputs[..|inputs|] == inputs && inputs[..|init|] == init;
    if ThrottleRun(init, wait).timer.None? {
      b := |init|;
    } else {
      b := WaitingIsFirstOfBurst(init, wait);
      forall k | b <= k <= |init| ensures inputs[..k] == init[..k] {}
    }
  }

  /** The trailing call gives the handler the first event of the burst it ends; that is the last one, as a trailing call
      is meant to give, if and only if no timer was set before the last event, that is, the burst has one event. */
  lemma TrailingCallGivesFirstOfBurst<E>(inputs: seq<Input<E>>, wait: nat) returns (b: nat)
    requires ThrottleTrace(inputs, wait) && inputs != [] && Last(inputs).Fire?
    ensures b < |inputs| - 1 && inputs[b].Event?
    ensures ThrottleRun(inputs, wait).calls ==
      ThrottleRun(Front(inputs), wait).calls + [Call(inputs[b].event, Last(inputs).at)]
    ensures forall k :: b < k < |inputs| - 1 ==> inputs[k].Event?
    ensures Front(Front(inputs)) == inputs[..|inputs| - 2] && ThrottleTrace(Front(Front(inputs)), wait)
    ensures b == |inputs| - 2 <==> ThrottleRun(Front(Front(inputs)), wait).timer.None?
  {
    var init := Front(inputs);
    b := WaitingIsFirstOfBurst(init, wait);
    assert init[..b] == inputs[..b];
    assert Front(init) == Front(init);
  }

  lemma ThrottleSnoc<E>(inputs: seq<Input<E>>, wait: nat, i: Input<E>)
    requires ThrottleTrace(inputs, wait) && Enabled(ThrottleRun(inputs, wait).timer, i)
    ensures ThrottleTrace(inputs + [i], wait)
    ensures ThrottleRun(inputs + [i], wait) == ThrottleStep(ThrottleRun(inputs, wait), wait, i)
  {
    assert Front(inputs + [i]) == inputs;
  }

  /** A burst of three: the first is handled, the trailing call brings the second, and the last one is lost. */
  lemma LastOfBurstIsLost<E>(a: E, b: E, c: E, at: int, wait: nat)
    requires 2 < wait <= at
    ensures var inputs := [Event(a, at), Event(b, at + 1), Event(c, at + 2), Fire(at + wait)];
      && ThrottleTrace(inputs, wait)
      && ThrottleRun(inputs, wait) == Throttle(at + wait, None, [Call(a, at), Call(b, at + wait)])
  {
    var none: seq<Input<E>> := [];
    ThrottleSnoc(none, wait, Event(a, at));
    var one := none + [Event(a, at)];
    ThrottleSnoc(one, wait, Event(b, at + 1));
    var two := one + [Event(b, at + 1)];
    ThrottleSnoc(two, wait, Event(c, at + 2));
    var three := two + [Event(c, at + 2)];
    ThrottleSnoc(three, wait, Fire(at + wait));
    assert three + [Fire(at + wait)] == [Event(a, at), Event(b, at + 1), Event(c, at + 2), Fire(at + wait)];
  }

  /** An event is never dropped without a call to follow: right after it either it was handled or a timer is set. */
  lemma EventIsHandledOrFollowed<E>(inputs: seq<Input<E>>, wait: nat)
    requires ThrottleTrace(inputs, wait) && inputs != [] && Last(inputs).Event?
    ensures var before, now := ThrottleRun(Front(inputs), wait), ThrottleRun(inputs, wait);
      || now.calls == before.calls + [Call(Last(inputs).event, Last(inputs).at)]
      || (now.calls == before.calls && now.timer.Some? && Last(inputs).at < now.timer.value.due)
  {
    ThrottleKeepsItsDistance(Front(inputs), wait);
  }

  ghost predicate LastIsAnEvent<E>(inputs: seq<Input<E>>)
    requires ThrottleTrace(inputs, 0)
  {
    exists i :: 0 <= i < |inputs| && inputs[i].Event? && inputs[i].at == ThrottleRun(inputs, 0).last
  }

  /** With a wait of 0 throttling changes nothing, as long as the clock never runs backwards: every event is handled
      when it comes. */
  lemma {:induction false} ZeroThrottleIsTransparent<E>(inputs: seq<Input<E>>)
    requires ThrottleTrace(inputs, 0)
    requires forall i :: 0 <= i < |inputs| && inputs[i].Event? ==> inputs[i].at >= 0
    requires forall i, j :: 0 <= i < j < |inputs| && inputs[i].Event? && inputs[j].Event? ==>
      inputs[i].at <= inputs[j].at
    ensures ThrottleRun(inputs, 0).timer.None? && |ThrottleRun(inputs, 0).calls| == Events(inputs)
    ensures inputs != [] && Last(inputs).Event? ==>
      ThrottleRun(inputs, 0).calls == ThrottleRun(Front(inputs), 0).calls + [Call(Last(inputs).event, Last(inputs).at)]
    ensures ThrottleRun(inputs, 0).last == 0 || LastIsAnEvent(inputs)
    decreases |inputs|
  {
    if inputs != [] {
      var init := Front(inputs);
      forall i | 0 <= i < |init| ensures init[i] == inputs[i] {}
      ZeroThrottleIsTransparent(init);
      var last := |inputs| - 1;
      assert Last(inputs) == inputs[last];
      var s := ThrottleRun(init, 0);
      if inputs[last].Event? && s.last != 0 {
        var i :| 0 <= i < |init| && init[i].Event? && init[i].at == s.last;
        assert inputs[i].at <= inputs[last].at;
      }
    }
  }

  // ---- which machine, and how long it waits -----------------------------------------------------------

  datatype Plan = Direct | Debounced(wait: nat) | Throttled(wait: nat)

  function IndexOf(tokens: seq<string>, token: string): (r: Option<nat>)
    ensures r.None? <==> token !in tokens
    ensures r.Some? ==> r.value < |tokens| && tokens[r.value] == token && token !in tokens[..r.value]
  {
    if tokens == [] then None
    else if tokens[0] == token then Some(0)
    else
      var r := IndexOf(tokens[1..], token);
      assert tokens == [tokens[0]] + tokens[1..];
      if r.None? then None
      else
        assert tokens[..r.value + 1] == [tokens[0]] + tokens[1..][..r.value];
        Some(r.value + 1)
  }

  function Digits(s: string, value: nat): nat {
    if s == "" || !('0' <= s[0] <= '9') then value else Digits(s[1..], 10 * value + (s[0] as int - '0' as int))
  }

  /** The non-negative number a token starts with: leading blanks and a sign are allowed, what follows is ignored. */
  function Numeric(token: string): Option<nat> {
    if token == "" then None
    else if ActionCalls.IsSpace(token[0]) then Numeric(token[1..])
    else
      var signed := token[0] == '-' || token[0] == '+';
      var digits := if signed then token[1..] else token;
      if digits == "" || !('0' <= digits[0] <= '9') then None
      else
        var n := Digits(digits, 0);
        if token[0] == '-' && n != 0 then None else Some(n)
  }

  // ---- which number a token starts with ------------------------------------------------------------------

  predicate IsDigit(c: char) { '0' <= c <= '9' }

  predicate AllDigits(s: string) { forall i :: 0 <= i < |s| ==> IsDigit(s[i]) }

  predicate AllSpaces(s: string) { forall i :: 0 <= i < |s| ==> ActionCalls.IsSpace(s[i]) }

  /** What digits mean in base ten, the last one counting once and the one before it ten times. */
  function Decimal(digits: string): nat
    requires AllDigits(digits)
  {
    if digits == "" then 0 else 10 * Decimal(Front(digits)) + (Last(digits) as int - '0' as int)
  }

  /** How a natural number is written. */
  function Written(n: nat): string {
    (if n < 10 then "" else Written(n / 10)) + ["0123456789"[n % 10]]
  }

  lemma {:induction false} WrittenIsDecimal(n: nat)
    ensures Written(n) != "" && AllDigits(Written(n)) && Decimal(Written(n)) == n
  {
    var s := Written(n);
    assert Last(s) as int - '0' as int == n % 10;
    if n < 10 {
      assert Front(s) == "";
    } else {
      WrittenIsDecimal(n / 10);
      assert Front(s) == Written(n / 10);
    }
  }

  lemma {:induction false} DigitsGoOn(digits: string, rest: string, value: nat)
    requires AllDigits(digits)
    ensures Digits(digits + rest, value) == Digits(rest, Digits(digits, value))
  {
    if digits == "" {
      assert digits + rest == rest;
    } else {
      assert (digits + rest)[1..] == digits[1..] + rest;
      DigitsGoOn(digits[1..], rest, 10 * value + (digits[0] as int - '0' as int));
    }
  }

  lemma {:induction false} DigitsAreDecimal(digits: string)
    requires AllDigits(digits)
    ensures Digits(digits, 0) == Decimal(digits)
  {
    if digits != "" {
      DigitsAreDecimal(Front(digits));
      assert digits == Front(digits) + [Last(digits)];
      DigitsGoOn(Front(digits), [Last(digits)], 0);
      assert [Last(digits)][1..] == "";
    }
  }

  lemma {:induction false} NumericSkipsSpaces(blanks: string, s: string)
    requires AllSpaces(blanks)
    ensures Numeric(blanks + s) == Numeric(s)
  {
    if blanks == "" {
      assert blanks + s == s;
    } else {
      assert (blanks + s)[1..] == blanks[1..] + s;
      NumericSkipsSpaces(blanks[1..], s);
    }
  }

  /** Blanks, a sign, the digits, and what comes after them: the longest possible run of each. */
  predicate Parts(blanks: string, sign: string, digits: string, rest: string) {
    && AllSpaces(blanks) && sign in {"", "+", "-"} && AllDigits(digits)
    && (rest != "" ==> !IsDigit(rest[0]))
    && (sign + digits == "" && rest != "" ==> !ActionCalls.IsSpace(rest[0]) && rest[0] != '+' && rest[0] != '-')
  }

  /** A token means the number its digits spell in base ten, whatever comes after them; it means none without a digit
      in that place, or if the number is negative. */
  lemma NumericReads(blanks: string, sign: string, digits: string, rest: string)
    requires Parts(blanks, sign, digits, rest)
    ensures Numeric(blanks + (sign + (digits + rest))) ==
      if digits == "" || (sign == "-" && Decimal(digits) != 0) then None else Some(Decimal(digits))
  {
    var number := digits + rest;
    var signed := sign + number;
    NumericSkipsSpaces(blanks, signed);
    assert sign == "" ==> signed == number;
    assert sign != "" ==> signed[1..] == number && signed[0] == sign[0];
    DigitsGoOn(digits, rest, 0);
    DigitsAreDecimal(digits);
    assert digits != "" ==> number[0] == digits[0];
    assert digits == "" ==> number == rest;
  }

  lemma {:induction false} LeadingDigits(s: string) returns (digits: string, rest: string)
    ensures s == digits + rest && AllDigits(digits) && (rest != "" ==> !IsDigit(rest[0]))
  {
    if s == "" || !IsDigit(s[0]) {
      digits, rest := "", s;
    } else {
      digits, rest := LeadingDigits(s[1..]);
      digits := [s[0]] + digits;
    }
  }

  /** Every token has these parts. */
  lemma {:induction false} TokenHasParts(token: string)
    returns (blanks: string, sign: string, digits: string, rest: string)
    ensures Parts(blanks, sign, digits, rest) && token == blanks + (sign + (digits + rest))
  {
    if token != "" && ActionCalls.IsSpace(token[0]) {
      blanks, sign, digits, rest := TokenHasParts(token[1..]);
      blanks := [token[0]] + blanks;
    } else {
      blanks, sign := "", if token != "" && (token[0] == '+' || token[0] == '-') then [token[0]] else "";
      digits, rest := LeadingDigits(token[|sign|..]);
    }
  }

  /** The number `n` is read from its decimal text, also with blanks and a plus sign before it and with anything but a
      digit behind it. */
  lemma NumericReadsWritten(blanks: string, sign: string, n: nat, rest: string)
    requires AllSpaces(blanks) && sign in {"", "+"} && (rest != "" ==> !IsDigit(rest[0]))
    ensures Numeric(blanks + (sign + (Written(n) + rest))) == Some(n)
  {
    WrittenIsDecimal(n);
    NumericReads(blanks, sign, Written(n), rest);
  }

  lemma NumericReadsNext(token: string, n: nat)
    requires token == Written(n)
    ensures Numeric(token) == Some(n)
  {
    NumericReadsWritten("", "", n, "");
    assert "" + ("" + (Written(n) + "")) == Written(n);
  }

  /** The wait of `.debounce.300` is 300. */
  lemma ThreeHundredIsRead()
    ensures Numeric("300") == Some(300)
  {
    assert Written(3) == "3" && Written(30) == "30" && Written(300) == "300";
    NumericReadsNext("300", 300);
  }

  /** The first number after the modifier is the wait; without one it is 0. A number written right after it counts. */
  method ParseWait(modifiers: seq<string>, start: nat) returns (r: nat)
    requires start < |modifiers|
    ensures (r == 0 && forall k :: start < k < |modifiers| ==> Numeric(modifiers[k]).None?) ||
      exists k :: start < k < |modifiers| && Numeric(modifiers[k]) == Some(r) &&
        forall j :: start < j < k ==> Numeric(modifiers[j]).None?
    ensures forall n: nat :: start + 1 < |modifiers| && modifiers[start + 1] == Written(n) ==> r == n
  {
    if start + 1 < |modifiers| {
      forall n: nat | modifiers[start + 1] == Written(n) ensures Numeric(modifiers[start + 1]) == Some(n) {
        NumericReadsNext(modifiers[start + 1], n);
      }
    }
    for i := start + 1 to |modifiers|
      invariant forall k :: start < k < i ==> Numeric(modifiers[k]).None?
    {
      var n := Numeric(modifiers[i]);
      if n.Some? {
        return n.value;
      }
    }
    r := 0;
  }

  /** Debouncing wins over throttling, wherever the two stand. */
  method ApplyTimingModifiers(modifiers: seq<string>) returns (r: Plan)
    ensures r.Direct? <==> "debounce" !in modifiers && "throttle" !in modifiers
    ensures r.Debounced? <==> "debounce" in modifiers
    ensures !r.Direct? ==>
      var start := IndexOf(modifiers, if r.Debounced? then "debounce" else "throttle").value;
      (r.wait == 0 && forall k :: start < k < |modifiers| ==> Numeric(modifiers[k]).None?) ||
      exists k :: start < k < |modifiers| && Numeric(modifiers[k]) == Some(r.wait) &&
        forall j :: start < j < k ==> Numeric(modifiers[j]).None?
    ensures !r.Direct? ==>
      var next := IndexOf(modifiers, if r.Debounced? then "debounce" else "throttle").value + 1;
      next < |modifiers| ==> forall n: nat :: modifiers[next] == Written(n) ==> r.wait == n
  {
    var debounce, throttle := IndexOf(modifiers, "debounce"), IndexOf(modifiers, "throttle");
    if debounce.None? && throttle.None? {
      return Direct;
    }
    var wait := ParseWait(modifiers, if debounce.Some? then debounce.value else throttle.value);
    r := if debounce.Some? then Debounced(wait) else Throttled(wait);
  }
}
