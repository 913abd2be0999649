/** The state timeline of the devtools: recording live changes, snapshots, and replaying a range in either direction.
    Captured values stand for themselves, sampling is off, and every signal of a change is still alive. */
module TimeTravel {
  import opened Prelude

  datatype Change<S, V> = Change(signal: S, oldValue: V, newValue: V)

  /** A live assignment to a signal. */
  datatype Assignment<S, V> = Assignment(signal: S, value: V)

  datatype Error = BadSpeed | BadSnapshot | BadVersion

  const HOOK_VERSION := "1.5.0"

  /** Whatever is handed to `restore`. A field is `None` where the value is missing or of the wrong type; an entry is
      `None` where it holds no value. */
  datatype RawSnapshot<S, V> =
    NotAnObject | Fields(timestamp: Option<Number>, version: Option<string>, signals: Option<map<S, Option<V>>>)

  /** The values to restore, or why they are refused. */
  function Checked<S(==), V(==)>(raw: RawSnapshot<S, V>): Result<map<S, V>, Error> {
    if raw.NotAnObject? || raw.timestamp.None? || !raw.timestamp.value.Finite? then Err(BadSnapshot)
    else if raw.signals.None? || raw.version.None? then Err(BadSnapshot)
    else if raw.version.value != HOOK_VERSION then Err(BadVersion)
    else
      var entries := raw.signals.value;
      if exists k :: k in entries && entries[k].None? then Err(BadSnapshot)
      else Ok(map k | k in entries :: entries[k].value)
  }

  /** What `restore` accepts: a finite time, version 1.5.0, and a value for every signal; those values are then the ones
      restored. Only a version that is another text is called incompatible, everything else malformed. */
  lemma AcceptedIff<S, V>(raw: RawSnapshot<S, V>)
    ensures Checked(raw).Ok? <==>
      && raw.Fields? && raw.timestamp.Some? && raw.timestamp.value.Finite? && raw.version == Some("1.5.0")
      && raw.signals.Some? && forall k :: k in raw.signals.value ==> raw.signals.value[k].Some?
    ensures Checked(raw).Ok? ==>
      && Checked(raw).value.Keys == raw.signals.value.Keys
      && forall k :: k in raw.signals.value ==> raw.signals.value[k] == Some(Checked(raw).value[k])
    ensures Checked(raw) == Err(BadVersion) <==>
      && raw.Fields? && raw.timestamp.Some? && raw.timestamp.value.Finite? && raw.signals.Some?
      && raw.version.Some? && raw.version.value != "1.5.0"
  {
  }

  function Packed<S, V>(values: map<S, V>, timestamp: real): RawSnapshot<S, V> {
    Fields(Some(Finite(timestamp)), Some(HOOK_VERSION), Some(map k | k in values :: Some(values[k])))
  }

  /** A snapshot that `snapshot` took is accepted, with the values it was taken of. */
  lemma TakenSnapshotsAreAccepted<S, V>(values: map<S, V>, timestamp: real)
    ensures Checked(Packed(values, timestamp)) == Ok(values)
  {
    var entries := map k | k in values :: Some(values[k]);
    assert (map k | k in entries :: entries[k].value) == values;
  }

  // ---- histories ---------------------------------------------------------------------------------

  ghost predicate Known<S, V>(state: map<S, V>, live: seq<Assignment<S, V>>) {
    forall i :: 0 <= i < |live| ==> live[i].signal in state
  }

  /** The signal values after the assignments. */
  function After<S(==), V>(state: map<S, V>, live: seq<Assignment<S, V>>): (r: map<S, V>)
    requires Known(state, live)
    ensures r.Keys == state.Keys
  {
    if live == [] then state
    else
      var n := |live| - 1;
      After(state, live[..n])[live[n].signal := live[n].value]
  }

  /** Every change the assignments make, in order. */
  function History<S(==), V>(state: map<S, V>, live: seq<Assignment<S, V>>): (r: seq<Change<S, V>>)
    requires Known(state, live)
    ensures |r| == |live|
  {
    if live == [] then []
    else
      var n := |live| - 1;
      History(state, live[..n]) + [Change(live[n].signal, After(state, live[..n])[live[n].signal], live[n].value)]
  }

  lemma {:induction false} HistoryAt<S, V>(state: map<S, V>, live: seq<Assignment<S, V>>, i: nat)
    requires Known(state, live) && i < |live|
    ensures History(state, live)[i] ==
      Change(live[i].signal, After(state, live[..i])[live[i].signal], live[i].value)
    ensures After(state, live[..i + 1]) == After(state, live[..i])[live[i].signal := live[i].value]
  {
    TakeTake(live, i + 1, i);
    var n := |live| - 1;
    if i < n {
      HistoryAt(state, live[..n], i);
      TakeTake(live, n, i);
      TakeTake(live, n, i + 1);
    } else {
      assert live[..n + 1] == live;
    }
  }

  /** The timeline after one more recorded change. */
  function Recorded<S, V>(timeline: seq<Change<S, V>>, signal: S, oldValue: V, newValue: V, max: nat)
    : seq<Change<S, V>>
  {
    Youngest(timeline + [Change(signal, oldValue, newValue)], max)
  }

  /** The timeline after a run of assignments, recorded one by one. */
  function RecordedAll<S(==), V>(state: map<S, V>, live: seq<Assignment<S, V>>, max: nat): seq<Change<S, V>>
    requires Known(state, live)
  {
    if live == [] then []
    else
      var n := |live| - 1;
      Recorded(RecordedAll(state, live[..n], max), live[n].signal, After(state, live[..n])[live[n].signal],
        live[n].value, max)
  }

  // ---- replay -------------------------------------------------------------------------------------

  /** Applies the new values of entries `from` up to, but not including, `to`. */
  function Redo<S(==), V>(state: map<S, V>, timeline: seq<Change<S, V>>, from: nat, to: nat): map<S, V>
    requires from <= to <= |timeline|
    decreases |timeline| - from
  {
    if from == to then state
    else
      var c := timeline[from];
      Redo(if c.signal in state then state[c.signal := c.newValue] else state, timeline, from + 1, to)
  }

  /** Applies the old values of entries `from` down to, and including, `to`. */
  function Undo<S(==), V>(state: map<S, V>, timeline: seq<Change<S, V>>, from: int, to: nat): map<S, V>
    requires to - 1 <= from < |timeline|
    decreases from - to + 1
  {
    if from < to then state
    else
      var c := timeline[from];
      Undo(if c.signal in state then state[c.signal := c.oldValue] else state, timeline, from - 1, to)
  }

  function Clamp(i: int, n: nat): (r: int)
    requires n > 0
    ensures 0 <= r < n
  {
    Max(0, Min(n - 1, i))
  }

  /** What `replay(from, to)` makes of the signal values. Equal ends count as forwards. */
  function Replayed<S(==), V>(state: map<S, V>, timeline: seq<Change<S, V>>, from: int, to: int): map<S, V> {
    if timeline == [] then state
    else
      var start, end := Clamp(from, |timeline|), Clamp(to, |timeline|);
      if start <= end then Redo(state, timeline, start, end + 1) else Undo(state, timeline, start, end)
  }

  /** An end outside the timeline counts as the nearer end of the timeline. */
  lemma ReplayStaysInside<S, V>(state: map<S, V>, timeline: seq<Change<S, V>>, from: int, to: int)
    requires timeline != []
    ensures from < 0 ==> Replayed(state, timeline, from, to) == Replayed(state, timeline, 0, to)
    ensures to < 0 ==> Replayed(state, timeline, from, to) == Replayed(state, timeline, from, 0)
    ensures from >= |timeline| ==>
      Replayed(state, timeline, from, to) == Replayed(state, timeline, |timeline| - 1, to)
    ensures to >= |timeline| ==>
      Replayed(state, timeline, from, to) == Replayed(state, timeline, from, |timeline| - 1)
  {
  }

  // ---- replay with pauses ----------------------------------------------------------------------------

  /** The assignments a replay makes, in order. */
  function Writes<S, V>(timeline: seq<Change<S, V>>, from: int, to: int): (r: seq<Assignment<S, V>>)
    ensures timeline != [] ==> |r| > 0
  {
    if timeline == [] then []
    else
      var start, end := Clamp(from, |timeline|), Clamp(to, |timeline|);
      if start <= end then
        seq(end - start + 1, i requires 0 <= i <= end - start =>
          Assignment(timeline[start + i].signal, timeline[start + i].newValue))
      else
        seq(start - end + 1, i requires 0 <= i <= start - end =>
          Assignment(timeline[start - i].signal, timeline[start - i].oldValue))
  }

  lemma WritesAt<S, V>(timeline: seq<Change<S, V>>, from: int, to: int, start: int, end: int, i: int)
    requires timeline != [] && start == Clamp(from, |timeline|) && end == Clamp(to, |timeline|)
    requires Min(start, end) <= i <= Max(start, end)
    ensures var writes, n := Writes(timeline, from, to), if start <= end then i - start else start - i;
      && |writes| == Max(end - start, start - end) + 1
      && writes[n].signal == timeline[i].signal
      && writes[n].value == if start <= end then timeline[i].newValue else timeline[i].oldValue
  {
  }

  function Set<S(==), V>(state: map<S, V>, a: Assignment<S, V>): map<S, V> {
    if a.signal in state then state[a.signal := a.value] else state
  }

  /** Between one write and the next, `meanwhile` tells what other code assigns. */
  function Amid<S(==), V>(state: map<S, V>, writes: seq<Assignment<S, V>>, meanwhile: nat -> seq<Assignment<S, V>>)
    : (r: map<S, V>)
    requires forall i: nat :: Known(state, meanwhile(i))
    ensures r.Keys == state.Keys
    decreases |writes|, 0
  {
    if writes == [] then state else Set(Ready(state, Front(writes), meanwhile), Last(writes))
  }

  /** When another write is to come: the pause before it is over. */
  function Ready<S(==), V>(state: map<S, V>, writes: seq<Assignment<S, V>>, meanwhile: nat -> seq<Assignment<S, V>>)
    : (r: map<S, V>)
    requires forall i: nat :: Known(state, meanwhile(i))
    ensures r.Keys == state.Keys
    decreases |writes|, 1
  {
    if writes == [] then state else After(Amid(state, writes, meanwhile), meanwhile(|writes| - 1))
  }

  /** The values when `n` writes are done, and the pause behind them if more are to come. */
  ghost function Stage<S, V>(state: map<S, V>, writes: seq<Assignment<S, V>>, n: nat,
                             meanwhile: nat -> seq<Assignment<S, V>>): map<S, V>
    requires (forall i: nat :: Known(state, meanwhile(i))) && n <= |writes|
  {
    if n < |writes| then Ready(state, writes[..n], meanwhile) else Amid(state, writes, meanwhile)
  }

  lemma StageStep<S, V>(state: map<S, V>, writes: seq<Assignment<S, V>>, n: nat,
                        meanwhile: nat -> seq<Assignment<S, V>>)
    requires (forall i: nat :: Known(state, meanwhile(i))) && n < |writes|
    ensures Stage(state, writes, 0, meanwhile) == state
    ensures var done := Set(Stage(state, writes, n, meanwhile), writes[n]);
      && done.Keys == state.Keys
      && Stage(state, writes, n + 1, meanwhile) == if n + 1 < |writes| then After(done, meanwhile(n)) else done
  {
    var next := writes[..n + 1];
    assert Front(next) == writes[..n] && Last(next) == writes[n] && |next| == n + 1;
    assert writes[..0] == [] && (n + 1 == |writes| ==> next == writes);
    assert Amid(state, next, meanwhile) == Set(Ready(state, writes[..n], meanwhile), writes[n]);
  }

  /** `Math.round(5 / speed)`, within 0 and 20 milliseconds. */
  function Delay(speed: real): int
    requires speed > 0.0
  {
    Min(20, Max(0, (5.0 / speed + 0.5).Floor))
  }

  predicate Waits(speed: real)
    requires speed > 0.0
  {
    speed < 100.0 && Delay(speed) > 0
  }

  /** There are pauses exactly at a speed of at most 10: at a higher one the rounded delay is 0. */
  lemma WaitsIffSlow(speed: real)
    requires speed > 0.0
    ensures Waits(speed) <==> speed <= 10.0
  {
    assert 5.0 / speed * speed == 5.0;
    assert 5.0 / speed >= 0.5 <==> speed <= 10.0;
  }

  class Devtools<S(==, !new), V(==)> {
    const maxEntries: nat
    var signals: map<S, V>
    var timeline: seq<Change<S, V>>
    var isRestoring: bool

    constructor (maxEntries: nat, signals: map<S, V>)
      ensures this.maxEntries == maxEntries && this.signals == signals && timeline == [] && !isRestoring
    {
      this.maxEntries, this.signals, timeline, isRestoring := maxEntries, signals, [], false;
    }

    /** Assigning to a signal; the change is recorded unless a replay or restore is what assigns. */
    method Assign(signal: S, value: V)
      requires signal in signals
      modifies this`signals, this`timeline
      ensures signals == old(signals)[signal := value]
      ensures timeline == if isRestoring then old(timeline)
        else Recorded(old(timeline), signal, old(signals)[signal], value, maxEntries)
    {
      var oldValue := signals[signal];
      signals := signals[signal := value];
      if isRestoring { return; }
      timeline := timeline + [Change(signal, oldValue, value)];
      ghost var all := timeline;
      while |timeline| > maxEntries
        invariant signals == old(signals)[signal := value]
        invariant |timeline| <= |all| && timeline == all[|all| - |timeline|..]
        invariant |timeline| >= Min(|all|, maxEntries)
        decreases |timeline|
      {
        timeline := timeline[1..];
      }
    }

    /** A run of assignments, one after the other. */
    method AssignAll(live: seq<Assignment<S, V>>)
      requires Known(signals, live)
      modifies this`signals, this`timeline
      ensures signals == After(old(signals), live)
      ensures isRestoring ==> timeline == old(timeline)
      ensures !isRestoring && old(timeline) == [] ==> timeline == RecordedAll(old(signals), live, maxEntries)
    {
      for i := 0 to |live|
        invariant signals == After(old(signals), live[..i])
        invariant isRestoring ==> timeline == old(timeline)
        invariant !isRestoring && old(timeline) == [] ==> timeline == RecordedAll(old(signals), live[..i], maxEntries)
      {
        assert live[..i + 1][..i] == live[..i];
        Assign(live[i].signal, live[i].value);
      }
      assert live[..|live|] == live;
    }

    method Snapshot(now: real) returns (snap: RawSnapshot<S, V>)
      ensures snap == Packed(signals, now)
    {
      snap := Packed(signals, now);
    }

    /** Puts the values of a snapshot back; signals it does not know are left alone. A malformed or incompatible one is
        refused before anything changes. */
    method Restore(raw: RawSnapshot<S, V>) returns (r: Result<(), Error>)
      modifies this
      ensures Checked(raw).Err? ==> r == Err(Checked(raw).error) && signals == old(signals) && timeline == old(timeline)
      ensures Checked(raw).Ok? ==>
                && r == Ok(()) && timeline == old(timeline) && !isRestoring
                && var snap := Checked(raw).value;
                   signals == map k | k in old(signals) :: if k in snap then snap[k] else old(signals)[k]
    {
      var checked := Checked(raw);
      if checked.Err? { return Err(checked.error); }
      PutBack(checked.value);
      return Ok(());
    }

    method PutBack(snap: map<S, V>)
      modifies this
      ensures signals == map k | k in old(signals) :: if k in snap then snap[k] else old(signals)[k]
      ensures timeline == old(timeline) && !isRestoring
    {
      isRestoring := true;
      ghost var before := signals;
      var rest := snap.Keys;
      while rest != {}
        invariant rest <= snap.Keys && isRestoring && timeline == old(timeline)
        invariant signals == map k | k in before :: if k in snap && k !in rest then snap[k] else before[k]
        decreases rest
      {
        var k :| k in rest;
        if k in signals {
          Assign(k, snap[k]);
        }
        rest := rest - {k};
      }
      isRestoring := false;
    }

    /** Restoring a snapshot undoes every assignment made since it was taken, and leaves their record alone. */
    method RestoreUndoesAssignments(live: seq<Assignment<S, V>>, now: real) returns (r: Result<(), Error>)
      requires Known(signals, live) && !isRestoring
      modifies this
      ensures r == Ok(()) && signals == old(signals)
      ensures old(timeline) == [] ==> timeline == RecordedAll(old(signals), live, maxEntries)
    {
      var snap := Snapshot(now);
      TakenSnapshotsAreAccepted(signals, now);
      AssignAll(live);
      r := Restore(snap);
    }

    method Write(a: Assignment<S, V>)
      requires isRestoring
      modifies this`signals, this`timeline
      ensures signals == Set(old(signals), a) && timeline == old(timeline)
    {
      if a.signal in signals { Assign(a.signal, a.value); }
    }

    /** Replays a part of the timeline, with a pause behind every step but the last unless the speed rounds it away.
        What other code assigns in pause `i` is `meanwhile(i)`; the timeline does not see it. */
    method Replay(from: int, to: int, speed: Number, meanwhile: nat -> seq<Assignment<S, V>>)
      returns (r: Result<(), Error>)
      requires forall i: nat :: Known(signals, meanwhile(i))
      modifies this
      ensures !speed.Finite? || speed.value <= 0.0 ==>
                r == Err(BadSpeed) && signals == old(signals) && isRestoring == old(isRestoring)
      ensures !(!speed.Finite? || speed.value <= 0.0) ==>
                && r == Ok(())
                && signals == Amid(old(signals), Writes(old(timeline), from, to),
                                   if Waits(speed.value) then meanwhile else Quiet())
      ensures timeline == old(timeline)
    {
      if !speed.Finite? || speed.value <= 0.0 { return Err(BadSpeed); }
      if timeline == [] { return Ok(()); }
      var start, end := Clamp(from, |timeline|), Clamp(to, |timeline|);
      var step := if start <= end then 1 else -1;
      ghost var m := if Waits(speed.value) then meanwhile else Quiet();
      ghost var t0, s0, writes, n := timeline, signals, Writes(timeline, from, to), 0;
      WritesAt(timeline, from, to, start, end, start);
      isRestoring := true;
      var i := start;
      while if step > 0 then i <= end else i >= end
        invariant 0 <= n <= |writes| && n == if step > 0 then i - start else start - i
        invariant isRestoring && timeline == t0
        invariant signals == Stage(s0, writes, n, m)
        decreases |writes| - n
      {
        WritesAt(t0, from, to, start, end, i);
        StageStep(s0, writes, n, m);
        Write(Assignment(timeline[i].signal, if step > 0 then timeline[i].newValue else timeline[i].oldValue));
        if i != end && Waits(speed.value) {
          AssignAll(meanwhile(if step > 0 then i - start else start - i));
        }
        i, n := i + step, n + 1;
      }
      isRestoring := false;
      return Ok(());
    }
  }

  /** Nothing happens in the pauses. */
  function Quiet<S, V>(): nat -> seq<Assignment<S, V>> { i => [] }

  lemma {:induction false} QuietRedo<S, V>(state: map<S, V>, t: seq<Change<S, V>>, start: nat, k: nat,
                                           writes: seq<Assignment<S, V>>)
    requires start + k <= |t| && |writes| == k
    requires forall i :: 0 <= i < k ==> writes[i] == Assignment(t[start + i].signal, t[start + i].newValue)
    ensures Amid(state, writes, Quiet()) == Redo(state, t, start, start + k)
    decreases k
  {
    if k > 0 {
      var end := start + k - 1;
      QuietRedo(state, t, start, k - 1, Front(writes));
      RedoSnoc(state, t, start, end);
    }
  }

  lemma {:induction false} RedoSnoc<S, V>(state: map<S, V>, t: seq<Change<S, V>>, from: nat, to: nat)
    requires from <= to < |t|
    ensures Redo(state, t, from, to + 1) ==
      Set(Redo(state, t, from, to), Assignment(t[to].signal, t[to].newValue))
    decreases |t| - from
  {
    if from < to {
      var c := t[from];
      RedoSnoc(if c.signal in state then state[c.signal := c.newValue] else state, t, from + 1, to);
    }
  }

  lemma {:induction false} QuietUndo<S, V>(state: map<S, V>, t: seq<Change<S, V>>, start: nat, k: nat,
                                           writes: seq<Assignment<S, V>>)
    requires k <= start + 1 <= |t| && |writes| == k
    requires forall i :: 0 <= i < k ==> writes[i] == Assignment(t[start - i].signal, t[start - i].oldValue)
    ensures Amid(state, writes, Quiet()) == Undo(state, t, start, start + 1 - k)
    decreases k
  {
    if k > 0 {
      QuietUndo(state, t, start, k - 1, Front(writes));
      UndoSnoc(state, t, start, start + 1 - k);
    }
  }

  lemma {:induction false} UndoSnoc<S, V>(state: map<S, V>, t: seq<Change<S, V>>, from: int, to: nat)
    requires to <= from < |t|
    ensures Undo(state, t, from, to) == Set(Undo(state, t, from, to + 1), Assignment(t[to].signal, t[to].oldValue))
    decreases from - to
  {
    if from > to {
      var c := t[from];
      UndoSnoc(if c.signal in state then state[c.signal := c.oldValue] else state, t, from - 1, to);
    }
  }

  /** A replay that nothing interrupts is the one the laws below speak of. */
  lemma QuietReplay<S, V>(state: map<S, V>, t: seq<Change<S, V>>, from: int, to: int)
    ensures Amid(state, Writes(t, from, to), Quiet()) == Replayed(state, t, from, to)
  {
    if t != [] {
      var start, end := Clamp(from, |t|), Clamp(to, |t|);
      if start <= end {
        QuietRedo(state, t, start, end - start + 1, Writes(t, from, to));
      } else {
        QuietUndo(state, t, start, start - end + 1, Writes(t, from, to));
      }
    }
  }

  predicate Assigns<S(==), V>(live: seq<Assignment<S, V>>, x: S) {
    exists i :: 0 <= i < |live| && live[i].signal == x
  }

  lemma {:induction false} AfterLeaves<S, V>(state: map<S, V>, live: seq<Assignment<S, V>>, x: S)
    requires Known(state, live) && x in state && !Assigns(live, x)
    ensures After(state, live)[x] == state[x]
  {
    if live != [] {
      var n := |live| - 1;
      assert live[n].signal != x && !Assigns(live[..n], x);
      AfterLeaves(state, live[..n], x);
    }
  }

  /** Signal `x` shows nothing of the pauses if each of them that assigns it is followed by a write to it. */
  lemma {:induction false} OverwrittenPausesLeaveNoTrace<S, V>(state: map<S, V>, writes: seq<Assignment<S, V>>,
                                                               meanwhile: nat -> seq<Assignment<S, V>>, x: S)
    requires (forall i: nat :: Known(state, meanwhile(i))) && x in state
    requires forall k: nat :: k < |writes| - 1 && Assigns(meanwhile(k), x) ==> Assigns(writes[k + 1..], x)
    ensures Amid(state, writes, meanwhile)[x] == Amid(state, writes, Quiet())[x]
  {
    if writes != [] && Last(writes).signal != x {
      var n := |writes| - 1;
      forall k: nat | k < n && Assigns(meanwhile(k), x) ensures Assigns(Front(writes)[k + 1..], x) {
        var i :| 0 <= i < |writes[k + 1..]| && writes[k + 1..][i].signal == x;
        assert writes[k + 1..][i] == writes[k + 1 + i] && k + 1 + i < n;
        assert Front(writes)[k + 1..][i].signal == x;
      }
      OverwrittenPausesLeaveNoTrace(state, Front(writes), meanwhile, x);
      if n > 0 {
        assert !Assigns(meanwhile(n - 1), x) by {
          assert Front(writes)[n..] == [];
        }
        AfterLeaves(Amid(state, Front(writes), meanwhile), meanwhile(n - 1), x);
      }
    }
  }

  /** What is assigned in a pause stays, although the timeline does not know of it, if nothing later assigns the
      signal again. */
  lemma {:induction false} PausedAssignmentStays<S, V>(state: map<S, V>, writes: seq<Assignment<S, V>>,
                                                       meanwhile: nat -> seq<Assignment<S, V>>, x: S, k: nat)
    requires (forall i: nat :: Known(state, meanwhile(i))) && x in state && k + 1 < |writes|
    requires !Assigns(writes[k + 1..], x) && forall i: nat :: k < i < |writes| - 1 ==> !Assigns(meanwhile(i), x)
    ensures Amid(state, writes, meanwhile)[x] == Ready(state, writes[..k + 1], meanwhile)[x]
  {
    var n := |writes| - 1;
    assert writes[k + 1..][n - k - 1] == Last(writes);
    assert Last(writes).signal != x;
    if n > k + 1 {
      assert Front(writes)[..k + 1] == writes[..k + 1];
      var rest, less := writes[k + 1..], Front(writes)[k + 1..];
      assert forall i :: 0 <= i < |less| ==> less[i] == rest[i];
      PausedAssignmentStays(state, Front(writes), meanwhile, x, k);
      AfterLeaves(Amid(state, Front(writes), meanwhile), meanwhile(n - 1), x);
    } else {
      assert Front(writes) == writes[..k + 1];
    }
  }

  // ---- what the timeline knows -------------------------------------------------------------------------

  /** Recording change by change, dropping the oldest as it goes, leaves the youngest part of the whole history. */
  lemma {:induction false} RecordingKeepsYoungest<S, V>(state: map<S, V>, live: seq<Assignment<S, V>>, max: nat)
    requires Known(state, live)
    ensures RecordedAll(state, live, max) == Youngest(History(state, live), max)
  {
    if live != [] { RecordingKeepsYoungest(state, Front(live), max); }
  }

  /** In the timeline, the old value of a change is the new value of the previous change of the same signal. */
  lemma {:induction false} TimelineIsChained<S, V>(state: map<S, V>, live: seq<Assignment<S, V>>, i: nat, j: nat)
    requires Known(state, live) && i < j < |live| && live[i].signal == live[j].signal
    requires forall k :: i < k < j ==> live[k].signal != live[j].signal
    ensures History(state, live)[j].oldValue == History(state, live)[i].newValue
  {
    HistoryAt(state, live, i);
    HistoryAt(state, live, j);
    ValueStays(state, live, live[j].signal, i + 1, j);
  }

  lemma {:induction false} ValueStays<S, V>(state: map<S, V>, live: seq<Assignment<S, V>>, signal: S, i: nat, j: nat)
    requires Known(state, live) && i <= j <= |live| && signal in state
    requires forall k :: i <= k < j ==> live[k].signal != signal
    ensures After(state, live[..j])[signal] == After(state, live[..i])[signal]
    decreases j
  {
    if i < j {
      HistoryAt(state, live, j - 1);
      ValueStays(state, live, signal, i, j - 1);
    }
  }

  /** What entry `i` of the timeline says about the state before and after it. */
  lemma EntryAt<S, V>(state: map<S, V>, live: seq<Assignment<S, V>>, base: nat, timeline: seq<Change<S, V>>, i: nat)
    requires Known(state, live) && base + |timeline| == |live| && timeline == History(state, live)[base..]
    requires i < |timeline|
    ensures var c, before := timeline[i], After(state, live[..base + i]);
      && c.signal in before && before[c.signal] == c.oldValue
      && After(state, live[..base + i + 1]) == before[c.signal := c.newValue]
  {
    HistoryAt(state, live, base + i);
    assert timeline[i] == History(state, live)[base + i];
  }

  lemma {:induction false} UndoGoesBack<S, V>(state: map<S, V>, live: seq<Assignment<S, V>>, base: nat,
                                              timeline: seq<Change<S, V>>, from: int, to: nat)
    requires Known(state, live) && base + |timeline| == |live| && timeline == History(state, live)[base..]
    requires to - 1 <= from < |timeline|
    ensures Undo(After(state, live[..base + from + 1]), timeline, from, to) == After(state, live[..base + to])
    decreases from - to + 1
  {
    if from >= to {
      EntryAt(state, live, base, timeline, from);
      var c, before := timeline[from], After(state, live[..base + from]);
      assert before[c.signal := c.newValue][c.signal := c.oldValue] == before;
      UndoGoesBack(state, live, base, timeline, from - 1, to);
    }
  }

  lemma {:induction false} RedoGoesForth<S, V>(state: map<S, V>, live: seq<Assignment<S, V>>, base: nat,
                                               timeline: seq<Change<S, V>>, from: nat, to: nat)
    requires Known(state, live) && base + |timeline| == |live| && timeline == History(state, live)[base..]
    requires from <= to <= |timeline|
    ensures Redo(After(state, live[..base + from]), timeline, from, to) == After(state, live[..base + to])
    decreases |timeline| - from
  {
    if from < to {
      EntryAt(state, live, base, timeline, from);
      RedoGoesForth(state, live, base, timeline, from + 1, to);
    }
  }

  lemma ReplayBackFrom<S, V>(state: map<S, V>, live: seq<Assignment<S, V>>, base: nat, t: seq<Change<S, V>>, k: nat)
    requires Known(state, live) && base + |t| == |live| && t == History(state, live)[base..] && k < |t| - 1
    ensures Replayed(After(state, live), t, |t| - 1, k) == After(state, live[..base + k])
  {
    assert live[..base + (|t| - 1) + 1] == live;
    UndoGoesBack(state, live, base, t, |t| - 1, k);
  }

  lemma ReplayLastOnly<S, V>(state: map<S, V>, live: seq<Assignment<S, V>>, base: nat, t: seq<Change<S, V>>)
    requires Known(state, live) && base + |t| == |live| && t == History(state, live)[base..] && t != []
    ensures Replayed(After(state, live), t, |t| - 1, |t| - 1) == After(state, Front(live))
      <==> Last(t).oldValue == Last(t).newValue
  {
    var last := |t| - 1;
    EntryAt(state, live, base, t, last);
    assert live[..base + last + 1] == live && live[..base + last] == Front(live);
    var now, before, c := After(state, live), After(state, live[..base + last]), t[last];
    assert Redo(now, t, last, last + 1) == now;
    assert now[c.signal] == c.newValue && before[c.signal] == c.oldValue;
    if c.oldValue == c.newValue { assert now == before; }
  }

  lemma ReplayBackIff<S, V>(state: map<S, V>, live: seq<Assignment<S, V>>, base: nat, t: seq<Change<S, V>>, k: nat)
    requires Known(state, live) && base + |t| == |live| && t == History(state, live)[base..] && k < |t|
    ensures Replayed(After(state, live), t, |t| - 1, k) == After(state, live[..base + k])
      <==> k < |t| - 1 || t[|t| - 1].oldValue == t[|t| - 1].newValue
  {
    if k < |t| - 1 {
      ReplayBackFrom(state, live, base, t, k);
    } else {
      ReplayLastOnly(state, live, base, t);
    }
  }

  /** After any run of live assignments, `replay(last, k)` shows the state just before change k of the timeline
      exactly when k is not the last change, or that change changed nothing: equal ends replay forwards, which undoes
      nothing. */
  lemma ReplayBackShowsStateBefore<S, V>(state: map<S, V>, live: seq<Assignment<S, V>>, max: nat, k: nat)
    requires Known(state, live) && k < |Youngest(History(state, live), max)|
    ensures var t := Youngest(History(state, live), max);
      var last, base := |t| - 1, |live| - |t|;
      Replayed(After(state, live), t, last, k) == After(state, live[..base + k])
      <==> k < last || t[last].oldValue == t[last].newValue
  {
    var t := Youngest(History(state, live), max);
    ReplayBackIff(state, live, |live| - |t|, t, k);
  }

  lemma ReplayForthFrom<S, V>(state: map<S, V>, live: seq<Assignment<S, V>>, base: nat, t: seq<Change<S, V>>, k: nat)
    requires Known(state, live) && base + |t| == |live| && t == History(state, live)[base..] && k < |t|
    ensures Replayed(After(state, live[..base + k]), t, k, |t| - 1) == After(state, live)
  {
    RedoGoesForth(state, live, base, t, k, |t|);
    assert live[..base + |t|] == live;
  }

  /** From the state before change k, `replay(k, last)` restores the present. */
  lemma ReplayForthRestoresPresent<S, V>(state: map<S, V>, live: seq<Assignment<S, V>>, max: nat, k: nat)
    requires Known(state, live) && k < |Youngest(History(state, live), max)|
    ensures var t := Youngest(History(state, live), max);
      var last, base := |t| - 1, |live| - |t|;
      Replayed(After(state, live[..base + k]), t, k, last) == After(state, live)
  {
    var t := Youngest(History(state, live), max);
    ReplayForthFrom(state, live, |live| - |t|, t, k);
  }
}
