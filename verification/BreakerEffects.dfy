/**
 What each breaker operation does to each field, told by effect rather than by operation, and what a
 streak of failures or successes does.
 */
module BreakerEffects {
  import opened Wrappers
  import opened Events
  import opened Breakers

  // ---------------------------------------------------------------- one operation

  /** An operation that looks, once the cooldown has run out. */
  predicate Expires(b: State, e: Timed) {
    (e.op.IsOpen? || e.op.Admit? || e.op.Adopt?) && b.openedAt.Some? && e.now - b.openedAt.value >= b.cooldown
  }

  /** A trip, the failure that completes a streak while not open, a failed probe, an opening adopted when idle. */
  predicate Opens(b: State, e: Timed) {
    || e.op.Trip?
    || (e.op.Failure? && b.openedAt.None? && b.consecutiveFailures + 1 >= b.threshold)
    || (e.op == Resolve(false) && b.probeInflight)
    || (e.op.Adopt? && b.openedAt.None? && !b.halfOpen && !b.probeInflight)
  }

  predicate CountsSuccess(b: State, e: Timed) {
    e.op.Success? || (e.op == Resolve(true) && b.probeInflight)
  }

  predicate Resets(b: State, e: Timed) {
    CountsSuccess(b, e) && b.successes + 1 >= b.resetAfterOk
  }

  /** The opening and the half-open flag: four effects exclude one another, and anything else moves neither. */
  lemma OpeningAfterStep(b: State, e: Timed)
    requires b.Valid()
    ensures var b' := Step(b, e);
            && (Opens(b, e) ==>
                  && b'.openedAt == Some(if e.op.Adopt? then e.op.since
                                         else if e.op.Trip? && e.op.at.Some? then e.op.at.value
                                         else e.now)
                  && b'.halfOpen == (b.halfOpen && e.op.Resolve?))
            && (Expires(b, e) ==> b'.openedAt.None? && b'.halfOpen)
            && (Resets(b, e) ==> b'.openedAt.None? && !b'.halfOpen)
            && (!Opens(b, e) && !Expires(b, e) && !Resets(b, e) ==>
                  b'.openedAt == b.openedAt && b'.halfOpen == b.halfOpen)
    ensures !(Opens(b, e) && Expires(b, e)) && !(Opens(b, e) && Resets(b, e)) && !(Expires(b, e) && Resets(b, e))
  {
  }

  /** The counters: each opening is one trip, and a failure of any kind starts the success streak over. */
  lemma CountersAfterStep(b: State, e: Timed)
    requires b.Valid()
    ensures var b' := Step(b, e);
            && b'.trips == b.trips + (if Opens(b, e) then 1 else 0)
            && b'.consecutiveFailures == (if Opens(b, e) then b.threshold
                                          else if Resets(b, e) then 0
                                          else if Expires(b, e) then b.threshold - 1
                                          else if e.op.Failure? then b.consecutiveFailures + 1
                                          else b.consecutiveFailures)
            && b'.successes == (if Resets(b, e) || Expires(b, e) || e.op.Failure? || (Opens(b, e) && !e.op.Adopt?)
                                then 0
                                else if CountsSuccess(b, e) then b.successes + 1
                                else b.successes)
  {
  }

  /** A probe is out from its admission to its outcome, and the settings never change. */
  lemma ProbeAfterStep(b: State, e: Timed)
    requires b.Valid()
    ensures var b' := Step(b, e);
            && b'.probeInflight == (if e.op.Resolve? then false
                                    else b.probeInflight
                                         || (e.op.Admit? && (Expires(b, e) || (b.openedAt.None? && b.halfOpen))))
            && b'.threshold == b.threshold && b'.cooldown == b.cooldown && b'.resetAfterOk == b.resetAfterOk
  {
  }

  /** The text read: open within the cooldown; past it half-open unless one failure is the threshold. */
  lemma TextAsRead(b: State, now: real)
    requires b.Valid()
    ensures TextOf(b, now) == Text.Open <==> b.openedAt.Some? && now - b.openedAt.value < b.cooldown
    ensures b.openedAt.Some? && now - b.openedAt.value >= b.cooldown ==>
              TextOf(b, now) == if b.threshold > 1 then HalfOpen else Closed
    ensures b.openedAt.None? ==> TextOf(b, now) == if b.consecutiveFailures > 0 then HalfOpen else Closed
  {
  }

  /** A new breaker is closed, with its settings raised to the least that make sense. */
  lemma NewAsAsked(failures: int, cooldown: real, resetAfterOk: int)
    ensures var b := New(failures, cooldown, resetAfterOk);
            && b.threshold == (if failures >= 1 then failures else 1)
            && b.resetAfterOk == (if resetAfterOk >= 1 then resetAfterOk else 1)
            && b.cooldown == (if cooldown >= 0.0 then cooldown else 0.0)
            && b.consecutiveFailures == 0 && b.successes == 0 && b.trips == 0
            && b.openedAt.None? && !b.halfOpen && !b.probeInflight
  {
  }

  // ---------------------------------------------------------------- streaks

  /** The same operation at each of the times. */
  function Repeat(b: State, op: Op, times: seq<real>): (r: State)
    requires b.Valid()
    ensures r.Valid()
  {
    if times == [] then b
    else Step(Repeat(b, op, times[..|times| - 1]), Timed(times[|times| - 1], op))
  }

  /** Failures in a row: below the threshold nothing opens; the one that reaches it does, and later ones keep it. */
  lemma {:induction false} FailuresInARow(b: State, times: seq<real>)
    requires b.Valid() && b.openedAt.None? && b.consecutiveFailures < b.threshold
    ensures var r, needed := Repeat(b, Failure, times), b.threshold - b.consecutiveFailures;
            if |times| < needed
            then r.openedAt.None? && r.trips == b.trips && r.halfOpen == b.halfOpen
                 && r.consecutiveFailures == b.consecutiveFailures + |times|
            else r.openedAt == Some(times[needed - 1]) && r.trips == b.trips + 1 && !r.halfOpen
                 && r.consecutiveFailures >= r.threshold
    ensures Repeat(b, Failure, times).threshold == b.threshold
    decreases |times|
  {
    if times != [] {
      FailuresInARow(b, times[..|times| - 1]);
    }
  }

  /** Successes in a row: below `resetAfterOk` they only count; the one that reaches it closes the breaker. */
  lemma {:induction false} SuccessesInARow(b: State, times: seq<real>)
    requires b.Valid() && b.successes == 0 && |times| <= b.resetAfterOk
    ensures Repeat(b, Success, times)
            == if |times| < b.resetAfterOk then b.(successes := |times|)
               else b.(successes := 0, consecutiveFailures := 0, openedAt := None, halfOpen := false)
    decreases |times|
  {
    if times != [] {
      SuccessesInARow(b, times[..|times| - 1]);
    }
  }

  /**
   Hysteresis: after a failure, a trip, a failed probe or the end of a cooldown, whatever was counted
   before, `resetAfterOk` successes in a row close the breaker and fewer change neither flag.
   */
  lemma FailureBreaksTheStreak(b: State, e: Timed, times: seq<real>)
    requires b.Valid() && |times| <= b.resetAfterOk
    requires e.op.Failure? || e.op.Trip? || Expires(b, e) || (e.op == Resolve(false) && b.probeInflight)
    ensures var hit := Step(b, e); var r := Repeat(hit, Success, times);
            if |times| < b.resetAfterOk
            then r.openedAt == hit.openedAt && r.halfOpen == hit.halfOpen
                 && r.consecutiveFailures == hit.consecutiveFailures
            else r.openedAt.None? && !r.halfOpen && r.consecutiveFailures == 0
  {
    CountersAfterStep(b, e);
    ProbeAfterStep(b, e);
    SuccessesInARow(Step(b, e), times);
  }

  /** Once a cooldown is seen to have run out, one failure opens the breaker again. */
  lemma ExpiredOpensAtOneFailure(b: State, e: Timed, at: real)
    requires b.Valid() && Expires(b, e)
    ensures var r := Step(Step(b, e), Timed(at, Failure));
            r.openedAt == Some(at) && r.trips == b.trips + 1 && !r.halfOpen
  {
  }

  // ---------------------------------------------------------------- what the rows say

  predicate TripRow(e: Event, name: string, read: StampReader) {
    e.payload.BreakerTripped? && e.payload.breaker == name && read(e.tsUtc).Some?
  }

  predicate ResetRow(e: Event, name: string) {
    e.payload.BreakerReset? && e.payload.breaker == name
  }

  /** The recorded opening: a readable trip of the name, with no later reset of it nor readable trip. */
  lemma OpenSinceSpelledOut(events: seq<Event>, name: string, read: StampReader, since: real)
    ensures OpenSince(events, name, read) == Some(since)
            <==> exists i | 0 <= i < |events| ::
                   && TripRow(events[i], name, read) && read(events[i].tsUtc) == Some(since)
                   && forall j | i < j < |events| ::
                        !TripRow(events[j], name, read) && !ResetRow(events[j], name)
  {
    OpenSinceIsTheLastTrip(events, name, read, since);
    forall i: nat | i < |events|
      ensures LastIsTrip(events, name, read, i)
              <==> && TripRow(events[i], name, read)
                   && forall j | i < j < |events| ::
                        !TripRow(events[j], name, read) && !ResetRow(events[j], name)
    {
      assert forall j | i < j < |events| ::
          Decides(events[j], name, read) <==> TripRow(events[j], name, read) || ResetRow(events[j], name);
    }
  }

  /** The recorded trips are the readable trip rows of the name. */
  lemma {:induction false} TripCountIsTheRows(events: seq<Event>, name: string, read: StampReader)
    ensures TripCount(events, name, read) == |set i | 0 <= i < |events| && TripRow(events[i], name, read)|
  {
    var rows := set i | 0 <= i < |events| && TripRow(events[i], name, read);
    if events == [] {
      assert rows == {};
    } else {
      var n := |events| - 1;
      TripCountIsTheRows(events[..n], name, read);
      var before := set i | 0 <= i < n && TripRow(events[..n][i], name, read);
      assert rows == before + (if TripRow(events[n], name, read) then {n} else {});
    }
  }

  /** A rebuilt breaker with a recorded opening is open since then, as full of failures and with its trips counted. */
  lemma RebuiltAsRecorded(b: State, events: seq<Event>, name: string, read: StampReader, since: real)
    requires OpenSince(events, name, read) == Some(since)
    ensures var r := Rebuilt(b, events, name, read);
            && r.openedAt == Some(since) && r.consecutiveFailures == b.threshold
            && r.trips == |set i | 0 <= i < |events| && TripRow(events[i], name, read)|
            && r.halfOpen == b.halfOpen && r.probeInflight == b.probeInflight && r.successes == b.successes
  {
    TripCountIsTheRows(events, name, read);
  }
}
