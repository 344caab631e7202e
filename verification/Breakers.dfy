/**
 The half-open breaker and its rebuild from ledger rows.

 Time is a real read from the clock at each operation. The breaker keeps two flags, an opening
 stamp and counters, and moves between them lazily, when somebody looks; a run is compared with a
 history that only remembers the last opening that no close has followed.
 */
module Breakers {
  import opened Wrappers
  import opened Arith
  import opened Events

  datatype State = State(
    threshold: nat, cooldown: real, resetAfterOk: nat,
    consecutiveFailures: nat, successes: nat,
    openedAt: Option<real>, halfOpen: bool, probeInflight: bool, trips: nat)
  {
    predicate Valid() {
      threshold >= 1 && resetAfterOk >= 1 && cooldown >= 0.0
    }
  }

  function New(failures: int, cooldown: real, resetAfterOk: int): (b: State)
    ensures b.Valid() && b.openedAt == None && !b.halfOpen && !b.probeInflight && b.trips == 0
  {
    State(Max(1, failures), MaxReal(0.0, cooldown), Max(1, resetAfterOk),
          0, 0, None, false, false, 0)
  }

  // ---------------------------------------------------------------- operations on values

  /** The state after the `is_open` getter, which expires a cooldown that has run out. */
  function Look(b: State, now: real): (b': State)
    requires b.Valid()
    ensures b'.Valid()
  {
    if b.openedAt.Some? && now - b.openedAt.value >= b.cooldown
    then b.(openedAt := None, halfOpen := true, consecutiveFailures := b.threshold - 1, successes := 0)
    else b
  }

  predicate OpenAfterLook(b: State, now: real)
    requires b.Valid()
  {
    Look(b, now).openedAt.Some?
  }

  datatype Text = Open | HalfOpen | Closed

  /** What the `state` getter reads, after its look: half-open is told by the failure count alone. */
  function TextOf(b: State, now: real): Text
    requires b.Valid()
  {
    if OpenAfterLook(b, now) then Open else if Look(b, now).consecutiveFailures != 0 then HalfOpen else Closed
  }

  function Tripped(b: State, at: real): State {
    b.(openedAt := Some(at), trips := b.trips + 1, halfOpen := false,
       consecutiveFailures := b.threshold, successes := 0)
  }

  function Succeeded(b: State): State {
    if b.successes + 1 >= b.resetAfterOk
    then b.(consecutiveFailures := 0, successes := 0, openedAt := None, halfOpen := false)
    else b.(successes := b.successes + 1)
  }

  function FailedOnce(b: State, now: real): State {
    var counted := b.(consecutiveFailures := b.consecutiveFailures + 1, successes := 0);
    if counted.consecutiveFailures >= b.threshold && b.openedAt.None? then Tripped(counted, now) else counted
  }

  predicate Admits(b: State, now: real)
    requires b.Valid()
  {
    !OpenAfterLook(b, now) && Look(b, now).halfOpen && !b.probeInflight
  }

  function Admitted(b: State, now: real): State
    requires b.Valid()
  {
    if Admits(b, now) then Look(b, now).(probeInflight := true) else Look(b, now)
  }

  function Resolved(b: State, ok: bool, now: real): State {
    if !b.probeInflight then b
    else if ok then Succeeded(b.(probeInflight := false))
    else b.(probeInflight := false, consecutiveFailures := b.threshold, successes := 0,
            openedAt := Some(now), trips := b.trips + 1)
  }

  /** `sync_from_ledger` on one breaker: adopt a recorded opening unless busy with its own. */
  function Adopted(b: State, since: real, now: real): State
    requires b.Valid()
  {
    var seen := Look(b, now);
    if seen.openedAt.Some? || seen.halfOpen || seen.probeInflight then seen
    else seen.(openedAt := Some(since), trips := b.trips + 1, consecutiveFailures := b.threshold)
  }

  class Breaker {
    const threshold: nat
    const cooldown: real
    const resetAfterOk: nat
    var consecutiveFailures: nat
    var successes: nat
    var openedAt: Option<real>
    var halfOpen: bool
    var probeInflight: bool
    var trips: nat

    function View(): State
      reads this
    {
      State(threshold, cooldown, resetAfterOk, consecutiveFailures, successes, openedAt, halfOpen, probeInflight, trips)
    }

    constructor (failures: int, cooldown: real, resetAfterOk: int)
      ensures View() == New(failures, cooldown, resetAfterOk)
    {
      threshold := Max(1, failures);
      this.cooldown := MaxReal(0.0, cooldown);
      this.resetAfterOk := Max(1, resetAfterOk);
      consecutiveFailures, successes, openedAt, halfOpen, probeInflight, trips := 0, 0, None, false, false, 0;
    }

    method IsOpen(now: real) returns (open: bool)
      requires View().Valid()
      modifies this
      ensures View() == Look(old(View()), now) && open == OpenAfterLook(old(View()), now)
    {
      if openedAt.None? {
        return false;
      }
      if now - openedAt.value >= cooldown {
        openedAt := None;
        halfOpen := true;
        consecutiveFailures := threshold - 1;
        successes := 0;
        return false;
      }
      return true;
    }

    method ReadState(now: real) returns (text: Text)
      requires View().Valid()
      modifies this
      ensures View() == Look(old(View()), now) && text == TextOf(old(View()), now)
    {
      var open := IsOpen(now);
      if open {
        return Text.Open;
      }
      return if consecutiveFailures != 0 then HalfOpen else Closed;
    }

    method Trip(at: Option<real>, now: real)
      modifies this
      ensures View() == Tripped(old(View()), at.GetOr(now))
    {
      openedAt := Some(at.GetOr(now));
      trips := trips + 1;
      halfOpen := false;
      consecutiveFailures := threshold;
      successes := 0;
    }

    method RecordSuccess()
      modifies this
      ensures View() == Succeeded(old(View()))
    {
      successes := successes + 1;
      if successes >= resetAfterOk {
        consecutiveFailures := 0;
        successes := 0;
        openedAt := None;
        halfOpen := false;
      }
    }

    method RecordFailure(now: real)
      modifies this
      ensures View() == FailedOnce(old(View()), now)
    {
      consecutiveFailures := consecutiveFailures + 1;
      successes := 0;
      if consecutiveFailures >= threshold && openedAt.None? {
        Trip(None, now);
      }
    }

    method AdmitProbe(now: real) returns (admitted: bool)
      requires View().Valid()
      modifies this
      ensures View() == Admitted(old(View()), now) && admitted == Admits(old(View()), now)
    {
      var open := IsOpen(now);
      if open {
        return false;
      }
      if !halfOpen || probeInflight {
        return false;
      }
      probeInflight := true;
      return true;
    }

    /** Errs when no probe is in flight. */
    method ResolveProbe(ok: bool, now: real) returns (r: Result<(), string>)
      modifies this
      ensures View() == Resolved(old(View()), ok, now) && (r.Ok? <==> old(probeInflight))
    {
      if !probeInflight {
        return Err("no probe inflight to resolve");
      }
      probeInflight := false;
      if ok {
        RecordSuccess();
      } else {
        consecutiveFailures := threshold;
        successes := 0;
        openedAt := Some(now);
        trips := trips + 1;
      }
      return Ok(());
    }

    method Adopt(since: real, now: real)
      requires View().Valid()
      modifies this
      ensures View() == Adopted(old(View()), since, now)
    {
      var open := IsOpen(now);
      if open || halfOpen || probeInflight {
        return;
      }
      openedAt := Some(since);
      trips := trips + 1;
      consecutiveFailures := threshold;
    }
  }

  // ---------------------------------------------------------------- runs

  datatype Op = IsOpen | Trip(at: Option<real>) | Success | Failure | Admit | Resolve(ok: bool) | Adopt(since: real)

  datatype Timed = Timed(now: real, op: Op)

  function Step(b: State, e: Timed): (b': State)
    requires b.Valid()
    ensures b'.Valid()
  {
    match e.op
    case IsOpen => Look(b, e.now)
    case Trip(at) => Tripped(b, at.GetOr(e.now))
    case Success => Succeeded(b)
    case Failure => FailedOnce(b, e.now)
    case Admit => Admitted(b, e.now)
    case Resolve(ok) => Resolved(b, ok, e.now)
    case Adopt(since) => Adopted(b, since, e.now)
  }

  /** Where the breaker and its history stand: the standing opening, and how many probes went in and came back. */
  datatype History = History(b: State, standing: Option<real>, admitted: nat, resolved: nat)

  /** The stamp an opening by this operation carries. */
  function Stamp(e: Timed): real {
    match e.op
    case Trip(at) => at.GetOr(e.now)
    case Adopt(since) => since
    case _ => e.now
  }

  /** A success that completes the streak. */
  predicate Closes(b: State, op: Op) {
    (op.Success? || (op.Resolve? && op.ok && b.probeInflight)) && b.successes + 1 >= b.resetAfterOk
  }

  /** An opening is a step that counts a trip; it stands until a close. */
  function Advance(s: History, e: Timed): History
    requires s.b.Valid()
  {
    var b' := Step(s.b, e);
    History(
      b',
      if b'.trips != s.b.trips then Some(Stamp(e)) else if Closes(s.b, e.op) then None else s.standing,
      s.admitted + (if e.op.Admit? && Admits(s.b, e.now) then 1 else 0),
      s.resolved + (if e.op.Resolve? && s.b.probeInflight then 1 else 0))
  }

  function Run(s: History, es: seq<Timed>): (r: History)
    requires s.b.Valid()
    ensures r.b.Valid()
  {
    if es == [] then s else Advance(Run(s, es[..|es| - 1]), es[|es| - 1])
  }

  predicate Monotone(es: seq<Timed>) {
    forall i, j | 0 <= i < j < |es| :: es[i].now <= es[j].now
  }

  predicate Inv(s: History, cooldown: real, now: real) {
    && s.b.Valid() && s.b.cooldown == cooldown
    && s.admitted == s.resolved + (if s.b.probeInflight then 1 else 0)
    && (match s.standing
        case None => s.b.openedAt.None? && !s.b.halfOpen
        case Some(since) =>
          s.b.openedAt == Some(since) || (s.b.openedAt.None? && s.b.halfOpen && since + cooldown <= now))
  }

  lemma AdvanceKeepsInv(s: History, e: Timed, cooldown: real, before: real)
    requires Inv(s, cooldown, before) && before <= e.now
    ensures Inv(Advance(s, e), cooldown, e.now)
  {
  }

  lemma {:induction false} RunKeepsInv(s: History, start: real, es: seq<Timed>, now: real)
    requires Inv(s, s.b.cooldown, start)
    requires Monotone(es) && start <= now && forall i | 0 <= i < |es| :: start <= es[i].now <= now
    ensures Inv(Run(s, es), s.b.cooldown, now)
    decreases |es|
  {
    if es != [] {
      var n := |es| - 1;
      RunKeepsInv(s, start, es[..n], es[n].now);
      AdvanceKeepsInv(Run(s, es[..n]), es[n], s.b.cooldown, es[n].now);
    }
  }

  /**
   In every run on a monotone clock, at every operation: the breaker is open exactly while the standing
   opening is less than a cooldown old, a probe is admitted exactly when that cooldown has passed and no
   probe is out, and at most one probe is ever out.
   */
  lemma ProbesWaitOutTheCooldown(start: History, t0: real, es: seq<Timed>, i: nat)
    requires Inv(start, start.b.cooldown, t0)
    requires Monotone(es) && i < |es| && t0 <= es[0].now
    ensures var s := Run(start, es[..i]); var now := es[i].now;
            && (OpenAfterLook(s.b, now) <==> s.standing.Some? && now - s.standing.value < start.b.cooldown)
            && (Admits(s.b, now)
                <==> s.standing.Some? && now - s.standing.value >= start.b.cooldown && s.admitted == s.resolved)
            && s.resolved <= s.admitted <= s.resolved + 1
  {
    RunKeepsInv(start, t0, es[..i], es[i].now);
  }

  // ---------------------------------------------------------------- what the code does not promise

  /** An operation that leaves the breaker open with a stamp that is already a cooldown old. */
  predicate OpensStale(b: State, e: Timed) {
    || (e.op.Trip? && e.now - e.op.at.GetOr(e.now) >= b.cooldown)
    || (e.op == Resolve(false) && b.probeInflight && b.cooldown == 0.0)
  }

  /**
   A breaker can leave its open state inside the cooldown: exactly when a success completes the streak, a
   trip is stamped a whole cooldown back, or a probe fails under a cooldown of zero.
   */
  lemma ClosesInsideCooldownExactly(b: State, e: Timed)
    requires b.Valid() && OpenAfterLook(b, e.now)
    ensures !OpenAfterLook(Step(b, e), e.now) <==> Closes(b, e.op) || OpensStale(b, e)
  {
    match e.op
    case Success => assert e.op.Success?;
    case Failure =>
    case _ =>
  }

  lemma SuccessClosesInsideCooldown()
    ensures var b := Step(New(1, 1800.0, 1), Timed(0.0, Failure));
            OpenAfterLook(b, 1.0) && !OpenAfterLook(Step(b, Timed(1.0, Success)), 1.0)
  {
  }

  /** Open by its stamp and half-open by its flag. */
  predicate Both(b: State) {
    b.openedAt.Some? && b.halfOpen
  }

  /** A probe fails while the flag is still up. */
  predicate FailsHalfOpen(b: State, e: Timed) {
    e.op == Resolve(false) && b.probeInflight && b.halfOpen
  }

  /** A look once the cooldown has run out, a trip, or a close. */
  predicate Clears(b: State, e: Timed) {
    || ((e.op.IsOpen? || e.op.Admit? || e.op.Adopt?) && b.openedAt.Some? && e.now - b.openedAt.value >= b.cooldown)
    || e.op.Trip?
    || Closes(b, e.op)
  }

  /** One step leaves both set exactly when a half-open probe fails, or both were set and nothing clears them. */
  lemma BothAfterStepExactly(b: State, e: Timed)
    requires b.Valid()
    ensures Both(Step(b, e)) <==> FailsHalfOpen(b, e) || (Both(b) && !Clears(b, e))
  {
  }

  /** The i-th operation of a run is a half-open probe failing, and nothing has cleared the flags since. */
  predicate BothSince(start: History, es: seq<Timed>, i: nat)
    requires start.b.Valid() && i < |es|
  {
    && FailsHalfOpen(Run(start, es[..i]).b, es[i])
    && forall j | i < j < |es| :: !Clears(Run(start, es[..j]).b, es[j])
  }

  lemma BothSinceSnoc(start: History, es: seq<Timed>, i: nat)
    requires start.b.Valid() && i < |es|
    ensures var n := |es| - 1; var last := Run(start, es[..n]).b;
            if i == n then BothSince(start, es, i) <==> FailsHalfOpen(last, es[n])
            else BothSince(start, es, i) <==> BothSince(start, es[..n], i) && !Clears(last, es[n])
  {
    hide FailsHalfOpen, Clears, Run;
    var n := |es| - 1;
    if i < n {
      assert forall j | 0 <= j <= n :: es[..n][..j] == es[..j];
      assert forall j | 0 <= j < n :: es[..n][j] == es[j];
      assert BothSince(start, es, i) ==> !Clears(Run(start, es[..n]).b, es[n]);
    }
  }

  /**
   At the end of any run that starts otherwise, a breaker is open and half-open at once exactly when a
   half-open probe has failed and nothing has cleared the flags since.
   */
  lemma {:induction false} BothExactly(start: History, es: seq<Timed>)
    requires start.b.Valid() && !Both(start.b)
    ensures Both(Run(start, es).b) <==> exists i: nat | i < |es| :: BothSince(start, es, i)
    decreases |es|
  {
    hide FailsHalfOpen, Clears, Both, Step, BothSince;
    if es != [] {
      var n := |es| - 1;
      BothExactly(start, es[..n]);
      BothAfterStepExactly(Run(start, es[..n]).b, es[n]);
      forall i: nat | i < |es|
        ensures BothSince(start, es, i)
                <==> if i == n then FailsHalfOpen(Run(start, es[..n]).b, es[n])
                     else BothSince(start, es[..n], i) && !Clears(Run(start, es[..n]).b, es[n])
      {
        BothSinceSnoc(start, es, i);
      }
      if FailsHalfOpen(Run(start, es[..n]).b, es[n]) {
        assert BothSince(start, es, n);
      } else if Both(Run(start, es).b) {
        var i: nat :| i < n && BothSince(start, es[..n], i);
        assert BothSince(start, es, i);
      }
      if i: nat :| i < n && BothSince(start, es, i) {
        assert BothSince(start, es[..n], i);
      }
    }
  }

  /** The shortest such run: trip, probe after the cooldown, failed probe. */
  lemma FailedProbeLeavesHalfOpen()
    ensures var es := [Timed(0.0, Failure), Timed(60.0, Admit), Timed(61.0, Resolve(false))];
            var b := Step(Step(Step(New(1, 60.0, 1), es[0]), es[1]), es[2]);
            b.openedAt == Some(61.0) && b.halfOpen
  {
  }

  // ---------------------------------------------------------------- rebuilding from the ledger

  const BREAKER_NAMES: seq<string> := ["data_stale", "loss_velocity", "exec_errors"]

  /** Reading a stamp; an unreadable one is skipped. */
  type StampReader = string -> Option<real>

  /** The row decides whether this breaker is open: a reset, or a trip whose stamp can be read. */
  predicate Decides(e: Event, name: string, read: StampReader) {
    || (e.payload.BreakerReset? && e.payload.breaker == name)
    || (e.payload.BreakerTripped? && e.payload.breaker == name && read(e.tsUtc).Some?)
  }

  /** The stamp of the last deciding row, if that row is a trip. */
  function OpenSince(events: seq<Event>, name: string, read: StampReader): Option<real> {
    if events == [] then None
    else
      var last := events[|events| - 1];
      if !Decides(last, name, read) then OpenSince(events[..|events| - 1], name, read)
      else if last.payload.BreakerTripped? then read(last.tsUtc)
      else None
  }

  function TripCount(events: seq<Event>, name: string, read: StampReader): nat {
    if events == [] then 0
    else
      var last := events[|events| - 1];
      TripCount(events[..|events| - 1], name, read)
      + (if last.payload.BreakerTripped? && Decides(last, name, read) then 1 else 0)
  }

  /** Row i is a readable trip of the breaker and no later row decides. */
  predicate LastIsTrip(events: seq<Event>, name: string, read: StampReader, i: nat)
    requires i < |events|
  {
    && events[i].payload.BreakerTripped? && Decides(events[i], name, read)
    && forall j | i < j < |events| :: !Decides(events[j], name, read)
  }

  lemma {:induction false} OpenSinceIsTheLastTrip(events: seq<Event>, name: string, read: StampReader, since: real)
    ensures OpenSince(events, name, read) == Some(since)
            <==> exists i: nat | i < |events| ::
                   LastIsTrip(events, name, read, i) && read(events[i].tsUtc) == Some(since)
  {
    if events != [] {
      var n := |events| - 1;
      var before := events[..n];
      OpenSinceIsTheLastTrip(before, name, read, since);
      if Decides(events[n], name, read) {
        if OpenSince(events, name, read) == Some(since) {
          assert LastIsTrip(events, name, read, n);
        }
      } else {
        forall i: nat | i < n
          ensures LastIsTrip(events, name, read, i) == LastIsTrip(before, name, read, i)
        {
          assert forall j | i < j < n :: before[j] == events[j];
        }
        if i: nat :| i < n && LastIsTrip(before, name, read, i) && read(before[i].tsUtc) == Some(since) {
          assert LastIsTrip(events, name, read, i) && read(events[i].tsUtc) == Some(since);
        }
        if i: nat :| i < |events| && LastIsTrip(events, name, read, i) && read(events[i].tsUtc) == Some(since) {
          assert i < n && LastIsTrip(before, name, read, i) && read(before[i].tsUtc) == Some(since);
        }
      }
    }
  }

  /** The scan over all rows: openings not yet reset, and trips counted. */
  method ScanOpenings(events: seq<Event>, read: StampReader)
    returns (openSince: map<string, real>, trips: map<string, nat>)
    ensures forall name | name in BREAKER_NAMES ::
              && (name in openSince <==> OpenSince(events, name, read).Some?)
              && (name in openSince ==> OpenSince(events, name, read) == Some(openSince[name]))
              && (if name in trips then trips[name] else 0) == TripCount(events, name, read)
  {
    openSince, trips := map[], map[];
    ghost var seen: seq<Event> := [];
    for i := 0 to |events|
      invariant seen == events[..i]
      invariant forall name | name in BREAKER_NAMES ::
                  && (name in openSince <==> OpenSince(seen, name, read).Some?)
                  && (name in openSince ==> OpenSince(seen, name, read) == Some(openSince[name]))
                  && (if name in trips then trips[name] else 0) == TripCount(seen, name, read)
    {
      var event := events[i];
      assert (seen + [event])[..|seen|] == seen;
      seen := seen + [event];
      if event.payload.BreakerTripped? {
        var name := event.payload.breaker;
        var at := read(event.tsUtc);
        if name in BREAKER_NAMES && at.Some? {
          openSince := openSince[name := at.value];
          trips := trips[name := (if name in trips then trips[name] else 0) + 1];
        }
      } else if event.payload.BreakerReset? {
        var name := event.payload.breaker;
        if name in BREAKER_NAMES {
          openSince := openSince - {name};
        }
      }
    }
    assert seen == events;
  }

  /** A new breaker with the recorded opening put back. */
  function Restored(b: State, since: Option<real>, trips: nat): State {
    if since.Some? then b.(openedAt := since, trips := trips, consecutiveFailures := b.threshold) else b
  }

  function Rebuilt(b: State, events: seq<Event>, name: string, read: StampReader): State {
    Restored(b, OpenSince(events, name, read), TripCount(events, name, read))
  }

  class BreakerSet {
    const dataStale: Breaker
    const lossVelocity: Breaker
    const execErrors: Breaker

    constructor ()
      ensures dataStale.View() == New(3, 60.0, 3) && fresh(dataStale)
      ensures lossVelocity.View() == New(1, 1800.0, 1) && fresh(lossVelocity)
      ensures execErrors.View() == New(3, 900.0, 1) && fresh(execErrors)
      ensures dataStale != lossVelocity && dataStale != execErrors && lossVelocity != execErrors
    {
      dataStale := new Breaker(3, 60.0, 3);
      lossVelocity := new Breaker(1, 1800.0, 1);
      execErrors := new Breaker(3, 900.0, 1);
    }

    constructor Rebuild(events: seq<Event>, read: StampReader)
      ensures dataStale.View()
              == Rebuilt(New(3, 60.0, 3), events, "data_stale", read)
      ensures lossVelocity.View()
              == Rebuilt(New(1, 1800.0, 1), events, "loss_velocity", read)
      ensures execErrors.View()
              == Rebuilt(New(3, 900.0, 1), events, "exec_errors", read)
    {
      dataStale := new Breaker(3, 60.0, 3);
      lossVelocity := new Breaker(1, 1800.0, 1);
      execErrors := new Breaker(3, 900.0, 1);
      new;
      var openSince, trips := ScanOpenings(events, read);
      PutBack(dataStale, events, "data_stale", read, openSince, trips);
      PutBack(lossVelocity, events, "loss_velocity", read, openSince, trips);
      PutBack(execErrors, events, "exec_errors", read, openSince, trips);
    }

    /** One breaker of the loop over the recorded openings. */
    static method PutBack(breaker: Breaker, ghost events: seq<Event>, name: string, ghost read: StampReader,
                          openSince: map<string, real>, trips: map<string, nat>)
      requires name in openSince <==> OpenSince(events, name, read).Some?
      requires name in openSince ==> OpenSince(events, name, read) == Some(openSince[name])
      requires (if name in trips then trips[name] else 0) == TripCount(events, name, read)
      modifies breaker
      ensures breaker.View() == Rebuilt(old(breaker.View()), events, name, read)
    {
      if name in openSince {
        AnOpeningWasCounted(events, name, read);
        breaker.openedAt := Some(openSince[name]);
        breaker.trips := if name in trips then trips[name] else 1;
        breaker.consecutiveFailures := breaker.threshold;
      }
    }
  }

  lemma {:induction false} AnOpeningWasCounted(events: seq<Event>, name: string, read: StampReader)
    requires OpenSince(events, name, read).Some?
    ensures TripCount(events, name, read) >= 1
  {
    if events != [] && !Decides(events[|events| - 1], name, read) {
      AnOpeningWasCounted(events[..|events| - 1], name, read);
    }
  }

  /**
   What the rows say is what the rebuilt breaker does: it is open at a time exactly when the last deciding
   row is a trip less than one cooldown old, and otherwise that trip admits a probe.
   */
  lemma {:induction false} RestoredIsOpenExactly(b: State, events: seq<Event>, name: string,
                                                 read: StampReader, now: real)
    requires b.Valid() && b.openedAt.None? && !b.halfOpen && !b.probeInflight
    ensures var r := Rebuilt(b, events, name, read);
            && (OpenAfterLook(r, now)
                <==> exists i: nat | i < |events| ::
                       LastIsTrip(events, name, read, i) && now - read(events[i].tsUtc).value < b.cooldown)
            && (Admits(r, now)
                <==> exists i: nat | i < |events| ::
                       LastIsTrip(events, name, read, i) && now - read(events[i].tsUtc).value >= b.cooldown)
  {
    var since := OpenSince(events, name, read);
    if since.Some? {
      OpenSinceIsTheLastTrip(events, name, read, since.value);
    }
    forall i: nat | i < |events| && LastIsTrip(events, name, read, i)
      ensures since == read(events[i].tsUtc)
    {
      OpenSinceIsTheLastTrip(events, name, read, read(events[i].tsUtc).value);
    }
  }

  /** A new or a restored breaker is a start of such a run; the restored one still owes its cooldown. */
  lemma RestoredStartsARun(failures: int, cooldown: real, resetAfterOk: int, events: seq<Event>, name: string,
                           read: StampReader, t0: real)
    ensures var b, since := New(failures, cooldown, resetAfterOk), OpenSince(events, name, read);
            && Inv(History(b, None, 0, 0), b.cooldown, t0)
            && Inv(History(Rebuilt(b, events, name, read), since, 0, 0), b.cooldown, t0)
  {
  }
}
