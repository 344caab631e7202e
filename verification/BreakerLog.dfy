/**
 What the live breakers leave in the ledger, and when a restart from it is the breaker that was running.

 A row is written only when the text of the state changes over an operation, so an opening or a close
 that leaves the text alone leaves no row.
 */
module BreakerLog {
  import opened Wrappers
  import opened Events
  import opened Breakers

  datatype LogRow = TripRow | ResetRow

  /** `_transition`: no row unless the text changed to open or to closed. */
  function RowFor(before: Text, after: Text): Option<LogRow> {
    if after == before then None
    else if after == Open then Some(TripRow)
    else if after == Closed then Some(ResetRow)
    else None
  }

  /** One operation between two readings of the state. */
  function RowOf(b: State, e: Timed): Option<LogRow>
    requires b.Valid()
  {
    RowFor(TextOf(b, e.now), TextOf(Step(Look(b, e.now), e), e.now))
  }

  /** `resolve_probe` of the set: the row to append, if any; a missing probe raises before anything is written. */
  method ResolveLogged(breaker: Breaker, ok: bool, now: real) returns (r: Result<Option<LogRow>, string>)
    requires breaker.View().Valid()
    modifies breaker
    ensures r.Ok? <==> old(breaker.probeInflight)
    ensures r.Ok? ==>
              && r.value == RowOf(old(breaker.View()), Timed(now, Resolve(ok)))
              && breaker.View() == Look(Step(Look(old(breaker.View()), now), Timed(now, Resolve(ok))), now)
    ensures r.Err? ==> breaker.View() == Look(old(breaker.View()), now)
  {
    var before := breaker.ReadState(now);
    var resolved := breaker.ResolveProbe(ok, now);
    if resolved.Err? {
      return Err(resolved.error);
    }
    var after := breaker.ReadState(now);
    if after == before {
      return Ok(None);
    }
    if after == Text.Open {
      return Ok(Some(TripRow));
    } else if after == Closed {
      return Ok(Some(ResetRow));
    }
    return Ok(None);
  }

  // ---------------------------------------------------------------- the live breaker and its record

  /** A live breaker with its history, and the opening that its rows record. */
  datatype Tracked = Tracked(s: History, recorded: Option<real>)

  /** A look or a probe request; an operation between two readings, its row under a stamp; a ledger sync. */
  datatype Move = Quiet(e: Timed) | Logged(e: Timed, stamp: real) | Sync(at: real)

  function Now(m: Move): real {
    if m.Sync? then m.at else m.e.now
  }

  predicate Proper(m: Move) {
    match m
    case Quiet(e) => e.op.IsOpen? || e.op.Admit?
    case Logged(e, _) => e.op.Trip? || e.op.Success? || e.op.Failure? || e.op.Resolve?
    case Sync(_) => true
  }

  /** A look, the operation, a look. */
  function AdvanceLogged(s: History, e: Timed): (r: History)
    requires s.b.Valid()
    ensures r.b.Valid()
  {
    Advance(Advance(Advance(s, Timed(e.now, IsOpen)), e), Timed(e.now, IsOpen))
  }

  function Written(recorded: Option<real>, row: Option<LogRow>, stamp: real): Option<real> {
    match row
    case None => recorded
    case Some(TripRow) => Some(stamp)
    case Some(ResetRow) => None
  }

  function Next(t: Tracked, m: Move): (r: Tracked)
    requires t.s.b.Valid()
    ensures r.s.b.Valid()
  {
    match m
    case Quiet(e) => Tracked(Advance(t.s, e), t.recorded)
    case Logged(e, stamp) => Tracked(AdvanceLogged(t.s, e), Written(t.recorded, RowOf(t.s.b, e), stamp))
    case Sync(at) =>
      if t.recorded.Some? then t.(s := Advance(t.s, Timed(at, Adopt(t.recorded.value)))) else t
  }

  function RunMoves(t: Tracked, ms: seq<Move>): (r: Tracked)
    requires t.s.b.Valid()
    ensures r.s.b.Valid()
  {
    if ms == [] then t else Next(RunMoves(t, ms[..|ms| - 1]), ms[|ms| - 1])
  }

  /** The rows record the standing opening, or that there is none. */
  predicate Recorded(t: Tracked) {
    t.recorded == t.s.standing
  }

  // ---------------------------------------------------------------- when the record keeps up

  /** An operation that opens a breaker, its cooldown looked at first. */
  predicate Opens(b: State, e: Timed) {
    || e.op.Trip?
    || (e.op == Resolve(false) && b.probeInflight)
    || (e.op.Failure? && b.consecutiveFailures + 1 >= b.threshold && b.openedAt.None?)
  }

  /**
   What the record needs of an operation. An opening: from an open state that its stamp does not move,
   from another one that the row carries its stamp, and a stamp already a cooldown old is only kept when
   it was standing and no reset row is written. A close: that the state did not already read as closed.
   */
  predicate Keeps(t: Tracked, m: Move)
    requires t.s.b.Valid()
  {
    m.Logged? ==>
      var e, b, before := m.e, Look(t.s.b, m.e.now), TextOf(t.s.b, m.e.now);
      if Opens(b, e) then
        if e.now - Stamp(e) >= b.cooldown
        then t.s.standing == Some(Stamp(e)) && (b.threshold > 1 || before == Closed)
        else if before == Open then t.s.standing == Some(Stamp(e))
        else m.stamp == Stamp(e)
      else if Closes(b, e.op) then before != Closed || t.s.standing.None?
      else true
  }

  predicate InOrder(start: real, ms: seq<Move>) {
    && (forall i | 0 <= i < |ms| :: start <= Now(ms[i]))
    && (forall i, j | 0 <= i < j < |ms| :: Now(ms[i]) <= Now(ms[j]))
  }

  lemma MoveKeepsInv(t: Tracked, m: Move, cooldown: real, before: real)
    requires Inv(t.s, cooldown, before) && before <= Now(m)
    ensures Inv(Next(t, m).s, cooldown, Now(m))
  {
    hide Advance, RowOf;
    match m
    case Quiet(e) =>
      AdvanceKeepsInv(t.s, e, cooldown, before);
    case Logged(e, _) =>
      LoggedKeepsInv(t.s, e, cooldown, before);
    case Sync(at) =>
      if t.recorded.Some? {
        AdvanceKeepsInv(t.s, Timed(at, Adopt(t.recorded.value)), cooldown, before);
      } else {
        InvLater(t.s, cooldown, before, at);
      }
  }

  lemma LoggedKeepsInv(s: History, e: Timed, cooldown: real, before: real)
    requires Inv(s, cooldown, before) && before <= e.now
    ensures Inv(Advance(s, Timed(e.now, IsOpen)), cooldown, e.now)
    ensures Inv(Advance(Advance(s, Timed(e.now, IsOpen)), e), cooldown, e.now)
    ensures Inv(AdvanceLogged(s, e), cooldown, e.now)
  {
    hide Advance;
    var look := Timed(e.now, IsOpen);
    AdvanceKeepsInv(s, look, cooldown, before);
    AdvanceKeepsInv(Advance(s, look), e, cooldown, e.now);
    AdvanceKeepsInv(Advance(Advance(s, look), e), look, cooldown, e.now);
  }

  lemma InvLater(s: History, cooldown: real, before: real, now: real)
    requires Inv(s, cooldown, before) && before <= now
    ensures Inv(s, cooldown, now)
  {
  }

  /** From a kept record, one move keeps it exactly when the guards say so. */
  lemma MoveKeepsRecordExactly(t: Tracked, m: Move, cooldown: real, before: real)
    requires Inv(t.s, cooldown, before) && before <= Now(m) && Proper(m) && Recorded(t)
    ensures Recorded(Next(t, m)) <==> Keeps(t, m)
  {
    match m
    case Quiet(_) =>
    case Sync(_) =>
    case Logged(e, stamp) =>
      LoggedStanding(t.s, e);
      LoggedText(t.s.b, e);
  }

  /** The standing opening after an operation between two readings. */
  lemma LoggedStanding(s: History, e: Timed)
    requires s.b.Valid() && !e.op.Adopt?
    ensures var b := Look(s.b, e.now);
            AdvanceLogged(s, e).standing
            == if Opens(b, e) then Some(Stamp(e)) else if Closes(b, e.op) then None else s.standing
  {
  }

  /** The text after it. */
  lemma LoggedText(b0: State, e: Timed)
    requires b0.Valid() && (e.op.Trip? || e.op.Success? || e.op.Failure? || e.op.Resolve?)
    ensures var b, before, after := Look(b0, e.now), TextOf(b0, e.now), TextOf(Step(Look(b0, e.now), e), e.now);
            if Opens(b, e) then
              after == if e.now - Stamp(e) < b.cooldown then Open else if b.threshold > 1 then HalfOpen else Closed
            else if Closes(b, e.op) then after == Closed
            else after == before || (before == Closed && after == HalfOpen)
  {
  }

  lemma {:induction false} MovesKeepInv(t: Tracked, start: real, ms: seq<Move>, now: real)
    requires Inv(t.s, t.s.b.cooldown, start) && InOrder(start, ms)
    requires start <= now && forall i | 0 <= i < |ms| :: Now(ms[i]) <= now
    ensures Inv(RunMoves(t, ms).s, t.s.b.cooldown, now)
    decreases |ms|
  {
    hide Next, RowOf;
    if ms != [] {
      var n := |ms| - 1;
      MovesKeepInv(t, start, ms[..n], Now(ms[n]));
      MoveKeepsInv(RunMoves(t, ms[..n]), ms[n], t.s.b.cooldown, Now(ms[n]));
      InvLater(RunMoves(t, ms).s, t.s.b.cooldown, Now(ms[n]), now);
    } else {
      InvLater(t.s, t.s.b.cooldown, start, now);
    }
  }

  /** The record has been right from the start and after every move. */
  predicate AlwaysRecorded(t: Tracked, ms: seq<Move>)
    requires t.s.b.Valid()
  {
    Recorded(RunMoves(t, ms)) && (ms != [] ==> AlwaysRecorded(t, ms[..|ms| - 1]))
  }

  /** Every move, where it came, was one that keeps the record. */
  predicate AlwaysKeeps(t: Tracked, ms: seq<Move>)
    requires t.s.b.Valid()
  {
    ms != [] ==>
      Keeps(RunMoves(t, ms[..|ms| - 1]), ms[|ms| - 1]) && AlwaysKeeps(t, ms[..|ms| - 1])
  }

  /** In every run the record is right throughout exactly when every move kept it. */
  lemma {:induction false} RecordKeepsUpExactly(t: Tracked, start: real, ms: seq<Move>)
    requires Inv(t.s, t.s.b.cooldown, start) && InOrder(start, ms) && Recorded(t)
    requires forall i | 0 <= i < |ms| :: Proper(ms[i])
    ensures AlwaysRecorded(t, ms) <==> AlwaysKeeps(t, ms)
    decreases |ms|
  {
    hide Next, Keeps, Recorded;
    if ms != [] {
      var n := |ms| - 1;
      RecordKeepsUpExactly(t, start, ms[..n]);
      if AlwaysRecorded(t, ms[..n]) {
        MovesKeepInv(t, start, ms[..n], Now(ms[n]));
        MoveKeepsRecordExactly(RunMoves(t, ms[..n]), ms[n], t.s.b.cooldown, Now(ms[n]));
      }
    }
  }

  // ---------------------------------------------------------------- restarting from the record

  /** The same opening, or two that are both over. */
  predicate SameFrom(a: Option<real>, b: Option<real>, cooldown: real, now: real) {
    a == b || (a.Some? && b.Some? && a.value + cooldown <= now && b.value + cooldown <= now)
  }

  ghost predicate AgreeFrom(live: State, restored: State, now: real)
    requires live.Valid() && restored.Valid()
  {
    forall t | now <= t ::
      OpenAfterLook(live, t) == OpenAfterLook(restored, t) && Admits(live, t) == Admits(restored, t)
  }

  /** The opening is there and its cooldown has not run out. */
  predicate Runs(a: Option<real>, cooldown: real, now: real) {
    a.Some? && now - a.value < cooldown
  }

  /** How openness and admission read off an opening. */
  predicate Reads(b: State, standing: Option<real>, out: bool, cooldown: real, now: real)
    requires b.Valid()
  {
    && (OpenAfterLook(b, now) <==> Runs(standing, cooldown, now))
    && (Admits(b, now) <==> standing.Some? && !Runs(standing, cooldown, now) && !out)
  }

  lemma LiveReads(s: History, cooldown: real, now: real, later: real)
    requires Inv(s, cooldown, now) && now <= later
    ensures Reads(s.b, s.standing, s.b.probeInflight, cooldown, later)
  {
  }

  lemma RestoredReads(base: State, recorded: Option<real>, trips: nat, later: real)
    requires base.Valid() && base.openedAt.None? && !base.halfOpen && !base.probeInflight
    ensures Reads(Restored(base, recorded, trips), recorded, false, base.cooldown, later)
  {
  }

  /** Openings that run out together from now on are the same, or both over. */
  lemma AgreeingOpenings(a: Option<real>, b: Option<real>, cooldown: real, now: real)
    requires a.Some? == b.Some? && forall t | now <= t :: Runs(a, cooldown, t) == Runs(b, cooldown, t)
    ensures SameFrom(a, b, cooldown, now)
  {
    if a.Some? {
      var ends, ends' := Later(now, a, cooldown), Later(now, b, cooldown);
      assert Runs(a, cooldown, ends) == Runs(b, cooldown, ends);
      assert Runs(a, cooldown, ends') == Runs(b, cooldown, ends');
    }
  }

  /**
   From now on a breaker restored from the record opens and admits exactly as the live one does, if and
   only if the record is the standing opening or both are over; or, with a probe out, if nothing is
   recorded and the standing opening, if any, is over: the restored breaker does not know of the probe.
   */
  lemma RestartAgreesExactly(t: Tracked, base: State, trips: nat, now: real)
    requires Inv(t.s, base.cooldown, now)
    requires base.Valid() && base.openedAt.None? && !base.halfOpen && !base.probeInflight
    ensures AgreeFrom(t.s.b, Restored(base, t.recorded, trips), now)
            <==> if t.s.b.probeInflight then t.recorded.None? && !Runs(t.s.standing, base.cooldown, now)
                 else SameFrom(t.s.standing, t.recorded, base.cooldown, now)
  {
    hide OpenAfterLook, Admits;
    var live, restored, cooldown := t.s.b, Restored(base, t.recorded, trips), base.cooldown;
    var a, b, out := t.s.standing, t.recorded, t.s.b.probeInflight;
    forall later | now <= later
      ensures Reads(live, a, out, cooldown, later) && Reads(restored, b, false, cooldown, later)
    {
      LiveReads(t.s, cooldown, now, later);
      RestoredReads(base, b, trips, later);
    }
    if AgreeFrom(live, restored, now) {
      var over := Later(Later(now, a, cooldown), b, cooldown);
      assert Admits(live, over) == Admits(restored, over);
      assert Reads(live, a, out, cooldown, over) && Reads(restored, b, false, cooldown, over);
      forall later | now <= later
        ensures Runs(a, cooldown, later) == Runs(b, cooldown, later)
      {
        assert OpenAfterLook(live, later) == OpenAfterLook(restored, later);
        assert Reads(live, a, out, cooldown, later) && Reads(restored, b, false, cooldown, later);
      }
      if !out {
        AgreeingOpenings(a, b, cooldown, now);
      }
    } else if if out then b.None? && !Runs(a, cooldown, now) else SameFrom(a, b, cooldown, now) {
      forall later | now <= later
        ensures OpenAfterLook(live, later) == OpenAfterLook(restored, later)
                && Admits(live, later) == Admits(restored, later)
      {
        assert Reads(live, a, out, cooldown, later) && Reads(restored, b, false, cooldown, later);
      }
    }
  }

  /** A time by which an opening is over. */
  function Later(now: real, a: Option<real>, cooldown: real): real {
    if a.Some? && a.value + cooldown > now then a.value + cooldown else now
  }

  // ---------------------------------------------------------------- from the rows

  /** The rows of the ledger give the record: a readable trip its stamp, a reset none, anything else no change. */
  lemma RecordAfterRow(events: seq<Event>, e: Event, name: string, read: StampReader)
    ensures OpenSince(events + [e], name, read)
         == if !Decides(e, name, read) then OpenSince(events, name, read)
            else if e.payload.BreakerTripped? then read(e.tsUtc) else None
  {
    assert (events + [e])[..|events|] == events;
  }

  // ---------------------------------------------------------------- what a restart loses

  function Start(b: State): Tracked {
    Tracked(History(b, None, 0, 0), None)
  }

  /** A move logged under the clock's own stamp. */
  function AtOnce(now: real, op: Op): Move {
    Logged(Timed(now, op), now)
  }

  /** The price feed's breaker, step by step: tripped, probing, tripped again, the probe failed. */
  function Stale(step: nat): Tracked {
    var b := New(3, 60.0, 3);
    match step
    case 0 => Start(b)
    case 1 =>
      Tracked(History(b.(consecutiveFailures := 3, openedAt := Some(0.0), trips := 1), Some(0.0), 0, 0), Some(0.0))
    case 2 =>
      Tracked(History(b.(consecutiveFailures := 2, halfOpen := true, probeInflight := true, trips := 1),
                      Some(0.0), 1, 0), Some(0.0))
    case 3 =>
      Tracked(History(b.(consecutiveFailures := 3, openedAt := Some(61.0), probeInflight := true, trips := 2),
                      Some(61.0), 1, 0), Some(61.0))
    case _ =>
      Tracked(History(b.(consecutiveFailures := 3, openedAt := Some(100.0), trips := 3), Some(100.0), 1, 1), Some(61.0))
  }

  lemma StaleOpens()
    ensures Next(Stale(0), AtOnce(0.0, Trip(None))) == Stale(1)
    ensures Next(Stale(1), Quiet(Timed(60.0, Admit))) == Stale(2)
  {
  }

  lemma StaleOpensAgain()
    ensures Next(Stale(2), AtOnce(61.0, Trip(None))) == Stale(3)
  {
  }

  lemma StaleProbeFails()
    ensures Next(Stale(3), AtOnce(100.0, Resolve(false))) == Stale(4)
  {
  }

  /**
   A cooldown bypassed: the price feed trips, its half-open probe goes out, it trips again and then the
   probe fails. The state reads open before and after, so no row carries the new opening, and at 130 the
   live breaker is open while the one restored from the rows is not.
   */
  lemma FailedProbeWhileOpenIsLost()
    ensures
      var b := New(3, 60.0, 3);
      var t1 := Next(Start(b), AtOnce(0.0, Trip(None)));
      var t2 := Next(t1, Quiet(Timed(60.0, Admit)));
      var t3 := Next(t2, AtOnce(61.0, Trip(None)));
      var t4 := Next(t3, AtOnce(100.0, Resolve(false)));
      && Recorded(t3) && t4.s.standing == Some(100.0) && t4.recorded == Some(61.0)
      && OpenAfterLook(t4.s.b, 130.0) && !OpenAfterLook(Restored(b, t4.recorded, 2), 130.0)
  {
    hide Next, AtOnce;
    StaleOpens();
    StaleOpensAgain();
    StaleProbeFails();
  }

  /** The loss breaker, step by step: tripped, probing, the probe good, synced from the ledger. */
  function Loss(step: nat): Tracked {
    var b := New(1, 1800.0, 1);
    match step
    case 0 => Start(b)
    case 1 =>
      Tracked(History(b.(consecutiveFailures := 1, openedAt := Some(0.0), trips := 1), Some(0.0), 0, 0), Some(0.0))
    case 2 =>
      Tracked(History(b.(halfOpen := true, probeInflight := true, trips := 1), Some(0.0), 1, 0), Some(0.0))
    case 3 => Tracked(History(b.(trips := 1), None, 1, 1), Some(0.0))
    case _ =>
      Tracked(History(b.(consecutiveFailures := 1, openedAt := Some(0.0), trips := 2), Some(0.0), 1, 1), Some(0.0))
  }

  lemma LossOpens()
    ensures Next(Loss(0), AtOnce(0.0, Trip(None))) == Loss(1)
    ensures Next(Loss(1), Quiet(Timed(1800.0, Admit))) == Loss(2)
  {
  }

  lemma LossProbeSucceeds()
    ensures Next(Loss(2), AtOnce(1801.0, Resolve(true))) == Loss(3)
    ensures Next(Loss(3), Sync(1802.0)) == Loss(4)
  {
  }

  /**
   A close lost: with a threshold of one the half-open state reads as closed, so a good probe writes no
   reset row. The breaker is closed, the restored one still admits a probe, and the next sync opens the
   live breaker again.
   */
  lemma GoodProbeOfLossVelocityIsLost()
    ensures
      var b := New(1, 1800.0, 1);
      var t1 := Next(Start(b), AtOnce(0.0, Trip(None)));
      var t2 := Next(t1, Quiet(Timed(1800.0, Admit)));
      var t3 := Next(t2, AtOnce(1801.0, Resolve(true)));
      var t4 := Next(t3, Sync(1802.0));
      && t3.s.standing.None? && t3.recorded == Some(0.0)
      && !Admits(t3.s.b, 1802.0) && Admits(Restored(b, t3.recorded, 1), 1802.0)
      && t4.s.standing == Some(0.0) && Admits(t4.s.b, 1803.0)
  {
    hide Next, AtOnce;
    LossOpens();
    LossProbeSucceeds();
  }
}
