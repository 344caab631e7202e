/**
 What the fixture clock promises, on values: deadlines wait in (when, seq) order, fire as the clock
 passes them, and can be cancelled until then. Instants are exact reals.
 */
module VirtualTime {

  datatype Deadline = Deadline(when: real, seqNo: nat)

  /** One firing: the deadline, and what the clock read at that moment. */
  datatype Firing = Firing(deadline: Deadline, at: real)

  predicate Before(a: Deadline, b: Deadline) {
    a.when < b.when || (a.when == b.when && a.seqNo < b.seqNo)
  }

  /** `scheduled` and `cancelled` are history: every deadline ever given out, and those called off in time. */
  datatype ClockState = ClockState(
    now: real,
    pending: seq<Deadline>,
    nextSeq: nat,
    fired: seq<Firing>,
    scheduled: set<Deadline>,
    cancelled: set<Deadline>)

  datatype Op = Schedule(delay: real) | Cancel(deadline: Deadline) | AdvanceTo(ts: real) | Jump(delta: real)

  function Insert(pending: seq<Deadline>, d: Deadline): seq<Deadline>
    decreases |pending|
  {
    if pending == [] || Before(d, pending[0]) then [d] + pending
    else [pending[0]] + Insert(pending[1..], d)
  }

  function Without(pending: seq<Deadline>, d: Deadline): seq<Deadline>
    decreases |pending|
  {
    if pending == [] then []
    else if pending[0] == d then pending[1..]
    else [pending[0]] + Without(pending[1..], d)
  }

  function ScheduleAt(s: ClockState, delay: real): ClockState {
    var d := Deadline(s.now + delay, s.nextSeq);
    s.(pending := Insert(s.pending, d), nextSeq := s.nextSeq + 1, scheduled := s.scheduled + {d})
  }

  function CancelDeadline(s: ClockState, d: Deadline): ClockState {
    if d in s.pending then s.(pending := Without(s.pending, d), cancelled := s.cancelled + {d}) else s
  }

  function FireFirst(s: ClockState): ClockState
    requires s.pending != []
  {
    s.(now := s.pending[0].when,
       pending := s.pending[1..],
       fired := s.fired + [Firing(s.pending[0], s.pending[0].when)])
  }

  /** Fires everything due by `ts`, earliest first, and then reads `ts`. */
  function Advance(s: ClockState, ts: real): ClockState
    decreases |s.pending|
  {
    if s.pending != [] && s.pending[0].when <= ts then Advance(FireFirst(s), ts) else s.(now := ts)
  }

  /** A refused operation (a negative delay, a step back by `advance_to`) changes nothing. */
  function Step(s: ClockState, op: Op): ClockState {
    match op
    case Schedule(delay) => if delay < 0.0 then s else ScheduleAt(s, delay)
    case Cancel(d) => CancelDeadline(s, d)
    case AdvanceTo(ts) => if ts < s.now then s else Advance(s, ts)
    case Jump(delta) => if delta >= 0.0 then Advance(s, s.now + delta) else s.(now := s.now + delta)
  }

  function Run(s: ClockState, ops: seq<Op>): ClockState
    decreases |ops|
  {
    if ops == [] then s else Run(Step(s, ops[0]), ops[1..])
  }

  function Start(now: real): ClockState {
    ClockState(now, [], 0, [], {}, {})
  }

  // ---------------------------------------------------------------- invariants

  ghost predicate Sorted(pending: seq<Deadline>) {
    forall i, j | 0 <= i < j < |pending| :: Before(pending[i], pending[j])
  }

  ghost function FiredDeadlines(s: ClockState): set<Deadline> {
    set f | f in s.fired :: f.deadline
  }

  ghost function PendingDeadlines(s: ClockState): set<Deadline> {
    set d | d in s.pending
  }

  /**
   Holds in every run, backward jumps included: the queue is in order, nothing pending lies in the past,
   a firing reads exactly its deadline, and every deadline ever scheduled is pending, fired once or
   cancelled, never two of these.
   */
  ghost predicate Inv(s: ClockState) {
    && Sorted(s.pending)
    && (forall d | d in s.pending :: s.now <= d.when)
    && (forall f | f in s.fired :: f.at == f.deadline.when)
    && (forall i, j | 0 <= i < j < |s.fired| :: s.fired[i].deadline != s.fired[j].deadline)
    && (forall d | d in s.scheduled :: d.seqNo < s.nextSeq)
    && (forall d, e | d in s.scheduled && e in s.scheduled && d.seqNo == e.seqNo :: d == e)
    && s.scheduled == PendingDeadlines(s) + FiredDeadlines(s) + s.cancelled
    && PendingDeadlines(s) !! FiredDeadlines(s) !! s.cancelled
  }

  /** Holds while time only moves forward: firings are in order and precede everything pending. */
  ghost predicate Forward(s: ClockState) {
    && (forall i, j | 0 <= i < j < |s.fired| :: Before(s.fired[i].deadline, s.fired[j].deadline))
    && (forall f, d | f in s.fired && d in s.pending :: Before(f.deadline, d))
    && (forall f | f in s.fired :: f.deadline.when <= s.now)
  }

  lemma {:induction false} InsertKeepsOrder(pending: seq<Deadline>, d: Deadline)
    requires Sorted(pending) && forall e | e in pending :: e.seqNo != d.seqNo
    ensures Sorted(Insert(pending, d))
    ensures forall e :: e in Insert(pending, d) <==> e in pending || e == d
    decreases |pending|
  {
    if pending != [] && !Before(d, pending[0]) {
      InsertKeepsOrder(pending[1..], d);
      var rest := Insert(pending[1..], d);
      assert pending[0] in pending;
      forall j | 0 <= j < |rest|
        ensures Before(pending[0], rest[j])
      {
        assert rest[j] in rest;
      }
    }
  }

  lemma {:induction false} WithoutKeepsOrder(pending: seq<Deadline>, d: Deadline)
    requires Sorted(pending)
    ensures Sorted(Without(pending, d))
    ensures forall e :: e in Without(pending, d) <==> e in pending && e != d
    decreases |pending|
  {
    if pending != [] {
      if pending[0] == d {
        assert forall j | 0 < j < |pending| :: Before(pending[0], pending[j]);
      } else {
        WithoutKeepsOrder(pending[1..], d);
        var rest := Without(pending[1..], d);
        forall j | 0 <= j < |rest|
          ensures Before(pending[0], rest[j])
        {
          assert rest[j] in pending[1..];
        }
      }
    }
  }

  lemma ScheduleKeepsInv(s: ClockState, delay: real)
    requires Inv(s) && 0.0 <= delay
    ensures Inv(ScheduleAt(s, delay))
    ensures Forward(s) ==> Forward(ScheduleAt(s, delay))
  {
    var d := Deadline(s.now + delay, s.nextSeq);
    var s' := ScheduleAt(s, delay);
    assert forall e | e in s.pending :: e in s.scheduled;
    InsertKeepsOrder(s.pending, d);
    assert PendingDeadlines(s') == PendingDeadlines(s) + {d};
    assert FiredDeadlines(s') == FiredDeadlines(s);
    assert d !in s.scheduled;
    if Forward(s) {
      forall f | f in s.fired
        ensures Before(f.deadline, d)
      {
        assert f.deadline in s.scheduled;
      }
    }
  }

  lemma CancelKeepsInv(s: ClockState, d: Deadline)
    requires Inv(s)
    ensures Inv(CancelDeadline(s, d))
    ensures Forward(s) ==> Forward(CancelDeadline(s, d))
  {
    var s' := CancelDeadline(s, d);
    WithoutKeepsOrder(s.pending, d);
    if d in s.pending {
      assert PendingDeadlines(s') == PendingDeadlines(s) - {d};
      assert FiredDeadlines(s') == FiredDeadlines(s);
    }
  }

  lemma FireKeepsForward(s: ClockState)
    requires Inv(s) && s.pending != [] && Forward(s)
    ensures Forward(FireFirst(s))
  {
    var s', d := FireFirst(s), s.pending[0];
    assert d in s.pending;
    assert forall e | e in s'.pending :: e in s.pending && Before(d, e);
    assert forall f | f in s'.fired :: f in s.fired || f.deadline == d;
  }

  lemma FireKeepsInv(s: ClockState)
    requires Inv(s) && s.pending != []
    ensures Inv(FireFirst(s))
    ensures s.now <= FireFirst(s).now
    ensures Forward(s) ==> Forward(FireFirst(s))
  {
    hide Forward;
    if Forward(s) {
      FireKeepsForward(s);
    }
    var s', d := FireFirst(s), s.pending[0];
    assert forall e | e in s'.pending :: e in s.pending && Before(d, e) && e != d;
    assert d in PendingDeadlines(s);
    assert PendingDeadlines(s') == PendingDeadlines(s) - {d};
    FiredSnoc(s);
    forall i | 0 <= i < |s.fired|
      ensures s.fired[i].deadline != d
    {
      assert s.fired[i].deadline in FiredDeadlines(s);
    }
  }

  lemma FiredSnoc(s: ClockState)
    requires s.pending != []
    ensures FiredDeadlines(FireFirst(s)) == FiredDeadlines(s) + {s.pending[0]}
  {
    var f := Firing(s.pending[0], s.pending[0].when);
    assert forall g :: g in FireFirst(s).fired <==> g in s.fired || g == f;
    assert f in FireFirst(s).fired;
  }

  lemma {:induction false} AdvanceKeepsInv(s: ClockState, ts: real)
    requires Inv(s) && s.now <= ts
    ensures Inv(Advance(s, ts))
    ensures Advance(s, ts).now == ts
    ensures forall d | d in Advance(s, ts).pending :: ts < d.when
    ensures Advance(s, ts).scheduled == s.scheduled && Advance(s, ts).cancelled == s.cancelled
    ensures Forward(s) ==> Forward(Advance(s, ts))
    decreases |s.pending|
  {
    if s.pending != [] && s.pending[0].when <= ts {
      FireKeepsInv(s);
      AdvanceKeepsInv(FireFirst(s), ts);
    } else {
      forall d | d in s.pending
        ensures ts < d.when
      {
        var i :| 0 <= i < |s.pending| && s.pending[i] == d;
        assert i > 0 ==> Before(s.pending[0], s.pending[i]);
      }
      assert PendingDeadlines(s.(now := ts)) == PendingDeadlines(s);
      assert FiredDeadlines(s.(now := ts)) == FiredDeadlines(s);
    }
  }

  predicate MovesForward(op: Op) {
    op.Jump? ==> 0.0 <= op.delta
  }

  lemma StepKeepsInv(s: ClockState, op: Op)
    requires Inv(s)
    ensures Inv(Step(s, op))
    ensures Forward(s) && MovesForward(op) ==> Forward(Step(s, op))
  {
    match op
    case Schedule(delay) =>
      if 0.0 <= delay {
        ScheduleKeepsInv(s, delay);
      }
    case Cancel(d) =>
      CancelKeepsInv(s, d);
    case AdvanceTo(ts) =>
      if s.now <= ts {
        AdvanceKeepsInv(s, ts);
      }
    case Jump(delta) =>
      JumpKeepsInv(s, delta);
  }

  lemma JumpKeepsInv(s: ClockState, delta: real)
    requires Inv(s)
    ensures Inv(Step(s, Jump(delta)))
    ensures Forward(s) && 0.0 <= delta ==> Forward(Step(s, Jump(delta)))
  {
    hide Inv, Forward, Advance;
    if 0.0 <= delta {
      AdvanceKeepsInv(s, s.now + delta);
    } else {
      JumpBackKeepsInv(s, delta);
    }
  }

  /** A step back leaves every deadline where it is, now further ahead. */
  lemma JumpBackKeepsInv(s: ClockState, delta: real)
    requires Inv(s) && delta < 0.0
    ensures Inv(s.(now := s.now + delta))
  {
    var s' := s.(now := s.now + delta);
    assert PendingDeadlines(s') == PendingDeadlines(s);
    assert FiredDeadlines(s') == FiredDeadlines(s);
  }

  /** Every run of the clock, from any instant and with any jumps, keeps the invariant. */
  lemma {:induction false} EveryRunKeepsInv(s: ClockState, ops: seq<Op>)
    requires Inv(s)
    ensures Inv(Run(s, ops))
    ensures Forward(s) && (forall i | 0 <= i < |ops| :: MovesForward(ops[i])) ==> Forward(Run(s, ops))
    decreases |ops|
  {
    if ops != [] {
      StepKeepsInv(s, ops[0]);
      EveryRunKeepsInv(Step(s, ops[0]), ops[1..]);
    }
  }

  /** While time only moves forward, timers fire in strictly increasing (when, seq) order. */
  lemma FiringsAreInOrder(now: real, ops: seq<Op>)
    requires forall i | 0 <= i < |ops| :: MovesForward(ops[i])
    ensures
      var fired := Run(Start(now), ops).fired;
      forall i, j | 0 <= i < j < |fired| :: Before(fired[i].deadline, fired[j].deadline)
  {
    EveryRunKeepsInv(Start(now), ops);
  }

  /**
   After any run, jumps included, an advance to `ts` leaves the clock at `ts`, and exactly the deadlines
   up to `ts` that were not cancelled have fired since, each at the instant it names.
   */
  lemma AdvanceFiresExactlyTheDue(now: real, ops: seq<Op>, ts: real)
    requires Run(Start(now), ops).now <= ts
    ensures
      var before := Run(Start(now), ops);
      var after := Step(before, AdvanceTo(ts));
      && after.now == ts
      && (forall d | d in before.pending ::
            (d in FiredDeadlines(after) <==> d.when <= ts) && (d in after.pending <==> ts < d.when))
      && (forall d | d in after.scheduled && d.when <= ts :: d in FiredDeadlines(after) || d in after.cancelled)
      && (forall d | d in after.cancelled :: d !in FiredDeadlines(after))
      && (forall f | f in after.fired :: f.at == f.deadline.when)
  {
    var before := Run(Start(now), ops);
    var after := Step(before, AdvanceTo(ts));
    EveryRunKeepsInv(Start(now), ops);
    AdvanceKeepsInv(before, ts);
    AdvanceTouchesOnlyDue(before, ts);
    forall d | d in before.pending
      ensures (d in FiredDeadlines(after) <==> d.when <= ts) && (d in after.pending <==> ts < d.when)
    {
      assert d in PendingDeadlines(before);
      assert d in after.scheduled && d !in after.cancelled;
    }
  }

  lemma {:induction false} AdvanceTouchesOnlyDue(s: ClockState, ts: real)
    requires Inv(s) && s.now <= ts
    ensures forall d | d in s.pending && ts < d.when :: d in Advance(s, ts).pending
    decreases |s.pending|
  {
    if s.pending != [] && s.pending[0].when <= ts {
      FireKeepsInv(s);
      AdvanceTouchesOnlyDue(FireFirst(s), ts);
      assert forall d | d in s.pending && ts < d.when :: d in s.pending[1..];
    }
  }

  // ---------------------------------------------------------------- lazy cancellation

  /** A queue seen without the entries that are switched off. */
  function Filter(queue: seq<Deadline>, on: set<Deadline>): seq<Deadline>
    decreases |queue|
  {
    if queue == [] then []
    else if queue[0] in on then [queue[0]] + Filter(queue[1..], on)
    else Filter(queue[1..], on)
  }

  lemma {:induction false} FilterElements(queue: seq<Deadline>, on: set<Deadline>)
    ensures forall d :: d in Filter(queue, on) <==> d in queue && d in on
    decreases |queue|
  {
    if queue != [] {
      FilterElements(queue[1..], on);
    }
  }

  lemma {:induction false} FilterAgrees(queue: seq<Deadline>, on: set<Deadline>, on': set<Deadline>)
    requires forall d | d in queue :: d in on <==> d in on'
    ensures Filter(queue, on) == Filter(queue, on')
    decreases |queue|
  {
    if queue != [] {
      FilterAgrees(queue[1..], on, on');
    }
  }

  /** The head of a queue precedes everything behind it. */
  lemma HeadFirst(queue: seq<Deadline>, d: Deadline)
    requires Sorted(queue) && queue != [] && d in queue[1..]
    ensures Before(queue[0], d)
  {
    var i :| 0 <= i < |queue[1..]| && queue[1..][i] == d;
    assert Before(queue[0], queue[i + 1]);
  }

  lemma {:induction false} FilterInsert(queue: seq<Deadline>, on: set<Deadline>, d: Deadline)
    requires Sorted(queue) && d !in queue
    ensures Filter(Insert(queue, d), on + {d}) == Insert(Filter(queue, on), d)
    decreases |queue|
  {
    FilterAgrees(queue, on, on + {d});
    FilterElements(queue, on);
    if queue == [] || Before(d, queue[0]) {
      assert ([d] + queue)[1..] == queue;
      if Filter(queue, on) != [] {
        var first := Filter(queue, on)[0];
        assert first in Filter(queue, on);
        if first != queue[0] {
          HeadFirst(queue, first);
        }
      }
    } else {
      var tail := Filter(queue[1..], on);
      FilterInsert(queue[1..], on, d);
      assert ([queue[0]] + Insert(queue[1..], d))[1..] == Insert(queue[1..], d);
      assert ([queue[0]] + tail)[1..] == tail;
    }
  }

  lemma {:induction false} FilterWithout(queue: seq<Deadline>, on: set<Deadline>, d: Deadline)
    requires Sorted(queue) && d in queue && d in on
    ensures Filter(queue, on - {d}) == Without(Filter(queue, on), d)
    decreases |queue|
  {
    var tail := Filter(queue[1..], on);
    assert ([queue[0]] + tail)[1..] == tail;
    if queue[0] == d {
      forall e | e in queue[1..]
        ensures e != d
      {
        HeadFirst(queue, e);
      }
      FilterAgrees(queue[1..], on, on - {d});
    } else {
      FilterWithout(queue[1..], on, d);
    }
  }

  /** When the head of the queue is not due, nothing switched on is. */
  lemma NothingDue(queue: seq<Deadline>, on: set<Deadline>, ts: real)
    requires Sorted(queue) && (queue == [] || ts < queue[0].when)
    ensures Filter(queue, on) != [] ==> ts < Filter(queue, on)[0].when
  {
    FilterElements(queue, on);
    if Filter(queue, on) != [] {
      var d := Filter(queue, on)[0];
      assert d in Filter(queue, on);
      if d != queue[0] {
        HeadFirst(queue, d);
      }
    }
  }

  // ---------------------------------------------------------------- operations by what they leave

  /** A cancelled deadline is out of the queue and has not fired; one that is not pending is left as it is. */
  lemma CancelTakesItOut(s: ClockState, d: Deadline)
    requires Inv(s)
    ensures var s' := Step(s, Cancel(d));
            && PendingDeadlines(s') == PendingDeadlines(s) - {d} && s'.fired == s.fired
            && s'.now == s.now && s'.nextSeq == s.nextSeq
            && (d in s.pending ==> d !in FiredDeadlines(s') && d in s'.cancelled)
            && (d !in s.pending ==> s' == s)
  {
    WithoutKeepsOrder(s.pending, d);
    assert d in s.pending ==> d in PendingDeadlines(s);
  }

  /** A schedule adds one deadline, its delay from now, under the next number. */
  lemma ScheduleAddsOne(s: ClockState, delay: real)
    requires Inv(s)
    ensures var s' := Step(s, Schedule(delay));
            if delay < 0.0 then s' == s
            else
              && PendingDeadlines(s') == PendingDeadlines(s) + {Deadline(s.now + delay, s.nextSeq)}
              && s'.nextSeq == s.nextSeq + 1 && s'.now == s.now && s'.fired == s.fired && s'.cancelled == s.cancelled
  {
    if delay >= 0.0 {
      assert forall e | e in s.pending :: e in s.scheduled;
      InsertKeepsOrder(s.pending, Deadline(s.now + delay, s.nextSeq));
    }
  }

  /** A step back by `advance_to` is refused; a backward jump moves the reading by just that and fires nothing. */
  lemma BackwardMoves(s: ClockState, ts: real, delta: real)
    ensures ts < s.now ==> Step(s, AdvanceTo(ts)) == s
    ensures delta < 0.0 ==>
              Step(s, Jump(delta))
              == ClockState(s.now + delta, s.pending, s.nextSeq, s.fired, s.scheduled, s.cancelled)
    ensures delta >= 0.0 ==> Step(s, Jump(delta)) == Step(s, AdvanceTo(s.now + delta))
  {
    hide Advance;
  }

  // ---------------------------------------------------------------- cancelled is never fired

  lemma {:induction false} AdvanceKeepsCancelled(s: ClockState, ts: real)
    ensures Advance(s, ts).cancelled == s.cancelled && s.fired <= Advance(s, ts).fired
    decreases |s.pending|
  {
    if s.pending != [] && s.pending[0].when <= ts {
      AdvanceKeepsCancelled(FireFirst(s), ts);
    }
  }

  lemma {:induction false} RunKeepsCancelled(s: ClockState, ops: seq<Op>)
    ensures s.cancelled <= Run(s, ops).cancelled && s.fired <= Run(s, ops).fired
    decreases |ops|
  {
    if ops != [] {
      match ops[0] {
        case AdvanceTo(ts) => AdvanceKeepsCancelled(s, ts);
        case Jump(delta) => AdvanceKeepsCancelled(s, s.now + delta);
        case _ =>
      }
      RunKeepsCancelled(Step(s, ops[0]), ops[1..]);
    }
  }

  /** Whatever follows, a deadline cancelled while it was pending never fires and never waits again. */
  lemma CancelledNeverFires(s: ClockState, d: Deadline, ops: seq<Op>)
    requires Inv(s) && d in s.pending
    ensures var end := Run(Step(s, Cancel(d)), ops); d !in FiredDeadlines(end) && d !in end.pending
  {
    var s' := Step(s, Cancel(d));
    CancelTakesItOut(s, d);
    StepKeepsInv(s, Cancel(d));
    EveryRunKeepsInv(s', ops);
    RunKeepsCancelled(s', ops);
    var end := Run(s', ops);
    assert d in end.cancelled;
    assert d in end.pending ==> d in PendingDeadlines(end);
  }
}
