/** The clock as an object: a heap of timers that are cancelled lazily, by a flag. */
module FixtureClock {
  import opened VirtualTime

  class Timer {
    const deadline: Deadline
    var active: bool

    constructor (deadline: Deadline)
      ensures this.deadline == deadline && active
    {
      this.deadline := deadline;
      this.active := true;
    }
  }

  ghost function Deadlines(timers: seq<Timer>): seq<Deadline> {
    seq(|timers|, i requires 0 <= i < |timers| => timers[i].deadline)
  }

  lemma DeadlinesContain(timers: seq<Timer>)
    ensures forall t | t in timers :: t.deadline in Deadlines(timers)
  {
    forall t | t in timers
      ensures t.deadline in Deadlines(timers)
    {
      var i :| 0 <= i < |timers| && timers[i] == t;
      assert Deadlines(timers)[i] == t.deadline;
    }
  }

  lemma DeadlinesBelow(timers: seq<Timer>, n: nat)
    requires forall t | t in timers :: t.deadline.seqNo < n
    ensures forall d | d in Deadlines(timers) :: d.seqNo < n
  {
    forall d | d in Deadlines(timers)
      ensures d.seqNo < n
    {
      var i :| 0 <= i < |timers| && Deadlines(timers)[i] == d;
      assert timers[i] in timers;
    }
  }

  /** Two timers of an ordered heap are one if their deadlines are. */
  lemma OneTimerADeadline(timers: seq<Timer>)
    requires Sorted(Deadlines(timers))
    ensures forall t, u | t in timers && u in timers && t.deadline == u.deadline :: t == u
  {
    forall t, u | t in timers && u in timers && t.deadline == u.deadline
      ensures t == u
    {
      var i :| 0 <= i < |timers| && timers[i] == t;
      var j :| 0 <= j < |timers| && timers[j] == u;
      assert Deadlines(timers)[i] == t.deadline && Deadlines(timers)[j] == u.deadline;
    }
  }

  /** The heap by its only observable, the order in which it hands timers back. */
  function Push(timers: seq<Timer>, t: Timer): seq<Timer>
    decreases |timers|
  {
    if timers == [] || Before(t.deadline, timers[0].deadline) then [t] + timers
    else [timers[0]] + Push(timers[1..], t)
  }

  lemma {:induction false} PushInserts(timers: seq<Timer>, t: Timer)
    ensures forall u :: u in Push(timers, t) <==> u in timers || u == t
    ensures Deadlines(Push(timers, t)) == Insert(Deadlines(timers), t.deadline)
    decreases |timers|
  {
    if timers == [] || Before(t.deadline, timers[0].deadline) {
      assert Deadlines([t] + timers) == [t.deadline] + Deadlines(timers);
    } else {
      PushInserts(timers[1..], t);
      assert timers == [timers[0]] + timers[1..];
      assert Deadlines(timers)[1..] == Deadlines(timers[1..]);
      assert Deadlines([timers[0]] + Push(timers[1..], t))
          == [timers[0].deadline] + Deadlines(Push(timers[1..], t));
    }
  }

  class FixtureClock {
    var now: real
    var timers: seq<Timer>
    var nextSeq: nat
    ghost var fired: seq<Firing>
    ghost var scheduled: set<Deadline>
    ghost var cancelled: set<Deadline>
    ghost var issued: set<Timer>

    /** The deadlines whose flag is up. */
    ghost function On(): set<Deadline>
      reads this, timers
    {
      set t | t in timers && t.active :: t.deadline
    }

    /** The clock as its users see it. */
    ghost function View(): ClockState
      reads this, timers
    {
      ClockState(now, Filter(Deadlines(timers), On()), nextSeq, fired, scheduled, cancelled)
    }

    /** A timer handed out is in the heap or has gone off, and has its deadline to itself. */
    ghost predicate Valid()
      reads this, timers, issued
    {
      && Sorted(Deadlines(timers))
      && (forall t | t in timers :: t in issued)
      && (forall t | t in issued :: t.deadline.seqNo < nextSeq && (t in timers || !t.active))
      && (forall t, u | t in issued && u in issued && t.deadline == u.deadline :: t == u)
    }

    constructor (start: real)
      ensures Valid() && View() == Start(start) && issued == {}
    {
      now, timers, nextSeq := start, [], 0;
      fired, scheduled, cancelled, issued := [], {}, {}, {};
    }

    /** Pops the earliest timer: skipped when its flag is down, else fired at its own instant. */
    method PopFirst()
      requires Valid() && timers != []
      modifies this, timers[0]
      ensures Valid() && issued == old(issued) && timers == old(timers)[1..]
      ensures View() == old(if timers[0].active then FireFirst(View()) else View())
      ensures old(timers[0].active) ==> old(View().pending) != [] && old(View().pending[0] == timers[0].deadline)
    {
      var timer := timers[0];
      ghost var all, on := Deadlines(timers), On();
      assert all[1..] == Deadlines(timers[1..]);
      DeadlinesContain(timers[1..]);
      OneTimerADeadline(timers);
      forall d | d in all[1..]
        ensures d != timer.deadline
      {
        HeadFirst(all, d);
      }
      timers := timers[1..];
      assert timer.active <==> timer.deadline in on;
      if timer.active {
        now := timer.deadline.when;
        timer.active := false;
        fired := fired + [Firing(timer.deadline, now)];
      }
      assert On() == on - {timer.deadline};
      FilterAgrees(Deadlines(timers), on, on - {timer.deadline});
    }

    /** Fires every timer due on the way; false is the refusal to move backwards. */
    method AdvanceTo(ts: real) returns (ok: bool)
      requires Valid()
      modifies this, timers
      ensures Valid() && issued == old(issued)
      ensures ok <==> old(now) <= ts
      ensures View() == Step(old(View()), Op.AdvanceTo(ts))
    {
      if ts < now {
        return false;
      }
      while timers != [] && timers[0].deadline.when <= ts
        invariant Valid() && issued == old(issued)
        invariant forall t | t in timers :: t in old(timers)
        invariant Advance(View(), ts) == Advance(old(View()), ts)
        decreases |timers|
      {
        PopFirst();
      }
      ghost var on := On();
      NothingDue(Deadlines(timers), on, ts);
      now := ts;
      assert On() == on;
      return true;
    }

    method Jump(delta: real)
      requires Valid()
      modifies this, timers
      ensures Valid() && issued == old(issued)
      ensures View() == Step(old(View()), Op.Jump(delta))
    {
      if delta >= 0.0 {
        var ok := AdvanceTo(now + delta);
        return;
      }
      ghost var on := On();
      now := now + delta;
      assert On() == on;
    }

    /** Pushes a fresh timer numbered by the counter. */
    method Enqueue(t: Timer)
      requires Valid() && t !in issued && t.active && t.deadline.seqNo == nextSeq
      modifies this
      ensures Valid() && issued == old(issued) + {t}
      ensures View() == old(View().(pending := Insert(View().pending, t.deadline),
                                    nextSeq := nextSeq + 1,
                                    scheduled := scheduled + {t.deadline}))
    {
      hide Insert, Filter, Push;
      ghost var all, on := Deadlines(timers), On();
      DeadlinesBelow(timers, nextSeq);
      PushInserts(timers, t);
      InsertKeepsOrder(all, t.deadline);
      FilterInsert(all, on, t.deadline);
      timers, nextSeq := Push(timers, t), nextSeq + 1;
      scheduled, issued := scheduled + {t.deadline}, issued + {t};
      assert On() == on + {t.deadline};
    }

    /** Puts a deadline in the heap; a negative delay is refused. */
    method Schedule(delay: real) returns (timer: Timer?)
      requires Valid()
      modifies this
      ensures Valid()
      ensures timer == null <==> delay < 0.0
      ensures timer != null ==> fresh(timer) && timer.deadline == Deadline(old(now) + delay, old(nextSeq))
      ensures issued == if timer == null then old(issued) else old(issued) + {timer}
      ensures View() == Step(old(View()), Op.Schedule(delay))
    {
      if delay < 0.0 {
        return null;
      }
      var t := new Timer(Deadline(now + delay, nextSeq));
      Enqueue(t);
      return t;
    }

    /** What `timeout` does on the way out: the timer's flag drops, the heap is left alone. */
    method Cancel(timer: Timer)
      requires Valid() && timer in issued
      modifies timer, this`cancelled
      ensures Valid() && issued == old(issued)
      ensures View() == Step(old(View()), Op.Cancel(timer.deadline)) && !timer.active
    {
      ghost var all, on := Deadlines(timers), On();
      DeadlinesContain(timers);
      FilterElements(all, on);
      assert timer.active <==> timer.deadline in on;
      if timer.active {
        FilterWithout(all, on, timer.deadline);
        cancelled := cancelled + {timer.deadline};
      }
      timer.active := false;
      assert On() == if old(timer.active) then on - {timer.deadline} else on;
    }
  }
}
