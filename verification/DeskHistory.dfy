/**
 The fields of the folded state that hold no money, read straight off the log: each latch is what its
 last row says, and each counter counts the rows since the last day roll.
 */
module DeskHistory {
  import opened Wrappers
  import opened Events
  import opened Reducer
  import Breakers

  function LastOf(events: seq<Event>, p: Payload -> bool): (last: Option<Event>)
    ensures last.Some? ==> p(last.value.payload)
  {
    if events == [] then None
    else if p(events[|events| - 1].payload) then Some(events[|events| - 1])
    else LastOf(events[..|events| - 1], p)
  }

  /** The rows since the last day roll. */
  function Today(events: seq<Event>): seq<Event> {
    if events == [] || events[|events| - 1].payload.DailyRollover? then []
    else Today(events[..|events| - 1]) + [events[|events| - 1]]
  }

  function Count(events: seq<Event>, p: Payload -> bool): nat {
    if events == [] then 0
    else Count(events[..|events| - 1], p) + (if p(events[|events| - 1].payload) then 1 else 0)
  }

  function FeesPaid(events: seq<Event>): int {
    if events == [] then 0
    else
      var p := events[|events| - 1].payload;
      FeesPaid(events[..|events| - 1])
      + (if p.FillRecorded? then p.venueFee + p.networkCost else if p.OrderRejected? then p.fees else 0)
  }

  function UnknownRows(events: seq<Event>): seq<(int, string)> {
    if events == [] then []
    else
      var e := events[|events| - 1];
      UnknownRows(events[..|events| - 1]) + (if e.payload.Unknown? then [(e.seqNo, e.payload.eventType)] else [])
  }

  predicate IsHalt(p: Payload) { p.HaltSet? || p.HaltCleared? }
  predicate IsKill(p: Payload) { p.KillSwitchSet? || p.KillSwitchCleared? }
  predicate IsRoll(p: Payload) { p.DailyRollover? }
  predicate IsMark(p: Payload) { p.MarkToMarket? }
  predicate IsBuy(p: Payload) { p.FillRecorded? && p.side == "buy" }

  function Tally(counts: map<string, int>, reason: string): int {
    if reason in counts then counts[reason] else 0
  }

  function BreakerRow(name: string): Payload -> bool {
    (p: Payload) => (p.BreakerTripped? || p.BreakerReset?) && p.breaker == name
  }

  function ApprovalRow(id: string): Payload -> bool {
    (p: Payload) => p.ApprovalRecorded? && p.id == id
  }

  function RejectedFor(reason: string): Payload -> bool {
    (p: Payload) => p.OrderRejected? && p.reason == reason
  }

  /** Raising the peak touches the peak alone. */
  lemma OnlyThePeak(s: LedgerState, e: Event)
    ensures Reduce(s, e) == Apply(s, e).(peakEquity := Reduce(s, e).peakEquity)
  {
    hide Apply, Equity;
  }

  /** The last row folds onto everything before it. */
  lemma LastStep(s: LedgerState, events: seq<Event>)
    requires events != []
    ensures var n := |events| - 1; var before := Fold(s, events[..n]);
            Fold(s, events) == Apply(before, events[n]).(peakEquity := Fold(s, events).peakEquity)
  {
    hide Apply, Equity, Reduce;
    var n := |events| - 1;
    assert events == events[..n] + [events[n]];
    FoldSnoc(s, events[..n], events[n]);
    OnlyThePeak(Fold(s, events[..n]), events[n]);
  }

  predicate MovesMoney(p: Payload) {
    p.FillRecorded? || p.PositionOpened? || p.PositionClosed? || p.OrderRejected? || p.MarkToMarket?
  }

  lemma MoneyRowsKeepTheDesk(s: LedgerState, e: Event)
    requires MovesMoney(e.payload)
    ensures var t := Apply(s, e);
            t == s.(seqNo := e.seqNo, cash := t.cash, positions := t.positions,
                    counters := t.counters, lastMtmTs := t.lastMtmTs)
  {
  }

  lemma MoneyRowsMark(s: LedgerState, e: Event)
    requires MovesMoney(e.payload)
    ensures Apply(s, e).lastMtmTs == if e.payload.MarkToMarket? then e.tsUtc else s.lastMtmTs
  {
  }

  lemma ApplyLatches(s: LedgerState, e: Event)
    ensures Apply(s, e).halt
         == if e.payload.HaltSet? then HaltView(true, e.payload.reason, e.tsUtc)
            else if e.payload.HaltCleared? then NO_HALT else s.halt
    ensures Apply(s, e).killSwitch
         == if e.payload.KillSwitchSet? then KillSwitchView(true, e.payload.origin, e.tsUtc, e.payload.flattenRequested)
            else if e.payload.KillSwitchCleared? then NO_KILL else s.killSwitch
  {
    hide OnFill, OnPositionOpened, OnPositionClosed, OnRejected, OnMtm;
    if MovesMoney(e.payload) {
      MoneyRowsKeepTheDesk(s, e);
    }
  }

  lemma ApplyViews(s: LedgerState, e: Event)
    ensures Apply(s, e).breakers
         == if e.payload.BreakerTripped? then s.breakers[e.payload.breaker := BreakerView("open", e.tsUtc)]
            else if e.payload.BreakerReset? then s.breakers[e.payload.breaker := BreakerView("closed", e.tsUtc)]
            else s.breakers
    ensures Apply(s, e).approvals
         == if e.payload.ApprovalRecorded? && e.payload.id != ""
            then s.approvals[e.payload.id := ApprovalView(e.payload.kind, e.payload.consumed)] else s.approvals
  {
    hide OnFill, OnPositionOpened, OnPositionClosed, OnRejected, OnMtm;
    if MovesMoney(e.payload) {
      MoneyRowsKeepTheDesk(s, e);
    }
  }

  lemma ApplyDay(s: LedgerState, e: Event)
    ensures Apply(s, e).seqNo == e.seqNo
    ensures Apply(s, e).dayUtc == if e.payload.DailyRollover? then e.payload.dayUtc else s.dayUtc
    ensures Apply(s, e).dayStartEquity
         == if e.payload.DailyRollover? then e.payload.dayStartEquity else s.dayStartEquity
    ensures Apply(s, e).lastMtmTs == if e.payload.MarkToMarket? then e.tsUtc else s.lastMtmTs
    ensures Apply(s, e).unknownEvents
         == s.unknownEvents + if e.payload.Unknown? then [(e.seqNo, e.payload.eventType)] else []
  {
    hide OnFill, OnPositionOpened, OnPositionClosed, OnRejected, OnMtm;
    if MovesMoney(e.payload) {
      MoneyRowsKeepTheDesk(s, e);
      MoneyRowsMark(s, e);
    }
  }

  lemma ApplyCounters(s: LedgerState, e: Event)
    ensures e.payload.DailyRollover? ==> Apply(s, e).counters == NO_COUNTERS
    ensures var p, c, c' := e.payload, s.counters, Apply(s, e).counters;
            !p.DailyRollover? ==>
              && c'.tradesToday == c.tradesToday + (if p.FillRecorded? && p.side == "buy" then 1 else 0)
              && c'.feesToday == c.feesToday
                 + (if p.FillRecorded? then p.venueFee + p.networkCost else if p.OrderRejected? then p.fees else 0)
              && c'.rejectedToday
                 == if p.OrderRejected?
                    then c.rejectedToday[p.reason := Tally(c.rejectedToday, p.reason) + 1]
                    else c.rejectedToday
  {
  }

  /** The halt and the kill switch are what their last rows say. */
  lemma {:induction false} LatchesFollowTheirLastRow(s: LedgerState, events: seq<Event>)
    ensures Fold(s, events).halt
         == match LastOf(events, IsHalt)
            case None => s.halt
            case Some(e) => if e.payload.HaltSet? then HaltView(true, e.payload.reason, e.tsUtc) else NO_HALT
    ensures Fold(s, events).killSwitch
         == match LastOf(events, IsKill)
            case None => s.killSwitch
            case Some(e) =>
              if e.payload.KillSwitchSet?
              then KillSwitchView(true, e.payload.origin, e.tsUtc, e.payload.flattenRequested) else NO_KILL
    decreases |events|
  {
    hide Apply, Reduce, Equity;
    if events != [] {
      hide Fold;
      var n := |events| - 1;
      LatchesFollowTheirLastRow(s, events[..n]);
      LastStep(s, events);
      ApplyLatches(Fold(s, events[..|events| - 1]), events[|events| - 1]);
    }
  }

  /** A breaker view is open or closed as its last trip or reset row says. */
  lemma {:induction false} BreakerViewFollowsItsLastRow(s: LedgerState, events: seq<Event>, name: string)
    requires s.breakers == map[]
    ensures var views := Fold(s, events).breakers;
            match LastOf(events, BreakerRow(name))
            case None => name !in views
            case Some(e) =>
              && name in views
              && views[name] == BreakerView(if e.payload.BreakerTripped? then "open" else "closed", e.tsUtc)
    decreases |events|
  {
    hide Apply, Reduce, Equity;
    if events != [] {
      hide Fold;
      BreakerViewFollowsItsLastRow(s, events[..|events| - 1], name);
      LastStep(s, events);
      ApplyViews(Fold(s, events[..|events| - 1]), events[|events| - 1]);
    }
  }

  lemma {:induction false} ApprovalViewFollowsItsLastRow(s: LedgerState, events: seq<Event>, id: string)
    requires s.approvals == map[] && id != ""
    ensures var views := Fold(s, events).approvals;
            match LastOf(events, ApprovalRow(id))
            case None => id !in views
            case Some(e) => id in views && views[id] == ApprovalView(e.payload.kind, e.payload.consumed)
    decreases |events|
  {
    hide Apply, Reduce, Equity;
    if events != [] {
      hide Fold;
      ApprovalViewFollowsItsLastRow(s, events[..|events| - 1], id);
      LastStep(s, events);
      ApplyViews(Fold(s, events[..|events| - 1]), events[|events| - 1]);
    }
  }

  /** Day, day-start equity and last mark stamp come from their last rows; unknown rows are kept in order. */
  lemma {:induction false} DayFollowsTheLog(s: LedgerState, events: seq<Event>)
    ensures var t := Fold(s, events);
            && t.seqNo == (if events == [] then s.seqNo else events[|events| - 1].seqNo)
            && t.unknownEvents == s.unknownEvents + UnknownRows(events)
            && t.lastMtmTs == (match LastOf(events, IsMark) case None => s.lastMtmTs case Some(e) => e.tsUtc)
            && (t.dayUtc, t.dayStartEquity)
               == (match LastOf(events, IsRoll)
                   case None => (s.dayUtc, s.dayStartEquity)
                   case Some(e) => (e.payload.dayUtc, e.payload.dayStartEquity))
    decreases |events|
  {
    hide Apply, Reduce, Equity;
    if events != [] {
      hide Fold;
      DayFollowsTheLog(s, events[..|events| - 1]);
      LastStep(s, events);
      ApplyDay(Fold(s, events[..|events| - 1]), events[|events| - 1]);
    }
  }

  /** The day counters count the rows since the last day roll, from a start with none. */
  lemma {:induction false} CountersCountToday(s: LedgerState, events: seq<Event>, reason: string)
    requires s.counters == NO_COUNTERS
    ensures var c := Fold(s, events).counters;
            && c.tradesToday == Count(Today(events), IsBuy)
            && c.feesToday == FeesPaid(Today(events))
            && Tally(c.rejectedToday, reason) == Count(Today(events), RejectedFor(reason))
    decreases |events|
  {
    hide Apply, Reduce, Equity;
    if events != [] {
      hide Fold;
      var n := |events| - 1;
      CountersCountToday(s, events[..n], reason);
      LastStep(s, events);
      ApplyCounters(Fold(s, events[..|events| - 1]), events[|events| - 1]);
      if !events[n].payload.DailyRollover? {
        assert Today(events)[..|Today(events)| - 1] == Today(events[..n]);
      }
    }
  }

  /** A breaker's ledger view and the rebuild agree on whether it is open, and since when. */
  predicate ReadingsAgree(views: map<string, BreakerView>, since: Option<real>, name: string,
                          read: Breakers.StampReader)
  {
    if name in views && views[name].state == "open" then since.Some? && since == read(views[name].since)
    else since.None?
  }

  /**
   The two readings of the log agree on a breaker exactly when its last trip or reset row, if it is a
   trip, carries a stamp that can be read.
   */
  lemma ViewAgreesWithRebuild(s: LedgerState, events: seq<Event>, name: string, read: Breakers.StampReader)
    requires s.breakers == map[]
    ensures var last := LastOf(events, BreakerRow(name));
            ReadingsAgree(Fold(s, events).breakers, Breakers.OpenSince(events, name, read), name, read)
            <==> (last.Some? && last.value.payload.BreakerTripped? ==> read(last.value.tsUtc).Some?)
  {
    hide Fold;
    BreakerViewFollowsItsLastRow(s, events, name);
    LastOfIsOpenSince(events, name, read);
  }

  lemma {:induction false} LastOfIsOpenSince(events: seq<Event>, name: string, read: Breakers.StampReader)
    ensures var last, since := LastOf(events, BreakerRow(name)), Breakers.OpenSince(events, name, read);
            match last
            case None => since.None?
            case Some(e) =>
              if e.payload.BreakerReset? then since.None?
              else read(e.tsUtc).Some? ==> since == read(e.tsUtc)
  {
    if events != [] {
      LastOfIsOpenSince(events[..|events| - 1], name, read);
    }
  }
}
