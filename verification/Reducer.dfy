/** The pure ledger fold. */
module Reducer {
  import opened Wrappers
  import opened Arith
  import opened Events

  datatype PositionView = PositionView(
    mint: string,
    symbol: string,
    creator: string,
    ticketId: string,
    correlationId: string,
    priceEntry: real,
    pricePeak: real,
    tokenUnits: int,
    costBasis: int,
    fees: int,
    openedTs: string,
    lastMtm: int,
    lastMtmVenueFee: int,
    lastMtmTs: string,
    mtmSource: string,
    mtmFrozen: bool)

  datatype HaltView = HaltView(active: bool, reason: string, since: string)
  datatype KillSwitchView = KillSwitchView(active: bool, source: string, since: string, flattenRequested: bool)
  datatype BreakerView = BreakerView(state: string, since: string)
  datatype ApprovalView = ApprovalView(kind: string, consumed: bool)
  datatype CountersView = CountersView(
    tradesToday: int,
    rejectedToday: map<string, int>,
    feesToday: int,
    realizedToday: int)

  type Positions = map<string, PositionView>

  /** The folded state. Its `meta` field, which no handler touches, travels with the snapshot. */
  datatype LedgerState = LedgerState(
    seqNo: int,
    source: string,
    dayUtc: string,
    dayStartEquity: int,
    peakEquity: int,
    cash: int,
    positions: Positions,
    halt: HaltView,
    killSwitch: KillSwitchView,
    breakers: map<string, BreakerView>,
    approvals: map<string, ApprovalView>,
    counters: CountersView,
    lastMtmTs: string,
    unknownEvents: seq<(int, string)>)

  const NO_COUNTERS := CountersView(0, map[], 0, 0)
  const NO_HALT := HaltView(false, "", "")
  const NO_KILL := KillSwitchView(false, "", "", false)

  /** Genesis: cash, day start and peak all equal the initial equity. */
  function InitialState(source: string, initialEquity: int, dayUtc: string): LedgerState {
    LedgerState(0, source, dayUtc, initialEquity, initialEquity, initialEquity, map[],
                NO_HALT, NO_KILL, map[], map[], NO_COUNTERS, "", [])
  }

  // ---------------------------------------------------------------- valuation

  /** The last mark, or the cost basis until there is one. */
  function PositionValue(pos: PositionView): int {
    if pos.lastMtmTs != "" then pos.lastMtm else pos.costBasis
  }

  /** What a position adds to equity: nothing once its units are gone. */
  function Worth(pos: PositionView): int {
    if pos.tokenUnits > 0 then PositionValue(pos) else 0
  }

  function Basis(pos: PositionView): int {
    pos.costBasis
  }

  /** Sum of `f` over the positions, in whatever order they are visited. */
  ghost function SumOver(m: Positions, f: PositionView -> int): int
    decreases |m|
  {
    if m == map[] then 0
    else
      var k :| k in m;
      f(m[k]) + SumOver(m - {k}, f)
  }

  lemma {:induction false} SumSplit(m: Positions, f: PositionView -> int, k: string)
    requires k in m
    ensures SumOver(m, f) == f(m[k]) + SumOver(m - {k}, f)
    decreases |m|
  {
    var j :| j in m && SumOver(m, f) == f(m[j]) + SumOver(m - {j}, f);
    if j != k {
      SumSplit(m - {j}, f, k);
      SumSplit(m - {k}, f, j);
      assert m - {j} - {k} == m - {k} - {j};
    }
  }

  /** Writing one entry changes the sum by what that entry gained. */
  lemma SumUpdate(m: Positions, f: PositionView -> int, k: string, p: PositionView)
    ensures SumOver(m[k := p], f) == SumOver(m - {k}, f) + f(p)
    ensures SumOver(m[k := p], f) == SumOver(m, f) + f(p) - (if k in m then f(m[k]) else 0)
  {
    SumSplit(m[k := p], f, k);
    assert m[k := p] - {k} == m - {k};
    if k in m {
      SumSplit(m, f, k);
    } else {
      assert m - {k} == m;
    }
  }

  lemma SumRemove(m: Positions, f: PositionView -> int, k: string)
    ensures SumOver(m - {k}, f) == SumOver(m, f) - (if k in m then f(m[k]) else 0)
  {
    if k in m {
      SumSplit(m, f, k);
    } else {
      assert m - {k} == m;
    }
  }

  /** Two position maps that agree entry by entry under `f` and `g` have equal sums. */
  lemma {:induction false} SumPointwise(m: Positions, n: Positions, f: PositionView -> int)
    requires m.Keys == n.Keys
    requires forall k | k in m :: f(m[k]) == f(n[k])
    ensures SumOver(m, f) == SumOver(n, f)
    decreases |m|
  {
    if m == map[] {
      assert n == map[];
    } else {
      var k :| k in m;
      SumSplit(m, f, k);
      SumSplit(n, f, k);
      SumPointwise(m - {k}, n - {k}, f);
    }
  }

  /** Cash plus every open position at its mark or else at cost. */
  ghost function Equity(s: LedgerState): int {
    s.cash + SumOver(s.positions, Worth)
  }

  /** The loop form of the valuation that backtests share. */
  method EquityLamports(s: LedgerState) returns (total: int)
    ensures total == Equity(s)
  {
    total := s.cash;
    var todo := s.positions;
    while todo != map[]
      invariant todo.Keys <= s.positions.Keys
      invariant forall k | k in todo :: todo[k] == s.positions[k]
      invariant total + SumOver(todo, Worth) == Equity(s)
      decreases |todo|
    {
      var mint :| mint in todo;
      SumSplit(todo, Worth, mint);
      var pos := todo[mint];
      todo := todo - {mint};
      if pos.tokenUnits <= 0 {
        continue;
      }
      total := total + if pos.lastMtmTs != "" then pos.lastMtm else pos.costBasis;
    }
  }

  // ---------------------------------------------------------------- handlers

  function BuyInto(pos: PositionView, p: Payload): PositionView
    requires p.FillRecorded?
  {
    pos.(tokenUnits := pos.tokenUnits + p.filledUnits,
         costBasis := pos.costBasis - Min(p.cashDelta, 0),
         fees := pos.fees + p.venueFee + p.networkCost)
  }

  /** The floored pro-rata share of the cost basis that a sale takes with it. */
  function Reduction(pos: PositionView, filled: int): int
    requires pos.tokenUnits > 0
  {
    pos.costBasis * filled / pos.tokenUnits
  }

  /** The mark left after a sale: the pro-rata share, capped by the mark less what came in. */
  function RemainingMark(pos: PositionView, p: Payload): int
    requires p.FillRecorded? && pos.tokenUnits > 0
  {
    var received := p.cashDelta + p.networkCost;
    var share := pos.lastMtm * (pos.tokenUnits - p.filledUnits) / pos.tokenUnits;
    Min(share, Max(pos.lastMtm - received, 0))
  }

  function SellFrom(pos: PositionView, p: Payload): PositionView
    requires p.FillRecorded? && pos.tokenUnits > 0
  {
    var remaining := pos.tokenUnits - p.filledUnits;
    pos.(tokenUnits := remaining,
         costBasis := pos.costBasis - Reduction(pos, p.filledUnits),
         lastMtm := RemainingMark(pos, p),
         lastMtmVenueFee := pos.lastMtmVenueFee * remaining / pos.tokenUnits)
  }

  /** True when a fill row takes units out of a held position. */
  predicate Sells(s: LedgerState, p: Payload) {
    && p.FillRecorded?
    && p.side != "buy"
    && p.mint in s.positions
    && s.positions[p.mint].tokenUnits > 0
    && p.filledUnits > 0
  }

  /** A partial exit books its own slice; the slice that empties the position waits for its close row. */
  function SliceBooked(s: LedgerState, p: Payload): int {
    if Sells(s, p) && s.positions[p.mint].tokenUnits > p.filledUnits
    then p.cashDelta - Reduction(s.positions[p.mint], p.filledUnits)
    else 0
  }

  function OnFill(s: LedgerState, p: Payload): LedgerState
    requires p.FillRecorded?
  {
    var positions :=
      if p.mint in s.positions && p.side == "buy" then
        s.positions[p.mint := BuyInto(s.positions[p.mint], p)]
      else if Sells(s, p) then
        s.positions[p.mint := SellFrom(s.positions[p.mint], p)]
      else s.positions;
    s.(cash := s.cash + p.cashDelta,
       positions := positions,
       counters := s.counters.(
         feesToday := s.counters.feesToday + p.venueFee + p.networkCost,
         tradesToday := s.counters.tradesToday + (if p.side == "buy" then 1 else 0),
         realizedToday := s.counters.realizedToday + SliceBooked(s, p)))
  }

  function OnPositionOpened(s: LedgerState, p: Payload, correlationId: string): LedgerState
    requires p.PositionOpened?
  {
    if p.mint == "" then s
    else
      s.(positions := s.positions[p.mint := PositionView(
           p.mint, p.symbol, p.creator, p.ticketId, correlationId, p.priceEntry, p.priceEntry,
           p.tokenUnits, p.costBasis, 0, p.openedTs, 0, 0, "", "", false)])
  }

  function OnPositionClosed(s: LedgerState, p: Payload): LedgerState
    requires p.PositionClosed?
  {
    s.(positions := s.positions - {p.mint},
       counters := s.counters.(realizedToday := s.counters.realizedToday + p.realizedPnl))
  }

  function OnRejected(s: LedgerState, p: Payload): LedgerState
    requires p.OrderRejected?
  {
    var before := if p.reason in s.counters.rejectedToday then s.counters.rejectedToday[p.reason] else 0;
    s.(cash := s.cash - p.fees,
       counters := s.counters.(
         rejectedToday := s.counters.rejectedToday[p.reason := before + 1],
         feesToday := s.counters.feesToday + p.fees))
  }

  function Marked(pos: PositionView, mark: Mark, tsUtc: string): PositionView {
    if pos.mtmFrozen then pos
    else
      pos.(lastMtm := mark.mtm.GetOr(pos.lastMtm),
           lastMtmVenueFee := mark.venueFee.GetOr(pos.lastMtmVenueFee),
           lastMtmTs := mark.tsUtc.GetOr(tsUtc),
           mtmSource := mark.source,
           pricePeak := if mark.spot.Number? then MaxReal(pos.pricePeak, mark.spot.value) else pos.pricePeak)
  }

  function MarkAll(positions: Positions, prices: map<string, Mark>, tsUtc: string): Positions {
    map mint | mint in positions ::
      if mint in prices then Marked(positions[mint], prices[mint], tsUtc) else positions[mint]
  }

  function OnMtm(s: LedgerState, p: Payload, tsUtc: string): LedgerState
    requires p.MarkToMarket?
  {
    s.(positions := MarkAll(s.positions, p.prices, tsUtc), lastMtmTs := tsUtc)
  }

  /** Halt and kill-switch rows. */
  function OnLatchRow(s: LedgerState, e: Event): LedgerState {
    match e.payload
    case HaltSet(reason, _) => s.(halt := HaltView(true, reason, e.tsUtc))
    case HaltCleared(_) => s.(halt := NO_HALT)
    case KillSwitchSet(origin, flatten, _) => s.(killSwitch := KillSwitchView(true, origin, e.tsUtc, flatten))
    case KillSwitchCleared(_) => s.(killSwitch := NO_KILL)
    case _ => s
  }

  /** Breaker, approval and day-roll rows, and the types this process does not know. */
  function OnDeskRow(s: LedgerState, e: Event): LedgerState {
    match e.payload
    case BreakerTripped(name, _) => s.(breakers := s.breakers[name := BreakerView("open", e.tsUtc)])
    case BreakerReset(name, _) => s.(breakers := s.breakers[name := BreakerView("closed", e.tsUtc)])
    case DailyRollover(day, start, _) => s.(dayUtc := day, dayStartEquity := start, counters := NO_COUNTERS)
    case ApprovalRecorded(id, kind, consumed, _) =>
      if id == "" then s else s.(approvals := s.approvals[id := ApprovalView(kind, consumed)])
    case Unknown(eventType, _) => s.(unknownEvents := s.unknownEvents + [(e.seqNo, eventType)])
    case _ => s
  }

  predicate Latches(p: Payload) {
    p.HaltSet? || p.HaltCleared? || p.KillSwitchSet? || p.KillSwitchCleared?
  }

  /** Every handler's effect, before the peak is raised. */
  function Apply(s: LedgerState, e: Event): LedgerState {
    var next :=
      match e.payload
      case FillRecorded(_, _, _, _, _, _, _) => OnFill(s, e.payload)
      case PositionOpened(_, _, _, _, _, _, _, _, _) => OnPositionOpened(s, e.payload, e.correlationId)
      case PositionClosed(_, _, _) => OnPositionClosed(s, e.payload)
      case OrderRejected(_, _, _) => OnRejected(s, e.payload)
      case MarkToMarket(_, _) => OnMtm(s, e.payload, e.tsUtc)
      case _ => if Latches(e.payload) then OnLatchRow(s, e) else OnDeskRow(s, e);
    next.(seqNo := e.seqNo)
  }

  /** The handlers that end by raising the peak. */
  predicate TracksPeak(p: Payload) {
    (p.PositionOpened? && p.mint != "") || p.PositionClosed? || p.FillRecorded? || p.MarkToMarket?
  }

  ghost function RaisePeak(s: LedgerState): LedgerState {
    if Equity(s) > s.peakEquity then s.(peakEquity := Equity(s)) else s
  }

  /** One stored row folded into a new state. */
  ghost function Reduce(s: LedgerState, e: Event): LedgerState {
    if TracksPeak(e.payload) then RaisePeak(Apply(s, e)) else Apply(s, e)
  }

  /** The row that makes the fold raise: a mark with an unreadable spot on a live position. */
  predicate RaisesCorruptState(s: LedgerState, e: Event) {
    && e.payload.MarkToMarket?
    && exists mint | mint in e.payload.prices ::
         && mint in s.positions
         && !s.positions[mint].mtmFrozen
         && e.payload.prices[mint].spot.NotANumber?
  }

  /** The fold step as a caller sees it: `None` is the CorruptState exception. */
  ghost function TryReduce(s: LedgerState, e: Event): Option<LedgerState> {
    if RaisesCorruptState(s, e) then None else Some(Reduce(s, e))
  }

  ghost function Fold(s: LedgerState, events: seq<Event>): LedgerState
    decreases |events|
  {
    if events == [] then s else Fold(Reduce(s, events[0]), events[1..])
  }

  ghost function TryFold(s: LedgerState, events: seq<Event>): Option<LedgerState>
    decreases |events|
  {
    if events == [] then Some(s)
    else
      var next :- TryReduce(s, events[0]);
      TryFold(next, events[1..])
  }

  /** The executable step. */
  method ReduceRow(s: LedgerState, e: Event) returns (r: Option<LedgerState>)
    ensures r == TryReduce(s, e)
  {
    if RaisesCorruptState(s, e) {
      return None;
    }
    var next := Apply(s, e);
    if TracksPeak(e.payload) {
      var equity := EquityLamports(next);
      if equity > next.peakEquity {
        next := next.(peakEquity := equity);
      }
    }
    return Some(next);
  }

  // ---------------------------------------------------------------- row effects

  lemma FillEffect(s: LedgerState, e: Event)
    requires e.payload.FillRecorded?
    ensures Reduce(s, e).cash == s.cash + e.payload.cashDelta
    ensures Reduce(s, e).positions == OnFill(s, e.payload).positions
    ensures Reduce(s, e).counters.realizedToday == s.counters.realizedToday + SliceBooked(s, e.payload)
  {
  }

  lemma OpenedEffect(s: LedgerState, e: Event)
    requires e.payload.PositionOpened?
    ensures Reduce(s, e).cash == s.cash
    ensures Reduce(s, e).positions == OnPositionOpened(s, e.payload, e.correlationId).positions
    ensures Reduce(s, e).counters.realizedToday == s.counters.realizedToday
  {
  }

  lemma ClosedEffect(s: LedgerState, e: Event)
    requires e.payload.PositionClosed?
    ensures Reduce(s, e).cash == s.cash
    ensures Reduce(s, e).positions == s.positions - {e.payload.mint}
    ensures Reduce(s, e).counters.realizedToday == s.counters.realizedToday + e.payload.realizedPnl
  {
  }

  lemma MarkEffect(s: LedgerState, e: Event)
    requires e.payload.MarkToMarket?
    ensures Reduce(s, e).cash == s.cash
    ensures Reduce(s, e).positions == MarkAll(s.positions, e.payload.prices, e.tsUtc)
    ensures Reduce(s, e).counters == s.counters
  {
  }

  lemma LatchRowEffect(s: LedgerState, e: Event)
    ensures OnLatchRow(s, e).cash == s.cash
    ensures OnLatchRow(s, e).positions == s.positions
    ensures OnLatchRow(s, e).peakEquity == s.peakEquity
    ensures OnLatchRow(s, e).counters == s.counters
  {
  }

  lemma DeskRowEffect(s: LedgerState, e: Event)
    ensures OnDeskRow(s, e).cash == s.cash
    ensures OnDeskRow(s, e).positions == s.positions
    ensures OnDeskRow(s, e).peakEquity == s.peakEquity
    ensures OnDeskRow(s, e).counters.realizedToday
         == if e.payload.DailyRollover? then 0 else s.counters.realizedToday
  {
  }

  /** Refusals move cash only; the remaining rows move no money at all. */
  lemma PlainEffect(s: LedgerState, e: Event)
    requires !e.payload.FillRecorded? && !e.payload.PositionOpened?
    requires !e.payload.PositionClosed? && !e.payload.MarkToMarket?
    ensures Reduce(s, e).cash == s.cash - (if e.payload.OrderRejected? then e.payload.fees else 0)
    ensures Reduce(s, e).positions == s.positions
    ensures Reduce(s, e).peakEquity == s.peakEquity
    ensures Reduce(s, e).counters.realizedToday
         == if e.payload.DailyRollover? then 0 else s.counters.realizedToday
  {
    LatchRowEffect(s, e);
    DeskRowEffect(s, e);
  }

  // ---------------------------------------------------------------- fold laws

  /** A fold that does not raise is the plain fold. */
  lemma {:induction false} TryFoldIsFold(s: LedgerState, events: seq<Event>)
    requires TryFold(s, events).Some?
    ensures TryFold(s, events).value == Fold(s, events)
    decreases |events|
  {
    if events != [] {
      TryFoldIsFold(Reduce(s, events[0]), events[1..]);
    }
  }

  lemma {:induction false} FoldSplit(s: LedgerState, a: seq<Event>, b: seq<Event>)
    ensures Fold(s, a + b) == Fold(Fold(s, a), b)
    decreases |a|
  {
    if a == [] {
      assert a + b == b;
    } else {
      assert (a + b)[1..] == a[1..] + b;
      FoldSplit(Reduce(s, a[0]), a[1..], b);
    }
  }

  lemma FoldSnoc(s: LedgerState, a: seq<Event>, e: Event)
    ensures Fold(s, a + [e]) == Reduce(Fold(s, a), e)
  {
    FoldSplit(s, a, [e]);
    assert [e][1..] == [];
  }

  lemma {:induction false} TryFoldSplit(s: LedgerState, a: seq<Event>, b: seq<Event>)
    ensures TryFold(s, a + b) == (if TryFold(s, a).None? then None else TryFold(TryFold(s, a).value, b))
    decreases |a|
  {
    if a == [] {
      assert a + b == b;
    } else {
      assert (a + b)[1..] == a[1..] + b;
      if TryReduce(s, a[0]).Some? {
        TryFoldSplit(Reduce(s, a[0]), a[1..], b);
      }
    }
  }

  lemma TryFoldSnoc(s: LedgerState, a: seq<Event>, e: Event)
    ensures TryFold(s, a + [e]) == (if TryFold(s, a).None? then None else TryReduce(TryFold(s, a).value, e))
  {
    TryFoldSplit(s, a, [e]);
    assert [e][1..] == [];
  }
}
