/**
 What every well-formed log keeps: money is conserved through floored partial exits and day rolls,
 the peak is the running maximum of equity, and a sale never invents value.
 */
module BookValue {
  import opened Wrappers
  import opened Arith
  import opened Events
  import opened Reducer

  // ---------------------------------------------------------------- the row discipline

  /** Between which two rows of a settlement a log stands. */
  datatype Phase =
    | Settled
    | AwaitOpen(mint: string, units: int, basis: int)
    | AwaitClose(mint: string, realized: int)

  /** The rows the paper adapter may append next. */
  predicate Allowed(s: LedgerState, ph: Phase, e: Event) {
    var p := e.payload;
    match ph
    case AwaitOpen(mint, units, basis) =>
      p.PositionOpened? && p.mint == mint && p.tokenUnits == units && p.costBasis == basis
    case AwaitClose(mint, realized) =>
      p.PositionClosed? && p.mint == mint && p.realizedPnl == realized
    case Settled =>
      match p
      case FillRecorded(side, mint, filled, cashDelta, _, _, _) =>
        && mint != ""
        && filled > 0
        && (if side == "buy" then cashDelta <= 0
            else mint in s.positions && filled <= s.positions[mint].tokenUnits)
      case PositionOpened(_, _, _, _, _, _, _, _, _) => false
      case PositionClosed(_, _, _) => false
      case MarkToMarket(prices, _) => forall mint | mint in prices :: prices[mint].spot.Number?
      case _ => true
  }

  /** A buy on a flat mint owes its position row; a fill that empties a mint owes its close row. */
  function NextPhase(s: LedgerState, e: Event): Phase {
    var p := e.payload;
    if !p.FillRecorded? then Settled
    else if p.side == "buy" then
      if p.mint in s.positions then Settled else AwaitOpen(p.mint, p.filledUnits, -p.cashDelta)
    else if p.mint in s.positions && s.positions[p.mint].tokenUnits == p.filledUnits then
      AwaitClose(p.mint, p.cashDelta - s.positions[p.mint].costBasis)
    else Settled
  }

  ghost predicate WellFormed(s: LedgerState, ph: Phase, events: seq<Event>)
    decreases |events|
  {
    events != [] ==>
      && Allowed(s, ph, events[0])
      && WellFormed(Reduce(s, events[0]), NextPhase(s, events[0]), events[1..])
  }

  ghost function EndPhase(s: LedgerState, ph: Phase, events: seq<Event>): Phase
    decreases |events|
  {
    if events == [] then ph
    else EndPhase(Reduce(s, events[0]), NextPhase(s, events[0]), events[1..])
  }

  /** The positions a well-formed log can hold in a phase. */
  ghost predicate PhaseOk(s: LedgerState, ph: Phase) {
    && (forall mint | mint in s.positions ::
          && mint != ""
          && (if ph.AwaitClose? && ph.mint == mint
              then s.positions[mint].tokenUnits == 0 && s.positions[mint].costBasis == 0
              else s.positions[mint].tokenUnits > 0))
    && (ph.AwaitOpen? ==> ph.mint !in s.positions && ph.mint != "" && ph.units > 0)
    && (ph.AwaitClose? ==> ph.mint in s.positions)
  }

  // ---------------------------------------------------------------- conservation

  function RejectedFees(events: seq<Event>): int
    decreases |events|
  {
    if events == [] then 0
    else (if events[0].payload.OrderRejected? then events[0].payload.fees else 0) + RejectedFees(events[1..])
  }

  function FillCash(events: seq<Event>): int
    decreases |events|
  {
    if events == [] then 0
    else (if events[0].payload.FillRecorded? then events[0].payload.cashDelta else 0) + FillCash(events[1..])
  }

  /** All realized PnL ever booked: the day counter as each rollover discards it, plus the last day's. */
  ghost function RealizedEver(s: LedgerState, events: seq<Event>): int
    decreases |events|
  {
    if events == [] then s.counters.realizedToday
    else
      (if events[0].payload.DailyRollover? then s.counters.realizedToday else 0)
      + RealizedEver(Reduce(s, events[0]), events[1..])
  }

  ghost function OpenBasis(s: LedgerState): int {
    SumOver(s.positions, Basis)
  }

  /** Book value, counting a half-written settlement as if its second row had landed. */
  ghost function Book(s: LedgerState, ph: Phase): int {
    s.cash + OpenBasis(s)
    + (match ph case Settled => 0 case AwaitOpen(_, _, basis) => basis case AwaitClose(_, realized) => -realized)
  }

  /** The realized PnL a single row books. */
  ghost function Booked(s: LedgerState, e: Event): int {
    if e.payload.DailyRollover? then 0
    else Reduce(s, e).counters.realizedToday - s.counters.realizedToday
  }

  /** What one row does to the phase discipline. */
  lemma StepKeepsPhase(s: LedgerState, ph: Phase, e: Event)
    requires PhaseOk(s, ph) && Allowed(s, ph, e)
    ensures PhaseOk(Reduce(s, e), NextPhase(s, e))
    ensures TryReduce(s, e) == Some(Reduce(s, e))
  {
    var p := e.payload;
    if p.FillRecorded? {
      FillKeepsPhase(s, e);
    } else if p.PositionOpened? {
      OpenedEffect(s, e);
    } else if p.PositionClosed? {
      ClosedEffect(s, e);
    } else if p.MarkToMarket? {
      MarkEffect(s, e);
    } else {
      PlainEffect(s, e);
    }
  }

  lemma FillKeepsPhase(s: LedgerState, e: Event)
    requires PhaseOk(s, Settled) && Allowed(s, Settled, e) && e.payload.FillRecorded?
    ensures PhaseOk(Reduce(s, e), NextPhase(s, e))
  {
    FillEffect(s, e);
    var p := e.payload;
    if p.side != "buy" {
      var pos := s.positions[p.mint];
      assert Sells(s, p);
      if p.filledUnits == pos.tokenUnits {
        FloorExact(pos.costBasis, pos.tokenUnits);
      }
    }
  }

  lemma FillKeepsBook(s: LedgerState, e: Event)
    requires PhaseOk(s, Settled) && Allowed(s, Settled, e) && e.payload.FillRecorded?
    ensures Book(Reduce(s, e), NextPhase(s, e)) == Book(s, Settled) + Booked(s, e)
  {
    FillEffect(s, e);
    var p := e.payload;
    if p.mint in s.positions {
      var pos := s.positions[p.mint];
      if p.side == "buy" {
        SumUpdate(s.positions, Basis, p.mint, BuyInto(pos, p));
      } else {
        assert Sells(s, p);
        SumUpdate(s.positions, Basis, p.mint, SellFrom(pos, p));
        if p.filledUnits == pos.tokenUnits {
          FloorExact(pos.costBasis, pos.tokenUnits);
        }
      }
    }
  }

  lemma MarksKeepBasis(s: LedgerState, e: Event)
    requires e.payload.MarkToMarket?
    ensures OpenBasis(Reduce(s, e)) == OpenBasis(s)
  {
    MarkEffect(s, e);
    SumPointwise(s.positions, Reduce(s, e).positions, Basis);
  }

  /** One allowed row moves book value by exactly what it books, less a refusal's fees. */
  lemma StepKeepsBook(s: LedgerState, ph: Phase, e: Event)
    requires PhaseOk(s, ph) && Allowed(s, ph, e)
    ensures Book(Reduce(s, e), NextPhase(s, e)) == Book(s, ph) + Booked(s, e) - RejectedFees([e])
  {
    assert RejectedFees([e][1..]) == 0;
    var p := e.payload;
    if p.FillRecorded? {
      FillKeepsBook(s, e);
    } else if p.PositionOpened? {
      OpenedEffect(s, e);
      SumUpdate(s.positions, Basis, p.mint, Reduce(s, e).positions[p.mint]);
    } else if p.PositionClosed? {
      ClosedEffect(s, e);
      SumRemove(s.positions, Basis, p.mint);
    } else if p.MarkToMarket? {
      MarkEffect(s, e);
      MarksKeepBasis(s, e);
    } else {
      PlainEffect(s, e);
    }
  }

  lemma {:induction false} RunKeepsBook(s: LedgerState, ph: Phase, events: seq<Event>)
    requires PhaseOk(s, ph) && WellFormed(s, ph, events)
    ensures PhaseOk(Fold(s, events), EndPhase(s, ph, events))
    ensures TryFold(s, events) == Some(Fold(s, events))
    ensures Book(Fold(s, events), EndPhase(s, ph, events))
         == Book(s, ph) + RealizedEver(s, events) - s.counters.realizedToday - RejectedFees(events)
    decreases |events|
  {
    if events != [] {
      StepKeepsPhase(s, ph, events[0]);
      StepKeepsBook(s, ph, events[0]);
      RunKeepsBook(Reduce(s, events[0]), NextPhase(s, events[0]), events[1..]);
      assert [events[0]][1..] == [];
    }
  }

  /**
   Double entry: in every settled state of every well-formed log, cash plus the open cost bases is the
   initial equity plus all realized PnL ever booked, across day rolls, less the refusals' fees.
   */
  lemma BookValueConserved(source: string, initialEquity: int, day: string, events: seq<Event>)
    requires WellFormed(InitialState(source, initialEquity, day), Settled, events)
    requires EndPhase(InitialState(source, initialEquity, day), Settled, events) == Settled
    ensures
      var genesis := InitialState(source, initialEquity, day);
      var end := Fold(genesis, events);
      end.cash + OpenBasis(end) == initialEquity + RealizedEver(genesis, events) - RejectedFees(events)
  {
    RunKeepsBook(InitialState(source, initialEquity, day), Settled, events);
  }

  lemma StepMovesCash(s: LedgerState, e: Event)
    ensures Reduce(s, e).cash
         == s.cash + (if e.payload.FillRecorded? then e.payload.cashDelta else 0)
            - (if e.payload.OrderRejected? then e.payload.fees else 0)
  {
    var p := e.payload;
    if p.PositionOpened? {
      OpenedEffect(s, e);
    } else if !p.FillRecorded? && !p.PositionClosed? && !p.MarkToMarket? {
      PlainEffect(s, e);
    }
  }

  /** The cash equation holds of every log, well formed or not. */
  lemma {:induction false} CashEquation(s: LedgerState, events: seq<Event>)
    ensures Fold(s, events).cash == s.cash + FillCash(events) - RejectedFees(events)
    decreases |events|
  {
    if events != [] {
      StepMovesCash(s, events[0]);
      CashEquation(Reduce(s, events[0]), events[1..]);
    }
  }

  /**
   No slice is lost or counted twice: once everything bought has been sold, the realized PnL ever
   booked, partial slices and closing slices together, is exactly the net cash of all fills.
   */
  lemma RealizedIsNetCashWhenFlat(source: string, initialEquity: int, day: string, events: seq<Event>)
    requires WellFormed(InitialState(source, initialEquity, day), Settled, events)
    requires EndPhase(InitialState(source, initialEquity, day), Settled, events) == Settled
    requires Fold(InitialState(source, initialEquity, day), events).positions == map[]
    ensures RealizedEver(InitialState(source, initialEquity, day), events) == FillCash(events)
  {
    BookValueConserved(source, initialEquity, day, events);
    CashEquation(InitialState(source, initialEquity, day), events);
  }

  // ---------------------------------------------------------------- units

  function UnitsMoved(e: Event, mint: string): int {
    var p := e.payload;
    if p.FillRecorded? && p.mint == mint then (if p.side == "buy" then p.filledUnits else -p.filledUnits) else 0
  }

  function FillUnits(events: seq<Event>, mint: string): int
    decreases |events|
  {
    if events == [] then 0 else UnitsMoved(events[0], mint) + FillUnits(events[1..], mint)
  }

  /** Units of a mint, counting a buy whose position row is still due. */
  ghost function Held(s: LedgerState, ph: Phase, mint: string): int {
    if mint in s.positions then s.positions[mint].tokenUnits
    else if ph.AwaitOpen? && ph.mint == mint then ph.units
    else 0
  }

  lemma StepMovesUnits(s: LedgerState, ph: Phase, e: Event, mint: string)
    requires PhaseOk(s, ph) && Allowed(s, ph, e)
    ensures Held(Reduce(s, e), NextPhase(s, e), mint) == Held(s, ph, mint) + UnitsMoved(e, mint)
  {
    var p := e.payload;
    if p.FillRecorded? {
      FillEffect(s, e);
      assert p.side != "buy" ==> Sells(s, p);
    } else if p.PositionOpened? {
      OpenedEffect(s, e);
    } else if p.PositionClosed? {
      ClosedEffect(s, e);
    } else if p.MarkToMarket? {
      MarkEffect(s, e);
    } else {
      PlainEffect(s, e);
    }
  }

  /** In a well-formed log the units held of every mint are the signed sum of its fills. */
  lemma {:induction false} UnitsAreSummedFills(s: LedgerState, ph: Phase, events: seq<Event>, mint: string)
    requires PhaseOk(s, ph) && WellFormed(s, ph, events)
    ensures Held(Fold(s, events), EndPhase(s, ph, events), mint) == Held(s, ph, mint) + FillUnits(events, mint)
    decreases |events|
  {
    if events != [] {
      StepKeepsPhase(s, ph, events[0]);
      StepMovesUnits(s, ph, events[0], mint);
      UnitsAreSummedFills(Reduce(s, events[0]), NextPhase(s, events[0]), events[1..], mint);
    }
  }

  // ---------------------------------------------------------------- peak and drawdown

  ghost predicate FeesNonNegative(events: seq<Event>) {
    forall i | 0 <= i < |events| && events[i].payload.OrderRejected? :: events[i].payload.fees >= 0
  }

  /** A row that does not raise the peak leaves equity alone, unless it is a refusal with fees. */
  lemma UntrackedEquity(s: LedgerState, e: Event)
    requires !TracksPeak(e.payload)
    ensures Equity(Reduce(s, e)) == Equity(s) - RejectedFees([e])
    ensures Reduce(s, e).peakEquity == s.peakEquity
  {
    assert [e][1..] == [];
    if e.payload.PositionOpened? {
      OpenedEffect(s, e);
    } else {
      PlainEffect(s, e);
    }
  }

  /** Exactly one row can lift equity above the peak: a refusal whose fees are negative enough. */
  lemma PeakStepExact(s: LedgerState, e: Event)
    requires Equity(s) <= s.peakEquity
    ensures Equity(Reduce(s, e)) <= Reduce(s, e).peakEquity
            <==> !(e.payload.OrderRejected? && -e.payload.fees > s.peakEquity - Equity(s))
  {
    if !TracksPeak(e.payload) {
      UntrackedEquity(s, e);
      assert [e][1..] == [];
    } else {
      assert RaisePeak(Apply(s, e)).positions == Apply(s, e).positions;
    }
  }

  /** The highest equity of any state a run passes through. */
  ghost function HighestEquity(s: LedgerState, events: seq<Event>): int
    decreases |events|
  {
    if events == [] then Equity(s)
    else Max(Equity(s), HighestEquity(Reduce(s, events[0]), events[1..]))
  }

  lemma {:induction false} PeakIsHighestEquity(s: LedgerState, events: seq<Event>)
    requires Equity(s) <= s.peakEquity && FeesNonNegative(events)
    ensures Fold(s, events).peakEquity == Max(s.peakEquity, HighestEquity(s, events))
    ensures Equity(Fold(s, events)) <= Fold(s, events).peakEquity
    decreases |events|
  {
    if events != [] {
      var e := events[0];
      PeakStepExact(s, e);
      if TracksPeak(e.payload) {
        assert Apply(s, e).peakEquity == s.peakEquity;
        assert Equity(Reduce(s, e)) == Equity(Apply(s, e));
      } else {
        UntrackedEquity(s, e);
        assert [e][1..] == [];
      }
      PeakIsHighestEquity(Reduce(s, e), events[1..]);
    }
  }

  /** (peak - equity) / peak, or zero without a positive peak. */
  ghost function DrawdownFraction(s: LedgerState): real {
    if s.peakEquity <= 0 then 0.0
    else (s.peakEquity - Equity(s)) as real / s.peakEquity as real
  }

  /** From genesis on, peak equity is the highest equity so far and drawdown is never negative. */
  lemma DrawdownNeverNegative(source: string, initialEquity: int, day: string, events: seq<Event>)
    requires FeesNonNegative(events)
    ensures
      var genesis := InitialState(source, initialEquity, day);
      var end := Fold(genesis, events);
      && end.peakEquity == HighestEquity(genesis, events)
      && Equity(end) <= end.peakEquity
      && DrawdownFraction(end) >= 0.0
      && (DrawdownFraction(end) == 0.0 <==> end.peakEquity <= 0 || Equity(end) == end.peakEquity)
  {
    var genesis := InitialState(source, initialEquity, day);
    PeakIsHighestEquity(genesis, events);
    var end := Fold(genesis, events);
    if end.peakEquity > 0 {
      var gap, peak := (end.peakEquity - Equity(end)) as real, end.peakEquity as real;
      assert gap / peak == 0.0 <==> gap == 0.0 by {
        assert gap / peak * peak == gap;
      }
    }
  }

  /** A refusal that pays out shows why the fees must not be negative. */
  lemma NegativeFeesBreakThePeak()
    ensures
      var s := Fold(InitialState("paper", 100, ""), [Event(1, "t", "paper", "c", OrderRejected("r", -1, ""))]);
      Equity(s) == 101 && s.peakEquity == 100 && DrawdownFraction(s) < 0.0
  {
    var genesis := InitialState("paper", 100, "");
    var e := Event(1, "t", "paper", "c", OrderRejected("r", -1, ""));
    assert [e][1..] == [];
    assert Fold(genesis, [e]) == Reduce(genesis, e);
    UntrackedEquity(genesis, e);
  }

  // ---------------------------------------------------------------- partial exits

  /** A sale that stays within the holding. */
  predicate Sale(s: LedgerState, mint: string, e: Event) {
    && e.payload.FillRecorded?
    && e.payload.mint == mint
    && e.payload.side != "buy"
    && mint in s.positions
    && 0 < e.payload.filledUnits <= s.positions[mint].tokenUnits
  }

  /** A position sold down from an honest mark has nothing negative in it, and nothing at all once empty. */
  predicate NonNegative(pos: PositionView) {
    && 0 <= pos.tokenUnits && 0 <= pos.costBasis && 0 <= pos.lastMtm && 0 <= pos.lastMtmVenueFee
    && (pos.tokenUnits == 0 ==> pos.costBasis == 0 && pos.lastMtm == 0 && pos.lastMtmVenueFee == 0)
  }

  lemma SaleKeepsNonNegative(s: LedgerState, mint: string, e: Event)
    requires Sale(s, mint, e) && NonNegative(s.positions[mint])
    ensures mint in Reduce(s, e).positions && NonNegative(Reduce(s, e).positions[mint])
    ensures Reduce(s, e).positions[mint].tokenUnits == s.positions[mint].tokenUnits - e.payload.filledUnits
    ensures Reduce(s, e).positions[mint].costBasis <= s.positions[mint].costBasis
    ensures Reduce(s, e).positions[mint].lastMtm <= s.positions[mint].lastMtm
    ensures Reduce(s, e).positions[mint].lastMtmVenueFee <= s.positions[mint].lastMtmVenueFee
  {
    var pos, filled := s.positions[mint], e.payload.filledUnits;
    assert Sells(s, e.payload);
    assert Reduce(s, e).positions[mint] == SellFrom(pos, e.payload);
    SliceWithin(pos.costBasis, filled, pos.tokenUnits);
    SliceWithin(pos.lastMtm, pos.tokenUnits - filled, pos.tokenUnits);
    SliceWithin(pos.lastMtmVenueFee, pos.tokenUnits - filled, pos.tokenUnits);
    FloorExact(pos.costBasis, pos.tokenUnits);
  }

  ghost predicate SaleRun(s: LedgerState, mint: string, events: seq<Event>)
    decreases |events|
  {
    events != [] ==> Sale(s, mint, events[0]) && SaleRun(Reduce(s, events[0]), mint, events[1..])
  }

  function UnitsSold(events: seq<Event>): int
    decreases |events|
  {
    if events == [] then 0
    else (if events[0].payload.FillRecorded? then events[0].payload.filledUnits else 0) + UnitsSold(events[1..])
  }

  /** Over any run of sales, basis, mark and stored venue fee stay non-negative and empty out together. */
  lemma {:induction false} SaleRunKeepsNonNegative(s: LedgerState, mint: string, events: seq<Event>)
    requires SaleRun(s, mint, events) && mint in s.positions && NonNegative(s.positions[mint])
    ensures mint in Fold(s, events).positions && NonNegative(Fold(s, events).positions[mint])
    ensures Fold(s, events).positions[mint].tokenUnits == s.positions[mint].tokenUnits - UnitsSold(events)
    ensures UnitsSold(events) == s.positions[mint].tokenUnits ==>
              Fold(s, events).positions[mint].costBasis == 0
              && Fold(s, events).positions[mint].lastMtm == 0
              && Fold(s, events).positions[mint].lastMtmVenueFee == 0
    decreases |events|
  {
    if events != [] {
      SaleKeepsNonNegative(s, mint, events[0]);
      SaleRunKeepsNonNegative(Reduce(s, events[0]), mint, events[1..]);
    }
  }

  /** A sale swaps one position's worth for cash and touches nothing else. */
  lemma SaleEquity(s: LedgerState, mint: string, e: Event)
    requires Sale(s, mint, e)
    ensures Equity(Reduce(s, e)) - Equity(s)
         == e.payload.cashDelta + Worth(SellFrom(s.positions[mint], e.payload)) - Worth(s.positions[mint])
  {
    assert Sells(s, e.payload);
    SumUpdate(s.positions, Worth, mint, SellFrom(s.positions[mint], e.payload));
    assert Reduce(s, e).positions == s.positions[mint := SellFrom(s.positions[mint], e.payload)];
  }

  /**
   A sale out of a marked position lifts equity by no more than the larger of minus its network cost
   and its proceeds above the whole mark; the sale that empties the position moves it by exactly that.
   */
  lemma SaleNeverInventsValue(s: LedgerState, mint: string, e: Event)
    requires Sale(s, mint, e) && s.positions[mint].lastMtmTs != "" && s.positions[mint].lastMtm >= 0
    ensures
      var mark, p := s.positions[mint].lastMtm, e.payload;
      var change := Equity(Reduce(s, e)) - Equity(s);
      && change <= Max(-p.networkCost, p.cashDelta - mark)
      && (p.filledUnits == s.positions[mint].tokenUnits ==> change == p.cashDelta - mark)
  {
    SaleEquity(s, mint, e);
  }

  /** Without a mark a partial sale moves equity by exactly the realized PnL it books. */
  lemma UnmarkedSaleBooksItsChange(s: LedgerState, mint: string, e: Event)
    requires Sale(s, mint, e) && s.positions[mint].lastMtmTs == ""
    requires e.payload.filledUnits < s.positions[mint].tokenUnits
    ensures Equity(Reduce(s, e)) - Equity(s) == Booked(s, e)
  {
    assert Sells(s, e.payload);
    SaleEquity(s, mint, e);
  }
}
