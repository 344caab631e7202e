/**
 What each money row does to the folded state, told by the amounts before and after it: the floored
 shares a sale takes, what a buy adds, what a mark sets, and what equity comes to.
 */
module RowEffects {
  import opened Wrappers
  import opened Arith
  import opened Events
  import opened Reducer

  // ---------------------------------------------------------------- fills

  /** `share` of a whole is the floor of amount * part / whole. */
  predicate FlooredShare(share: int, amount: int, part: int, whole: int) {
    whole * share <= amount * part < whole * share + whole
  }

  /** The floored share, or the cap when that is less. */
  predicate CappedShare(value: int, amount: int, part: int, whole: int, cap: int) {
    && value <= cap && whole * value <= amount * part
    && (value == cap || FlooredShare(value, amount, part, whole))
  }

  lemma FloorIsTheShare(amount: int, part: int, whole: int)
    requires 0 < whole
    ensures FlooredShare(amount * part / whole, amount, part, whole)
  {
    FloorBounds(amount * part, whole);
  }

  /**
   A sale, over-sales included, takes the floored pro-rata share of the cost with it, leaves the floored
   shares of the mark and of the stored venue fee, the mark capped at what it was less what came in, and
   books its proceeds over that cost unless it empties the position.
   */
  lemma SaleTakesItsShare(s: LedgerState, mint: string, e: Event)
    requires e.payload.FillRecorded? && e.payload.side != "buy" && e.payload.mint == mint
    requires mint in s.positions && 0 < s.positions[mint].tokenUnits && 0 < e.payload.filledUnits
    ensures
      var p, t := e.payload, Reduce(s, e);
      && mint in t.positions && t.positions == s.positions[mint := t.positions[mint]]
      && t.cash == s.cash + p.cashDelta
      && (var pos, pos' := s.positions[mint], t.positions[mint];
          var units, slice := pos.tokenUnits, pos.costBasis - pos'.costBasis;
          var remaining, room := units - p.filledUnits, pos.lastMtm - (p.cashDelta + p.networkCost);
          && pos' == pos.(tokenUnits := remaining, costBasis := pos'.costBasis,
                          lastMtm := pos'.lastMtm, lastMtmVenueFee := pos'.lastMtmVenueFee)
          && FlooredShare(slice, pos.costBasis, p.filledUnits, units)
          && FlooredShare(pos'.lastMtmVenueFee, pos.lastMtmVenueFee, remaining, units)
          && CappedShare(pos'.lastMtm, pos.lastMtm, remaining, units, if room > 0 then room else 0)
          && t.counters.realizedToday - s.counters.realizedToday
             == if p.filledUnits < units then p.cashDelta - slice else 0)
  {
    hide RaisePeak, Equity, FlooredShare;
    var p, pos := e.payload, s.positions[mint];
    assert Sells(s, p);
    FillEffect(s, e);
    FloorIsTheShare(pos.costBasis, p.filledUnits, pos.tokenUnits);
    FloorIsTheShare(pos.lastMtmVenueFee, pos.tokenUnits - p.filledUnits, pos.tokenUnits);
    FloorIsTheShare(pos.lastMtm, pos.tokenUnits - p.filledUnits, pos.tokenUnits);
    ShareBelow(SellFrom(pos, p).lastMtm, pos.lastMtm, pos.tokenUnits - p.filledUnits, pos.tokenUnits);
  }

  /** Nothing above the floored share fits under the pro-rata amount, and everything up to it does. */
  lemma ShareBelow(x: int, amount: int, part: int, whole: int)
    requires 0 < whole
    ensures x <= amount * part / whole ==> whole * x <= amount * part
  {
    FloorBounds(amount * part, whole);
    if x <= amount * part / whole {
      ProductMonotone(x, amount * part / whole, whole);
    }
  }

  /** A buy into a held mint adds its units, what it cost and its fees, and nothing else. */
  lemma BuyAddsItsCost(s: LedgerState, mint: string, e: Event)
    requires e.payload.FillRecorded? && e.payload.side == "buy" && e.payload.mint == mint && mint in s.positions
    ensures
      var p, t, pos := e.payload, Reduce(s, e), s.positions[mint];
      && t.cash == s.cash + p.cashDelta && t.counters.realizedToday == s.counters.realizedToday
      && mint in t.positions && t.positions == s.positions[mint := t.positions[mint]]
      && t.positions[mint].tokenUnits - pos.tokenUnits == p.filledUnits
      && t.positions[mint].costBasis - pos.costBasis == (if p.cashDelta < 0 then -p.cashDelta else 0)
      && t.positions[mint].fees - pos.fees == p.venueFee + p.networkCost
      && t.positions[mint].(tokenUnits := 0, costBasis := 0, fees := 0)
         == pos.(tokenUnits := 0, costBasis := 0, fees := 0)
  {
    hide RaisePeak, Equity;
    FillEffect(s, e);
  }

  /** Every other fill moves cash and leaves every position and the realized PnL alone. */
  lemma OtherFillsMoveCash(s: LedgerState, e: Event)
    requires e.payload.FillRecorded?
    requires e.payload.mint !in s.positions
             || (e.payload.side != "buy"
                 && (s.positions[e.payload.mint].tokenUnits <= 0 || e.payload.filledUnits <= 0))
    ensures Reduce(s, e).positions == s.positions && Reduce(s, e).cash == s.cash + e.payload.cashDelta
    ensures Reduce(s, e).counters.realizedToday == s.counters.realizedToday
  {
    hide RaisePeak, Equity;
    FillEffect(s, e);
  }

  // ---------------------------------------------------------------- positions opened and closed

  /** An opened position holds what its row says, at cost and without a mark; a row without a mint opens none. */
  lemma OpenedAsWritten(s: LedgerState, e: Event)
    requires e.payload.PositionOpened?
    ensures
      var p, t := e.payload, Reduce(s, e);
      && t.cash == s.cash && t.counters == s.counters
      && t.positions.Keys == s.positions.Keys + (if p.mint == "" then {} else {p.mint})
      && (forall mint | mint in s.positions && (mint != p.mint || mint == "") :: t.positions[mint] == s.positions[mint])
      && (p.mint != "" ==>
            var pos := t.positions[p.mint];
            && pos.mint == p.mint && pos.symbol == p.symbol && pos.creator == p.creator && pos.ticketId == p.ticketId
            && pos.correlationId == e.correlationId && pos.openedTs == p.openedTs
            && pos.priceEntry == p.priceEntry && pos.pricePeak == p.priceEntry
            && pos.tokenUnits == p.tokenUnits && pos.costBasis == p.costBasis && pos.fees == 0
            && pos.lastMtm == 0 && pos.lastMtmVenueFee == 0 && pos.lastMtmTs == "" && pos.mtmSource == ""
            && !pos.mtmFrozen)
  {
    hide RaisePeak, Equity;
    OpenedEffect(s, e);
    assert Reduce(s, e).counters == s.counters by {
      PeakAlone(Apply(s, e));
    }
  }

  lemma PeakAlone(s: LedgerState)
    ensures RaisePeak(s) == s.(peakEquity := RaisePeak(s).peakEquity)
  {
    hide Equity;
  }

  /** A close takes the position away, and books the PnL its row carries. */
  lemma ClosedAsWritten(s: LedgerState, e: Event)
    requires e.payload.PositionClosed?
    ensures
      var p, t := e.payload, Reduce(s, e);
      && t.cash == s.cash && p.mint !in t.positions
      && (forall mint | mint != p.mint ::
            && (mint in t.positions <==> mint in s.positions)
            && (mint in s.positions ==> t.positions[mint] == s.positions[mint]))
      && t.counters.realizedToday - s.counters.realizedToday == p.realizedPnl
  {
    hide RaisePeak, Equity;
    ClosedEffect(s, e);
  }

  // ---------------------------------------------------------------- marks

  /** The row names this held position, and its marks are not frozen. */
  predicate Reaches(s: LedgerState, e: Event, mint: string) {
    e.payload.MarkToMarket? && mint in e.payload.prices && mint in s.positions && !s.positions[mint].mtmFrozen
  }

  /** The fold raises exactly when a position it reaches comes with a spot that is no number. */
  lemma RaisesExactly(s: LedgerState, e: Event)
    ensures TryReduce(s, e).None?
            <==> exists mint | mint in s.positions :: Reaches(s, e, mint) && e.payload.prices[mint].spot.NotANumber?
    ensures TryReduce(s, e).Some? ==> TryReduce(s, e).value == Reduce(s, e)
  {
    hide Reduce;
  }

  /**
   A mark sets what it carries, keeps what it does not, and lifts the price peak to the spot; a position
   that is frozen or not named keeps everything.
   */
  lemma MarkSetsTheValue(s: LedgerState, e: Event, mint: string)
    requires e.payload.MarkToMarket? && TryReduce(s, e).Some? && mint in s.positions
    ensures Reduce(s, e).positions.Keys == s.positions.Keys && Reduce(s, e).cash == s.cash
    ensures
      var pos, pos' := s.positions[mint], Reduce(s, e).positions[mint];
      if !Reaches(s, e, mint) then pos' == pos
      else
        var mark := e.payload.prices[mint];
        && (mark.mtm.Some? ==> pos'.lastMtm == mark.mtm.value) && (mark.mtm.None? ==> pos'.lastMtm == pos.lastMtm)
        && (mark.venueFee.Some? ==> pos'.lastMtmVenueFee == mark.venueFee.value)
        && (mark.venueFee.None? ==> pos'.lastMtmVenueFee == pos.lastMtmVenueFee)
        && (mark.tsUtc.Some? ==> pos'.lastMtmTs == mark.tsUtc.value) && (mark.tsUtc.None? ==> pos'.lastMtmTs == e.tsUtc)
        && pos'.mtmSource == mark.source
        && mark.spot.Number?
        && pos'.pricePeak >= pos.pricePeak && pos'.pricePeak >= mark.spot.value
        && (pos'.pricePeak == pos.pricePeak || pos'.pricePeak == mark.spot.value)
        && pos'.(lastMtm := 0, lastMtmVenueFee := 0, lastMtmTs := "", mtmSource := "", pricePeak := 0.0)
           == pos.(lastMtm := 0, lastMtmVenueFee := 0, lastMtmTs := "", mtmSource := "", pricePeak := 0.0)
  {
    hide RaisePeak, Equity;
    MarkEffect(s, e);
    RaisesExactly(s, e);
  }

  // ---------------------------------------------------------------- equity

  /** Each position once, in any order. */
  ghost predicate Enumerates(mints: seq<string>, positions: Positions) {
    && (forall mint :: mint in mints <==> mint in positions)
    && (forall i, j | 0 <= i < j < |mints| :: mints[i] != mints[j])
  }

  /** What the listed positions are worth: at the mark once there is one, until then at cost; nothing without units. */
  function ListWorth(positions: Positions, mints: seq<string>): int
    requires forall mint | mint in mints :: mint in positions
  {
    if mints == [] then 0
    else
      var pos := positions[mints[0]];
      (if pos.tokenUnits <= 0 then 0 else if pos.lastMtmTs == "" then pos.costBasis else pos.lastMtm)
      + ListWorth(positions, mints[1..])
  }

  lemma EnumeratesRest(mints: seq<string>, positions: Positions)
    requires Enumerates(mints, positions) && mints != []
    ensures mints[0] in positions && mints[0] !in mints[1..]
    ensures Enumerates(mints[1..], positions - {mints[0]})
  {
    assert mints == [mints[0]] + mints[1..];
    assert forall mint :: mint in mints <==> mint == mints[0] || mint in mints[1..];
  }

  lemma {:induction false} SumIsListWorth(m: Positions, mints: seq<string>)
    requires Enumerates(mints, m)
    ensures SumOver(m, Worth) == ListWorth(m, mints)
    decreases |mints|
  {
    if mints == [] {
      assert m == map[];
    } else {
      EnumeratesRest(mints, m);
      var rest := m - {mints[0]};
      SumSplit(m, Worth, mints[0]);
      SumIsListWorth(rest, mints[1..]);
      hide SumOver;
      assert forall mint | mint in mints[1..] :: mint in rest;
      WorthOfRest(m, rest, mints[1..]);
    }
  }

  lemma {:induction false} WorthOfRest(m: Positions, n: Positions, mints: seq<string>)
    requires forall mint | mint in mints :: mint in m && mint in n && m[mint] == n[mint]
    ensures ListWorth(m, mints) == ListWorth(n, mints)
    decreases |mints|
  {
    if mints != [] {
      assert mints[0] in mints && forall mint | mint in mints[1..] :: mint in mints;
      WorthOfRest(m, n, mints[1..]);
    }
  }

  /** Equity is cash and the worth of every position, listed in whatever order. */
  lemma EquityIsCashAndWorth(s: LedgerState, mints: seq<string>)
    requires Enumerates(mints, s.positions)
    ensures Equity(s) == s.cash + ListWorth(s.positions, mints)
  {
    SumIsListWorth(s.positions, mints);
  }

  /** After a mark row, equity is the same cash and the positions at the marks it set. */
  lemma EquityAfterMarks(s: LedgerState, e: Event, mints: seq<string>)
    requires e.payload.MarkToMarket? && TryReduce(s, e).Some? && Enumerates(mints, s.positions)
    ensures Equity(Reduce(s, e)) == s.cash + MarkedWorth(s, e, mints)
  {
    hide Reduce, Equity;
    MarkEffect(s, e);
    var t := Reduce(s, e);
    assert t.positions.Keys == s.positions.Keys;
    EquityIsCashAndWorth(t, mints);
    MarkedWorthIsWorth(s, e, mints);
  }

  /** What the listed positions are worth once the row's marks stand. */
  function MarkedWorth(s: LedgerState, e: Event, mints: seq<string>): int
    requires e.payload.MarkToMarket? && forall mint | mint in mints :: mint in s.positions
  {
    if mints == [] then 0
    else
      var pos := s.positions[mints[0]];
      var reached := Reaches(s, e, mints[0]);
      var stamp := if reached then e.payload.prices[mints[0]].tsUtc.GetOr(e.tsUtc) else pos.lastMtmTs;
      var value := if reached then e.payload.prices[mints[0]].mtm.GetOr(pos.lastMtm) else pos.lastMtm;
      (if pos.tokenUnits <= 0 then 0 else if stamp == "" then pos.costBasis else value)
      + MarkedWorth(s, e, mints[1..])
  }

  lemma {:induction false} MarkedWorthIsWorth(s: LedgerState, e: Event, mints: seq<string>)
    requires e.payload.MarkToMarket? && TryReduce(s, e).Some?
    requires Reduce(s, e).positions.Keys == s.positions.Keys
    requires forall mint | mint in mints :: mint in s.positions
    ensures ListWorth(Reduce(s, e).positions, mints) == MarkedWorth(s, e, mints)
    decreases |mints|
  {
    hide Reduce;
    if mints != [] {
      assert mints[0] in mints && forall mint | mint in mints[1..] :: mint in mints;
      MarkSetsTheValue(s, e, mints[0]);
      MarkedWorthIsWorth(s, e, mints[1..]);
    }
  }
}
