/** Restart: latest snapshot plus tail replay, checked against the chain and the full replay. */
module Reconcile {
  import opened Wrappers
  import opened Events
  import opened Reducer
  import opened BookValue
  import opened Store

  /** The checks in the order they run; the first that fails is reported. */
  datatype Failure =
    | FullReplayDiffers
    | CashEquationFailed
    | SnapshotHashDiffers
    | SourceMixed(seqNo: int)
    | UnitsDiffer
    | ClosedYetHeld

  datatype Report =
    | ChainBroken
    | Inconsistent(snapshotSeq: int, tailEvents: int, headSeq: int, failure: Failure)
    | Consistent(snapshotSeq: int, tailEvents: int, headSeq: int, state: LedgerState)

  // ---------------------------------------------------------------- the pieces

  function Latest(snapshots: seq<Snapshot>): Option<Snapshot>
    decreases |snapshots|
  {
    if snapshots == [] then None
    else
      var later := Latest(snapshots[1..]);
      if later.Some? && later.value.seqNo > snapshots[0].seqNo then later else Some(snapshots[0])
  }

  function SnapshotSeq(snapshots: seq<Snapshot>): int {
    if Latest(snapshots).Some? then Latest(snapshots).value.seqNo else 0
  }

  /** The stored genesis: the ledger's own source unless it is unset or blank. */
  function Genesis(meta: Meta, events: seq<Event>): LedgerState {
    InitialState(
      if meta.source.Some? && meta.source.value != "" then meta.source.value
      else if events != [] then events[0].source else "paper",
      meta.initialEquity.GetOr(0),
      if events != [] then Day(events[0].tsUtc) else "")
  }

  function LastOpen(events: seq<Event>, mint: string): Option<int>
    decreases |events|
  {
    if events == [] then None
    else
      var e := events[|events| - 1];
      if e.payload.PositionOpened? && e.payload.mint == mint then Some(e.seqNo)
      else LastOpen(events[..|events| - 1], mint)
  }

  function LastClose(events: seq<Event>, mint: string): Option<int>
    decreases |events|
  {
    if events == [] then None
    else
      var e := events[|events| - 1];
      if e.payload.PositionClosed? && e.payload.mint == mint then Some(e.seqNo)
      else LastClose(events[..|events| - 1], mint)
  }

  /** 6b: some open position's units are not the sum of its fills. */
  predicate UnitsMismatch(s: LedgerState, events: seq<Event>) {
    exists mint | mint in s.positions :: s.positions[mint].tokenUnits != FillUnits(events, mint)
  }

  /** 6c: some position is still held though its last close has no newer open. */
  predicate HeldPastClose(s: LedgerState, events: seq<Event>) {
    exists mint | mint in s.positions ::
      LastClose(events, mint).Some? && LastOpen(events, mint).GetOr(0) < LastClose(events, mint).value
  }

  function FirstForeign(events: seq<Event>, source: string): Option<int>
    decreases |events|
  {
    if events == [] then None
    else if events[0].source != source then Some(events[0].seqNo)
    else FirstForeign(events[1..], source)
  }

  /** 6e: the recorded chain hash, when there is one, is that of the row at the snapshot's seq. */
  predicate SnapshotHashOk(rows: seq<Row>, snapshot: Option<Snapshot>) {
    snapshot.Some? && "chain_hash" in snapshot.value.meta ==>
      var from := ReadSince(rows, snapshot.value.seqNo);
      && from != []
      && from[0].body.seqNo == snapshot.value.seqNo
      && from[0].hash == snapshot.value.meta["chain_hash"]
  }

  function FirstFailure(rows: seq<Row>, snapshot: Option<Snapshot>, meta: Meta,
                        tailState: LedgerState, fullState: LedgerState, events: seq<Event>): Option<Failure>
  {
    if tailState != fullState then Some(FullReplayDiffers)
    else if tailState.cash != meta.initialEquity.GetOr(0) + FillCash(events) - RejectedFees(events) then
      Some(CashEquationFailed)
    else if !SnapshotHashOk(rows, snapshot) then Some(SnapshotHashDiffers)
    else if meta.source.Some? && FirstForeign(events, meta.source.value).Some? then
      Some(SourceMixed(FirstForeign(events, meta.source.value).value))
    else if UnitsMismatch(tailState, events) then Some(UnitsDiffer)
    else if HeldPastClose(tailState, events) then Some(ClosedYetHeld)
    else None
  }

  /** The report, given what the two folds came to. */
  function Verdict(rows: seq<Row>, snapshot: Option<Snapshot>, meta: Meta, n: int, tailEvents: nat, events: seq<Event>,
                   tailFold: Option<LedgerState>, fullFold: Option<LedgerState>): Option<Report>
  {
    var tailState :- tailFold;
    if events == [] then Some(Consistent(n, 0, 0, tailState))
    else
      var fullState :- fullFold;
      var headSeq := events[|events| - 1].seqNo;
      match FirstFailure(rows, snapshot, meta, tailState, fullState, events)
      case Some(failure) => Some(Inconsistent(n, tailEvents, headSeq, failure))
      case None => Some(Consistent(n, tailEvents, headSeq, tailState))
  }

  /** The whole restart; `None` is a CorruptState raised by a fold. */
  ghost function ReconcileSpec(h: Hasher, rows: seq<Row>, snapshots: seq<Snapshot>, meta: Meta): Option<Report> {
    if !Verifies(h, rows) then Some(ChainBroken)
    else
      var snapshot := Latest(snapshots);
      var n := SnapshotSeq(snapshots);
      var events := EventsOf(ReadSince(rows, 1));
      var base := if snapshot.Some? then snapshot.value.state else Genesis(meta, events);
      var tail := EventsOf(ReadSince(rows, n + 1));
      Verdict(rows, snapshot, meta, n, |tail|, events, TryFold(base, tail), TryFold(Genesis(meta, events), events))
  }

  // ---------------------------------------------------------------- the loops

  lemma {:induction false} FillUnitsSnoc(events: seq<Event>, e: Event, mint: string)
    ensures FillUnits(events + [e], mint) == FillUnits(events, mint) + UnitsMoved(e, mint)
    decreases |events|
  {
    if events == [] {
      assert events + [e] == [e];
      assert [e][1..] == [];
    } else {
      assert (events + [e])[1..] == events[1..] + [e];
      FillUnitsSnoc(events[1..], e, mint);
    }
  }

  method FoldRows(base: LedgerState, events: seq<Event>) returns (r: Option<LedgerState>)
    ensures r == TryFold(base, events)
  {
    var state := base;
    var i := 0;
    assert events[0..] == events;
    while i < |events|
      invariant 0 <= i <= |events|
      invariant TryFold(base, events) == TryFold(state, events[i..])
    {
      assert events[i..][0] == events[i] && events[i..][1..] == events[i + 1..];
      var next := ReduceRow(state, events[i]);
      if next.None? {
        return None;
      }
      state := next.value;
      i := i + 1;
    }
    return Some(state);
  }

  method CheckSource(meta: Meta, events: seq<Event>) returns (r: Option<Failure>)
    ensures r == if meta.source.Some? && FirstForeign(events, meta.source.value).Some?
                 then Some(SourceMixed(FirstForeign(events, meta.source.value).value)) else None
  {
    if meta.source.None? {
      return None;
    }
    var i := 0;
    assert events[0..] == events;
    while i < |events|
      invariant 0 <= i <= |events|
      invariant FirstForeign(events, meta.source.value) == FirstForeign(events[i..], meta.source.value)
    {
      assert events[i..][1..] == events[i + 1..];
      if events[i].source != meta.source.value {
        return Some(SourceMixed(events[i].seqNo));
      }
      i := i + 1;
    }
    return None;
  }

  /** The per-mint tables, filled in one pass: unit sums, and the seq of the last open and the last close. */
  method PositionTables(events: seq<Event>)
    returns (units: map<string, int>, lastOpen: map<string, int>, lastClose: map<string, int>)
    ensures forall mint :: FillUnits(events, mint) == if mint in units then units[mint] else 0
    ensures forall mint :: LastOpen(events, mint) == if mint in lastOpen then Some(lastOpen[mint]) else None
    ensures forall mint :: LastClose(events, mint) == if mint in lastClose then Some(lastClose[mint]) else None
  {
    units, lastOpen, lastClose := map[], map[], map[];
    ghost var seen: seq<Event> := [];
    for i := 0 to |events|
      invariant seen == events[..i]
      invariant forall mint :: FillUnits(seen, mint) == if mint in units then units[mint] else 0
      invariant forall mint :: LastOpen(seen, mint) == if mint in lastOpen then Some(lastOpen[mint]) else None
      invariant forall mint :: LastClose(seen, mint) == if mint in lastClose then Some(lastClose[mint]) else None
    {
      var e := events[i];
      var p := e.payload;
      if p.FillRecorded? {
        var delta := p.filledUnits;
        if p.side != "buy" {
          delta := -delta;
        }
        units := units[p.mint := (if p.mint in units then units[p.mint] else 0) + delta];
      }
      if p.PositionOpened? {
        lastOpen := lastOpen[p.mint := e.seqNo];
      } else if p.PositionClosed? {
        lastClose := lastClose[p.mint := e.seqNo];
      }
      forall mint
        ensures FillUnits(seen + [e], mint) == FillUnits(seen, mint) + UnitsMoved(e, mint)
      {
        FillUnitsSnoc(seen, e, mint);
      }
      assert (seen + [e])[..|seen|] == seen;
      seen := seen + [e];
    }
    assert seen == events;
  }

  /** 6b and 6c over those tables. */
  method CheckPositions(s: LedgerState, events: seq<Event>) returns (r: Option<Failure>)
    ensures r == if UnitsMismatch(s, events) then Some(UnitsDiffer)
                 else if HeldPastClose(s, events) then Some(ClosedYetHeld) else None
  {
    var units, lastOpen, lastClose := PositionTables(events);
    var todo := s.positions.Keys;
    while todo != {}
      invariant todo <= s.positions.Keys
      invariant forall mint | mint in s.positions.Keys - todo ::
                  s.positions[mint].tokenUnits == FillUnits(events, mint)
      decreases todo
    {
      var mint :| mint in todo;
      if s.positions[mint].tokenUnits != (if mint in units then units[mint] else 0) {
        return Some(UnitsDiffer);
      }
      todo := todo - {mint};
    }
    todo := s.positions.Keys;
    while todo != {}
      invariant todo <= s.positions.Keys
      invariant forall mint | mint in s.positions.Keys - todo ::
                  !(LastClose(events, mint).Some?
                    && LastOpen(events, mint).GetOr(0) < LastClose(events, mint).value)
      decreases todo
    {
      var mint :| mint in todo;
      if mint in lastClose && (if mint in lastOpen then lastOpen[mint] else 0) < lastClose[mint] {
        return Some(ClosedYetHeld);
      }
      todo := todo - {mint};
    }
    return None;
  }

  /** Replay and verify; reports, never repairs. The store's latch follows the chain check. */
  method ReconcileStore(store: LedgerStore) returns (r: Option<Report>)
    modifies store`inconsistent
    ensures r == ReconcileSpec(store.h, store.rows, store.snapshots, store.meta)
    ensures store.inconsistent == !Verifies(store.h, store.rows)
  {
    hide TryFold, ReadSince, Verifies, UnitsMismatch, HeldPastClose, FirstForeign;
    hide SnapshotHashOk, FillCash, RejectedFees;
    var ok := store.Verify();
    if !ok {
      return Some(ChainBroken);
    }
    var snapshot := Latest(store.snapshots);
    var snapshotSeq := SnapshotSeq(store.snapshots);
    var events := EventsOf(ReadSince(store.rows, 1));
    var base := if snapshot.Some? then snapshot.value.state else Genesis(store.meta, events);
    var tail := EventsOf(ReadSince(store.rows, snapshotSeq + 1));
    var tailState := FoldRows(base, tail);
    if tailState.None? {
      return None;
    }
    if events == [] {
      return Some(Consistent(snapshotSeq, 0, 0, tailState.value));
    }
    var fullState := FoldRows(Genesis(store.meta, events), events);
    if fullState.None? {
      return None;
    }
    var headSeq := events[|events| - 1].seqNo;
    var failure := None;
    if tailState.value != fullState.value {
      failure := Some(FullReplayDiffers);
    } else if tailState.value.cash
              != store.meta.initialEquity.GetOr(0) + FillCash(events) - RejectedFees(events) {
      failure := Some(CashEquationFailed);
    } else if !SnapshotHashOk(store.rows, snapshot) {
      failure := Some(SnapshotHashDiffers);
    } else {
      failure := CheckSource(store.meta, events);
      if failure.None? {
        failure := CheckPositions(tailState.value, events);
      }
    }
    if failure.Some? {
      return Some(Inconsistent(snapshotSeq, |tail|, headSeq, failure.value));
    }
    return Some(Consistent(snapshotSeq, |tail|, headSeq, tailState.value));
  }

  // ---------------------------------------------------------------- checks that cannot fire

  /** 6a never fires on a genuine fold, of any log at all. */
  lemma CashCheckNeverFires(meta: Meta, events: seq<Event>)
    requires TryFold(Genesis(meta, events), events).Some?
    ensures TryFold(Genesis(meta, events), events).value.cash
         == meta.initialEquity.GetOr(0) + FillCash(events) - RejectedFees(events)
  {
    TryFoldIsFold(Genesis(meta, events), events);
    CashEquation(Genesis(meta, events), events);
  }

  ghost predicate SeqsIncrease(events: seq<Event>) {
    && (forall i | 0 <= i < |events| :: events[i].seqNo > 0)
    && (forall i, j | 0 <= i < j < |events| :: events[i].seqNo < events[j].seqNo)
  }

  /** Every row of a kind that names a mint carries one of the log's seqs. */
  lemma {:induction false} LastSeqsWithin(events: seq<Event>, mint: string, bound: int)
    requires forall i | 0 <= i < |events| :: events[i].seqNo < bound
    ensures LastOpen(events, mint).Some? ==> LastOpen(events, mint).value < bound
    ensures LastClose(events, mint).Some? ==> LastClose(events, mint).value < bound
    decreases |events|
  {
    if events != [] {
      LastSeqsWithin(events[..|events| - 1], mint, bound);
    }
  }

  lemma RowMovesHoldings(s: LedgerState, e: Event, mint: string)
    requires mint in Reduce(s, e).positions
    ensures (mint in s.positions && !(e.payload.PositionClosed? && e.payload.mint == mint))
            || (e.payload.PositionOpened? && e.payload.mint == mint)
  {
    var p := e.payload;
    if p.FillRecorded? {
      FillEffect(s, e);
    } else if p.PositionOpened? {
      OpenedEffect(s, e);
    } else if p.PositionClosed? {
      ClosedEffect(s, e);
    } else if p.MarkToMarket? {
      MarkEffect(s, e);
    } else {
      PlainEffect(s, e);
    }
  }

  /** Whatever is held was opened after it was last closed. */
  lemma {:induction false} HeldWasReopened(genesis: LedgerState, events: seq<Event>, mint: string)
    requires genesis.positions == map[] && SeqsIncrease(events)
    requires mint in Fold(genesis, events).positions
    ensures LastOpen(events, mint).Some?
    ensures LastClose(events, mint).Some? ==> LastClose(events, mint).value < LastOpen(events, mint).value
    decreases |events|
  {
    if events != [] {
      var n := |events| - 1;
      var front, e := events[..n], events[n];
      assert events == front + [e];
      FoldSnoc(genesis, front, e);
      RowMovesHoldings(Fold(genesis, front), e, mint);
      LastSeqsWithin(front, mint, e.seqNo);
      if !(e.payload.PositionOpened? && e.payload.mint == mint) {
        HeldWasReopened(genesis, front, mint);
      }
    }
  }

  /** 6c never fires on a genuine fold, even of a log that breaks the row discipline. */
  lemma CloseCheckNeverFires(genesis: LedgerState, events: seq<Event>)
    requires genesis.positions == map[] && SeqsIncrease(events)
    ensures !HeldPastClose(Fold(genesis, events), events)
  {
    forall mint | mint in Fold(genesis, events).positions
      ensures !(LastClose(events, mint).Some?
                && LastOpen(events, mint).GetOr(0) < LastClose(events, mint).value)
    {
      HeldWasReopened(genesis, events, mint);
    }
  }

  /** 6b never fires on a well-formed log, even one cut between a fill and its position row. */
  lemma UnitsCheckNeverFires(genesis: LedgerState, events: seq<Event>)
    requires genesis.positions == map[] && WellFormed(genesis, Settled, events)
    ensures !UnitsMismatch(Fold(genesis, events), events)
  {
    forall mint | mint in Fold(genesis, events).positions
      ensures Fold(genesis, events).positions[mint].tokenUnits == FillUnits(events, mint)
    {
      UnitsAreSummedFills(genesis, Settled, events, mint);
    }
  }

  // ---------------------------------------------------------------- restart

  /** A snapshot taken at a stored row: the fold up to it, under its hash when it recorded one. */
  ghost predicate Truthful(rows: seq<Row>, meta: Meta, snapshot: Snapshot) {
    var events := EventsOf(rows);
    && 1 <= snapshot.seqNo <= |rows|
    && snapshot.state == Fold(Genesis(meta, events), events[..snapshot.seqNo])
    && ("chain_hash" in snapshot.meta ==> snapshot.meta["chain_hash"] == rows[snapshot.seqNo - 1].hash)
  }

  ghost predicate OneSource(rows: seq<Row>, meta: Meta) {
    meta.source.Some? ==> forall i | 0 <= i < |rows| :: rows[i].body.source == meta.source.value
  }

  lemma {:induction false} LatestIsOneOf(snapshots: seq<Snapshot>)
    ensures Latest(snapshots).None? <==> snapshots == []
    ensures Latest(snapshots).Some? ==> Latest(snapshots).value in snapshots
    ensures forall i | 0 <= i < |snapshots| :: snapshots[i].seqNo <= Latest(snapshots).value.seqNo
    decreases |snapshots|
  {
    if snapshots != [] {
      LatestIsOneOf(snapshots[1..]);
    }
  }

  lemma {:induction false} NoneForeign(events: seq<Event>, source: string)
    requires forall i | 0 <= i < |events| :: events[i].source == source
    ensures FirstForeign(events, source).None?
    decreases |events|
  {
    if events != [] {
      NoneForeign(events[1..], source);
    }
  }

  /** Snapshot plus tail is the full fold, wherever the snapshot was taken. */
  lemma TailReplayIsFullReplay(genesis: LedgerState, events: seq<Event>, n: nat)
    requires n <= |events|
    ensures Fold(Fold(genesis, events[..n]), events[n..]) == Fold(genesis, events)
    ensures TryFold(genesis, events).Some? ==> TryFold(Fold(genesis, events[..n]), events[n..]).Some?
  {
    assert events == events[..n] + events[n..];
    FoldSplit(genesis, events[..n], events[n..]);
    TryFoldSplit(genesis, events[..n], events[n..]);
    if TryFold(genesis, events).Some? {
      TryFoldIsFold(genesis, events[..n]);
    }
  }

  /** The five checks pass whenever the tail state is the full fold of a sound, well-formed ledger. */
  lemma GenuineFoldPasses(h: Hasher, rows: seq<Row>, snapshot: Option<Snapshot>, meta: Meta)
    requires Sound(h, rows) && OneSource(rows, meta)
    requires WellFormed(Genesis(meta, EventsOf(rows)), Settled, EventsOf(rows))
    requires SnapshotHashOk(rows, snapshot)
    ensures
      var events := EventsOf(rows);
      var state := Fold(Genesis(meta, events), events);
      && TryFold(Genesis(meta, events), events) == Some(state)
      && FirstFailure(rows, snapshot, meta, state, state, events) == None
  {
    hide Fold, FillCash, RejectedFees, UnitsMismatch, HeldPastClose, FirstForeign, SnapshotHashOk;
    var events := EventsOf(rows);
    var genesis := Genesis(meta, events);
    RunKeepsBook(genesis, Settled, events);
    CashCheckNeverFires(meta, events);
    CloseCheckNeverFires(genesis, events);
    UnitsCheckNeverFires(genesis, events);
    if meta.source.Some? {
      NoneForeign(events, meta.source.value);
    }
  }

  /** On a sound table the two reads are the whole log and its tail. */
  lemma ReadsAreSlices(h: Hasher, rows: seq<Row>, n: int)
    requires Sound(h, rows) && 0 <= n <= |rows|
    ensures EventsOf(ReadSince(rows, 1)) == EventsOf(rows)
    ensures EventsOf(ReadSince(rows, n + 1)) == EventsOf(rows)[n..]
  {
    ReadAll(rows, 1);
    ReadSinceIsSlice(rows, 1, n + 1);
    assert EventsOf(rows[n..]) == EventsOf(rows)[n..];
  }

  /** A truthful latest snapshot, or none, puts the replay's base on the full fold. */
  lemma BaseIsPrefixFold(h: Hasher, rows: seq<Row>, snapshots: seq<Snapshot>, meta: Meta)
    requires Sound(h, rows)
    requires Latest(snapshots).Some? ==> Truthful(rows, meta, Latest(snapshots).value)
    ensures 0 <= SnapshotSeq(snapshots) <= |rows|
    ensures SnapshotHashOk(rows, Latest(snapshots))
    ensures
      var genesis := Genesis(meta, EventsOf(rows));
      (if Latest(snapshots).Some? then Latest(snapshots).value.state else genesis)
        == Fold(genesis, EventsOf(rows)[..SnapshotSeq(snapshots)])
  {
    LatestIsOneOf(snapshots);
    if Latest(snapshots).Some? {
      ReadSinceIsSlice(rows, 1, SnapshotSeq(snapshots));
    }
  }

  lemma PassedVerdict(rows: seq<Row>, snapshot: Option<Snapshot>, meta: Meta, n: int,
                      events: seq<Event>, state: LedgerState)
    requires 0 <= n <= |events| && (events != [] ==> events[|events| - 1].seqNo == |events|)
    requires FirstFailure(rows, snapshot, meta, state, state, events) == None
    ensures Verdict(rows, snapshot, meta, n, |events| - n, events, Some(state), Some(state))
         == Some(Consistent(n, |events| - n, |events|, state))
  {
  }

  /**
   Restart correctness: for every store built by appends from one source, with a well-formed log and any
   snapshots of which the latest is truthful, reconcile is CONSISTENT and its state is the full fold.
   */
  lemma RestartIsConsistent(h: Hasher, rows: seq<Row>, snapshots: seq<Snapshot>, meta: Meta)
    requires Sound(h, rows) && OneSource(rows, meta)
    requires WellFormed(Genesis(meta, EventsOf(rows)), Settled, EventsOf(rows))
    requires Latest(snapshots).Some? ==> Truthful(rows, meta, Latest(snapshots).value)
    ensures
      var n := SnapshotSeq(snapshots);
      ReconcileSpec(h, rows, snapshots, meta)
        == Some(Consistent(n, |rows| - n, |rows|, Fold(Genesis(meta, EventsOf(rows)), EventsOf(rows))))
  {
    hide TryFold, Fold, FirstFailure;
    var events := EventsOf(rows);
    var genesis := Genesis(meta, events);
    var n := SnapshotSeq(snapshots);
    BaseIsPrefixFold(h, rows, snapshots, meta);
    ReadsAreSlices(h, rows, n);
    GenuineFoldPasses(h, rows, Latest(snapshots), meta);
    TailReplayIsFullReplay(genesis, events, n);
    TryFoldIsFold(Fold(genesis, events[..n]), events[n..]);
    PassedVerdict(rows, Latest(snapshots), meta, n, events, Fold(genesis, events));
  }
}
