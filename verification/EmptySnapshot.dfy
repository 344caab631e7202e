/**
 The snapshot that an orderly shutdown writes before the first row exists.

 It is taken at seq 0 with source "paper" and a blank day, because there is no first row to name them.
 Restart later replays the whole log from it and compares with a genesis that does name them.
 */
module EmptySnapshot {
  import opened Wrappers
  import opened Events
  import opened Reducer
  import opened BookValue
  import opened Store
  import opened Reconcile

  /** The same state under another source and day. */
  function Rebased(s: LedgerState, source: string, day: string): LedgerState {
    s.(source := source, dayUtc := day)
  }

  lemma FillRebased(s: LedgerState, source: string, day: string, p: Payload)
    requires p.FillRecorded?
    ensures OnFill(Rebased(s, source, day), p) == Rebased(OnFill(s, p), source, day)
  {
    assert SliceBooked(Rebased(s, source, day), p) == SliceBooked(s, p);
  }

  lemma OpenedRebased(s: LedgerState, source: string, day: string, p: Payload, correlationId: string)
    requires p.PositionOpened?
    ensures OnPositionOpened(Rebased(s, source, day), p, correlationId)
         == Rebased(OnPositionOpened(s, p, correlationId), source, day)
  {
  }

  lemma ClosedRebased(s: LedgerState, source: string, day: string, p: Payload)
    requires p.PositionClosed?
    ensures OnPositionClosed(Rebased(s, source, day), p) == Rebased(OnPositionClosed(s, p), source, day)
  {
  }

  lemma RejectedRebased(s: LedgerState, source: string, day: string, p: Payload)
    requires p.OrderRejected?
    ensures OnRejected(Rebased(s, source, day), p) == Rebased(OnRejected(s, p), source, day)
  {
  }

  lemma MtmRebased(s: LedgerState, source: string, day: string, p: Payload, tsUtc: string)
    requires p.MarkToMarket?
    ensures OnMtm(Rebased(s, source, day), p, tsUtc) == Rebased(OnMtm(s, p, tsUtc), source, day)
  {
  }

  lemma LatchRebased(s: LedgerState, source: string, day: string, e: Event)
    ensures OnLatchRow(Rebased(s, source, day), e) == Rebased(OnLatchRow(s, e), source, day)
  {
  }

  lemma DeskRebased(s: LedgerState, source: string, day: string, e: Event)
    ensures OnDeskRow(Rebased(s, source, day), e)
         == Rebased(OnDeskRow(s, e), source, if e.payload.DailyRollover? then OnDeskRow(s, e).dayUtc else day)
  {
  }

  lemma ApplyRebased(s: LedgerState, source: string, day: string, e: Event)
    ensures Apply(Rebased(s, source, day), e)
         == Rebased(Apply(s, e), source, if e.payload.DailyRollover? then Apply(s, e).dayUtc else day)
  {
    var p := e.payload;
    if p.FillRecorded? {
      FillRebased(s, source, day, p);
    } else if p.PositionOpened? {
      OpenedRebased(s, source, day, p, e.correlationId);
    } else if p.PositionClosed? {
      ClosedRebased(s, source, day, p);
    } else if p.OrderRejected? {
      RejectedRebased(s, source, day, p);
    } else if p.MarkToMarket? {
      MtmRebased(s, source, day, p, e.tsUtc);
    } else if Latches(p) {
      LatchRebased(s, source, day, e);
    } else {
      DeskRebased(s, source, day, e);
    }
  }

  lemma ReduceRebased(s: LedgerState, source: string, day: string, e: Event)
    ensures TryReduce(s, e).Some? == TryReduce(Rebased(s, source, day), e).Some?
    ensures Reduce(Rebased(s, source, day), e)
         == Rebased(Reduce(s, e), source, if e.payload.DailyRollover? then Reduce(s, e).dayUtc else day)
  {
    ApplyRebased(s, source, day, e);
  }

  predicate HasRollover(events: seq<Event>)
    decreases |events|
  {
    events != [] && (events[0].payload.DailyRollover? || HasRollover(events[1..]))
  }

  /** Only a day roll makes two folds that began under different days agree on the day again. */
  lemma {:induction false} FoldRebased(s: LedgerState, source: string, day: string, events: seq<Event>)
    ensures TryFold(s, events).Some? == TryFold(Rebased(s, source, day), events).Some?
    ensures Fold(Rebased(s, source, day), events)
         == Rebased(Fold(s, events), source, if HasRollover(events) then Fold(s, events).dayUtc else day)
    decreases |events|
  {
    if events != [] {
      var next := Reduce(s, events[0]);
      ReduceRebased(s, source, day, events[0]);
      if events[0].payload.DailyRollover? {
        FoldRebased(next, next.source, next.dayUtc, events[1..]);
        FoldRebased(next, source, next.dayUtc, events[1..]);
        assert Rebased(next, next.source, next.dayUtc) == next;
      } else {
        FoldRebased(next, source, day, events[1..]);
      }
    }
  }

  lemma FoldKeepsSource(s: LedgerState, events: seq<Event>)
    ensures Fold(s, events).source == s.source
    ensures !HasRollover(events) ==> Fold(s, events).dayUtc == s.dayUtc
  {
    FoldRebased(s, s.source, s.dayUtc, events);
    assert Rebased(s, s.source, s.dayUtc) == s;
  }

  /** What shutdown writes when the ledger has no row yet. */
  predicate IsEmptyLedgerSnapshot(snapshot: Snapshot, meta: Meta) {
    && snapshot.seqNo == 0
    && meta.initialEquity.Some?
    && snapshot.state == InitialState("paper", meta.initialEquity.value, "")
    && "chain_hash" !in snapshot.meta
  }

  /**
   A store whose only snapshot is that one reconciles exactly when its source is "paper" and a
   DailyRollover row has been written since; otherwise the genuine ledger reads as INCONSISTENT.
   */
  lemma EmptySnapshotReconcilesExactly(h: Hasher, rows: seq<Row>, snapshot: Snapshot, meta: Meta)
    requires Sound(h, rows) && OneSource(rows, meta) && rows != [] && rows[0].body.tsUtc != ""
    requires WellFormed(Genesis(meta, EventsOf(rows)), Settled, EventsOf(rows))
    requires IsEmptyLedgerSnapshot(snapshot, meta)
    ensures
      var events := EventsOf(rows);
      var genesis := Genesis(meta, events);
      ReconcileSpec(h, rows, [snapshot], meta)
        == Some(if genesis.source == "paper" && HasRollover(events)
                then Consistent(0, |rows|, |rows|, Fold(genesis, events))
                else Inconsistent(0, |rows|, |rows|, FullReplayDiffers))
  {
    hide TryFold, Fold, FirstForeign, UnitsMismatch, HeldPastClose, FillCash, RejectedFees, ReadSince;
    var events := EventsOf(rows);
    var genesis := Genesis(meta, events);
    assert Latest([snapshot]) == Some(snapshot);
    ReadsAreSlices(h, rows, 0);
    assert events[0..] == events;
    assert snapshot.state == Rebased(genesis, "paper", "");
    FoldRebased(genesis, "paper", "", events);
    FoldKeepsSource(genesis, events);
    GenuineFoldPasses(h, rows, Some(snapshot), meta);
    TryFoldIsFold(snapshot.state, events);
    assert genesis.dayUtc != "";
  }

  /** The shortest case: stop before trading, start again, write one row, crash, restart. */
  lemma OneRowAfterEmptySnapshot(h: Hasher)
    ensures
      var meta := Meta(Some("paper"), Some(100), 0);
      var row := MakeRow(h, 1, GENESIS_PREV_HASH,
                         Entry("2026-01-01T00:00:00Z", "paper", "c", "k", Some(Escalation(""))));
      var snapshot := Snapshot(0, "2026-01-01T00:00:00Z", InitialState("paper", 100, ""), map[]);
      ReconcileSpec(h, [row], [snapshot], meta) == Some(Inconsistent(0, 1, 1, FullReplayDiffers))
  {
    var meta := Meta(Some("paper"), Some(100), 0);
    var row := MakeRow(h, 1, GENESIS_PREV_HASH,
                       Entry("2026-01-01T00:00:00Z", "paper", "c", "k", Some(Escalation(""))));
    var snapshot := Snapshot(0, "2026-01-01T00:00:00Z", InitialState("paper", 100, ""), map[]);
    VerifiesSnoc(h, [], row);
    assert [] + [row] == [row];
    var events := EventsOf([row]);
    assert events[1..] == [];
    EmptySnapshotReconcilesExactly(h, [row], snapshot, meta);
  }
}
