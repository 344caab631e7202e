/**
 What a restart report means: CONSISTENT and each named failure, read off the rows and the two folds.
 */
module RestartReport {
  import opened Wrappers
  import opened Events
  import opened Reducer
  import opened BookValue
  import opened Store
  import opened Reconcile

  // ---------------------------------------------------------------- the checks, in terms of the rows

  /** A chain hash that the latest snapshot records is that of the row it was taken at. */
  predicate HashStands(rows: seq<Row>, latest: Option<Snapshot>) {
    latest.Some? && "chain_hash" in latest.value.meta ==>
      1 <= latest.value.seqNo <= |rows| && rows[latest.value.seqNo - 1].hash == latest.value.meta["chain_hash"]
  }

  /** The first row that is not from the ledger's own source. */
  predicate FirstStranger(rows: seq<Row>, source: string, i: nat)
    requires i < |rows|
  {
    rows[i].body.source != source && forall j | 0 <= j < i :: rows[j].body.source == source
  }

  predicate OneSourceOnly(rows: seq<Row>, meta: Meta) {
    meta.source.Some? ==> forall i | 0 <= i < |rows| :: rows[i].body.source == meta.source.value
  }

  /** Every held position has the units its fills add up to. */
  predicate UnitsAddUp(s: LedgerState, events: seq<Event>) {
    forall mint | mint in s.positions :: s.positions[mint].tokenUnits == FillUnits(events, mint)
  }

  predicate Opens(e: Event, mint: string) {
    e.payload.PositionOpened? && e.payload.mint == mint
  }

  predicate Closes(e: Event, mint: string) {
    e.payload.PositionClosed? && e.payload.mint == mint
  }

  /** Some close of the mint that no later row opens again. */
  predicate ClosedForGood(events: seq<Event>, mint: string) {
    exists i | 0 <= i < |events| :: Closes(events[i], mint) && forall j | i < j < |events| :: !Opens(events[j], mint)
  }

  predicate NothingHeldPastClose(s: LedgerState, events: seq<Event>) {
    forall mint | mint in s.positions :: !ClosedForGood(events, mint)
  }

  // ---------------------------------------------------------------- the pieces agree

  lemma {:induction false} NothingSince(rows: seq<Row>, since: int)
    requires forall i | 0 <= i < |rows| :: rows[i].body.seqNo < since
    ensures ReadSince(rows, since) == []
    decreases |rows|
  {
    if rows != [] {
      NothingSince(rows[1..], since);
    }
  }

  /** How many rows stand at or before a snapshot's seq. */
  function Cut(rows: seq<Row>, n: int): nat {
    if n < 0 then 0 else if n > |rows| then |rows| else n
  }

  lemma TailIsSlice(h: Hasher, rows: seq<Row>, n: int)
    requires Sound(h, rows)
    ensures EventsOf(ReadSince(rows, n + 1)) == EventsOf(rows)[Cut(rows, n)..]
  {
    if n > |rows| {
      NothingSince(rows, n + 1);
    } else if n < 0 {
      ReadAll(rows, n + 1);
    } else {
      ReadSinceIsSlice(rows, 1, n + 1);
    }
  }

  lemma HashOkExactly(h: Hasher, rows: seq<Row>, latest: Option<Snapshot>)
    requires Sound(h, rows)
    ensures SnapshotHashOk(rows, latest) <==> HashStands(rows, latest)
  {
    hide Verifies;
    if latest.Some? {
      var n := latest.value.seqNo;
      if n > |rows| {
        NothingSince(rows, n);
      } else if n < 1 {
        ReadAll(rows, n);
      } else {
        ReadSinceIsSlice(rows, 1, n);
      }
    }
  }

  lemma {:induction false} ForeignExactly(rows: seq<Row>, source: string, first: int)
    requires forall i | 0 <= i < |rows| :: rows[i].body.seqNo == first + i
    ensures FirstForeign(EventsOf(rows), source).None? <==> forall i | 0 <= i < |rows| :: rows[i].body.source == source
    ensures forall i: nat | i < |rows| ::
              FirstStranger(rows, source, i) <==> FirstForeign(EventsOf(rows), source) == Some(first + i)
    decreases |rows|
  {
    if rows != [] {
      var rest := rows[1..];
      ForeignExactly(rest, source, first + 1);
      ForeignInRange(rest, source, first + 1);
      assert EventsOf(rows)[1..] == EventsOf(rest);
      assert forall i | 0 <= i < |rest| :: rest[i] == rows[i + 1];
      assert forall i | 1 <= i < |rows| :: rows[i] == rest[i - 1];
      if rows[0].body.source == source {
        forall i: nat | 0 < i < |rows|
          ensures FirstStranger(rows, source, i) <==> FirstStranger(rest, source, i - 1)
        {
        }
      }
    }
  }

  lemma ClosedForGoodSnoc(front: seq<Event>, e: Event, mint: string)
    ensures ClosedForGood(front + [e], mint) <==> Closes(e, mint) || (ClosedForGood(front, mint) && !Opens(e, mint))
  {
    var events, n := front + [e], |front|;
    assert events[n] == e && forall i | 0 <= i < n :: events[i] == front[i];
    if ClosedForGood(front, mint) && !Opens(e, mint) {
      var i :| 0 <= i < n && Closes(front[i], mint) && forall j | i < j < n :: !Opens(front[j], mint);
      assert Closes(events[i], mint) && forall j | i < j <= n :: !Opens(events[j], mint);
    }
    if ClosedForGood(events, mint) && !Closes(e, mint) {
      var i :| 0 <= i <= n && Closes(events[i], mint) && forall j | i < j <= n :: !Opens(events[j], mint);
      assert Closes(front[i], mint) && forall j | i < j < n :: !Opens(front[j], mint);
    }
  }

  lemma {:induction false} ClosedForGoodExactly(events: seq<Event>, mint: string)
    requires forall i | 0 <= i < |events| :: events[i].seqNo == i + 1
    ensures ClosedForGood(events, mint)
            <==> LastClose(events, mint).Some? && LastOpen(events, mint).GetOr(0) < LastClose(events, mint).value
    ensures LastClose(events, mint).Some? ==> 1 <= LastClose(events, mint).value <= |events|
    ensures LastOpen(events, mint).GetOr(0) <= |events|
    decreases |events|
  {
    if events != [] {
      hide ClosedForGood;
      var n := |events| - 1;
      ClosedForGoodExactly(events[..n], mint);
      ClosedForGoodSnoc(events[..n], events[n], mint);
      assert events == events[..n] + [events[n]];
    }
  }

  lemma PositionsExactly(h: Hasher, rows: seq<Row>, s: LedgerState)
    requires Sound(h, rows)
    ensures UnitsMismatch(s, EventsOf(rows)) <==> !UnitsAddUp(s, EventsOf(rows))
    ensures HeldPastClose(s, EventsOf(rows)) <==> !NothingHeldPastClose(s, EventsOf(rows))
  {
    hide Verifies, FillUnits, LastOpen, LastClose, ClosedForGood;
    forall mint | mint in s.positions
      ensures ClosedForGood(EventsOf(rows), mint)
              <==> LastClose(EventsOf(rows), mint).Some?
                   && LastOpen(EventsOf(rows), mint).GetOr(0) < LastClose(EventsOf(rows), mint).value
    {
      ClosedForGoodExactly(EventsOf(rows), mint);
    }
  }

  // ---------------------------------------------------------------- the verdict

  /** The state that snapshot and tail fold to, and the full replay; `None` where a fold raises. */
  ghost function TailFold(rows: seq<Row>, snapshots: seq<Snapshot>, meta: Meta): Option<LedgerState> {
    var events, latest := EventsOf(rows), Latest(snapshots);
    if latest.Some? then TryFold(latest.value.state, events[Cut(rows, latest.value.seqNo)..])
    else TryFold(Genesis(meta, events), events)
  }

  ghost function FullFold(rows: seq<Row>, meta: Meta): Option<LedgerState> {
    TryFold(Genesis(meta, EventsOf(rows)), EventsOf(rows))
  }

  /** What the failure named must have found, all checks before it having passed. */
  ghost predicate Found(f: Failure, rows: seq<Row>, latest: Option<Snapshot>, meta: Meta,
                        tail: LedgerState, full: LedgerState)
  {
    var events := EventsOf(rows);
    var same := tail == full;
    var cash := tail.cash == meta.initialEquity.GetOr(0) + FillCash(events) - RejectedFees(events);
    var hash, own, units := HashStands(rows, latest), OneSourceOnly(rows, meta), UnitsAddUp(tail, events);
    match f
    case FullReplayDiffers => !same
    case CashEquationFailed => same && !cash
    case SnapshotHashDiffers => same && cash && !hash
    case SourceMixed(q) =>
      same && cash && hash && !own && 1 <= q <= |rows| && FirstStranger(rows, meta.source.value, q - 1)
    case UnitsDiffer => same && cash && hash && own && !units
    case ClosedYetHeld => same && cash && hash && own && units && !NothingHeldPastClose(tail, events)
  }

  lemma FailureExactly(h: Hasher, rows: seq<Row>, latest: Option<Snapshot>, meta: Meta,
                       tail: LedgerState, full: LedgerState)
    requires Sound(h, rows)
    ensures forall f :: FirstFailure(rows, latest, meta, tail, full, EventsOf(rows)) == Some(f)
                        <==> Found(f, rows, latest, meta, tail, full)
  {
    hide Verifies, FillCash, RejectedFees, FillUnits, ClosedForGood, UnitsMismatch, HeldPastClose, UnitsAddUp;
    hide NothingHeldPastClose, SnapshotHashOk, HashStands, FirstForeign;
    HashOkExactly(h, rows, latest);
    PositionsExactly(h, rows, tail);
    if meta.source.Some? {
      ForeignExactly(rows, meta.source.value, 1);
      ForeignInRange(rows, meta.source.value, 1);
    }
  }

  lemma {:induction false} ForeignInRange(rows: seq<Row>, source: string, first: int)
    requires forall i | 0 <= i < |rows| :: rows[i].body.seqNo == first + i
    ensures FirstForeign(EventsOf(rows), source).Some? ==>
              first <= FirstForeign(EventsOf(rows), source).value < first + |rows|
    decreases |rows|
  {
    if rows != [] {
      ForeignInRange(rows[1..], source, first + 1);
      assert EventsOf(rows)[1..] == EventsOf(rows[1..]);
    }
  }

  /**
   On every non-empty store built by appends the report says exactly this. It is missing when a fold
   raises; CONSISTENT, with the folded state, when the two folds agree, cash adds up, a recorded chain hash
   is that of its row, every row is from the ledger's source, units are the sums of their fills and nothing
   is held past its last close; and otherwise it names the first of these that fails.
   */
  lemma ReportExactly(h: Hasher, rows: seq<Row>, snapshots: seq<Snapshot>, meta: Meta)
    requires Sound(h, rows) && rows != []
    ensures
      var report, latest, n := ReconcileSpec(h, rows, snapshots, meta), Latest(snapshots), SnapshotSeq(snapshots);
      var tail, full := TailFold(rows, snapshots, meta), FullFold(rows, meta);
      && (report.None? <==> tail.None? || full.None?)
      && (tail.Some? && full.Some? ==>
            && (forall f :: report == Some(Inconsistent(n, |rows| - Cut(rows, n), |rows|, f))
                            <==> Found(f, rows, latest, meta, tail.value, full.value))
            && (report == Some(Consistent(n, |rows| - Cut(rows, n), |rows|, tail.value))
                <==> && tail == full
                     && tail.value.cash
                        == meta.initialEquity.GetOr(0) + FillCash(EventsOf(rows)) - RejectedFees(EventsOf(rows))
                     && HashStands(rows, latest) && OneSourceOnly(rows, meta)
                     && UnitsAddUp(tail.value, EventsOf(rows)) && NothingHeldPastClose(tail.value, EventsOf(rows))))
  {
    hide Verifies, TryFold, FillCash, RejectedFees, FirstFailure, Latest, HashStands, UnitsAddUp, NothingHeldPastClose;
    hide Found, OneSourceOnly, ReadSince;
    var latest, n := Latest(snapshots), SnapshotSeq(snapshots);
    TailIsSlice(h, rows, 0);
    TailIsSlice(h, rows, n);
    assert EventsOf(rows)[0..] == EventsOf(rows);
    var tail, full := TailFold(rows, snapshots, meta), FullFold(rows, meta);
    if tail.Some? && full.Some? {
      FailureExactly(h, rows, latest, meta, tail.value, full.value);
      SomethingFound(h, rows, latest, meta, tail.value, full.value);
    }
  }

  lemma SomethingFound(h: Hasher, rows: seq<Row>, latest: Option<Snapshot>, meta: Meta,
                       tail: LedgerState, full: LedgerState)
    requires Sound(h, rows)
    ensures FirstFailure(rows, latest, meta, tail, full, EventsOf(rows)).None?
            <==> && tail == full
                 && tail.cash == meta.initialEquity.GetOr(0) + FillCash(EventsOf(rows)) - RejectedFees(EventsOf(rows))
                 && HashStands(rows, latest) && OneSourceOnly(rows, meta)
                 && UnitsAddUp(tail, EventsOf(rows)) && NothingHeldPastClose(tail, EventsOf(rows))
  {
    hide Verifies, FillCash, RejectedFees, UnitsMismatch, HeldPastClose, UnitsAddUp;
    hide NothingHeldPastClose, SnapshotHashOk, HashStands, FirstForeign;
    HashOkExactly(h, rows, latest);
    PositionsExactly(h, rows, tail);
    if meta.source.Some? {
      ForeignExactly(rows, meta.source.value, 1);
    }
  }

  /** The snapshot that counts is one of those written, and none was taken later. */
  lemma LatestIsTheHighest(snapshots: seq<Snapshot>)
    ensures snapshots == [] <==> Latest(snapshots).None?
    ensures snapshots != [] ==>
              Latest(snapshots).value in snapshots && SnapshotSeq(snapshots) == Latest(snapshots).value.seqNo
              && forall i | 0 <= i < |snapshots| :: snapshots[i].seqNo <= SnapshotSeq(snapshots)
    ensures snapshots == [] ==> SnapshotSeq(snapshots) == 0
  {
    LatestIsOneOf(snapshots);
  }

  /** Genesis of a stored ledger: its source, equity and first day, and nothing else in it. */
  lemma GenesisExactly(meta: Meta, events: seq<Event>)
    ensures
      var g := Genesis(meta, events);
      && g.cash == g.dayStartEquity == g.peakEquity
      && g.cash == (if meta.initialEquity.Some? then meta.initialEquity.value else 0)
      && (meta.source.Some? && meta.source.value != "" ==> g.source == meta.source.value)
      && (meta.source.None? || meta.source.value == "" ==>
            g.source == if events != [] then events[0].source else "paper")
      && (events == [] ==> g.dayUtc == "")
      && (events != [] && |events[0].tsUtc| >= 10 ==> g.dayUtc == events[0].tsUtc[..10])
      && g.seqNo == 0 && g.positions == map[] && g.breakers == map[] && g.approvals == map[] && g.unknownEvents == []
      && !g.halt.active && !g.killSwitch.active && g.lastMtmTs == ""
      && g.counters.tradesToday == g.counters.feesToday == g.counters.realizedToday == 0
      && g.counters.rejectedToday == map[]
  {
  }
}
