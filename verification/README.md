# Verified model of the desk ledger and its neighbours

The desk keeps one append-only, hash-chained ledger and derives everything else from it by folding its
rows. This project models that core and the small machines around it, and proves what they promise:

- `Store`, `Events`, `Reducer`, `RowEffects`, `BookValue`, `DeskHistory`: the table with its transaction and
  latch, the fold, what each money row does to a position, the double-entry laws that hold across it, and the
  remaining fields read straight off the log.
- `Reconcile`, `RestartReport`, `EmptySnapshot`: restart from a snapshot plus the tail, what each report means, and
  the one snapshot that breaks it.
- `Export`, `ExportLines`: the crash-retryable JSONL export as a protocol of growing, crashing and completing
  steps, the writing code tied to those steps, and which event gets which line.
- `EquityPath`: the window valuations of the holdout backtest.
- `Tickets`, `TicketRace`, `TicketOrder`, `Allocation`: ticket ids and their allocation by any number of racing
  callers.
- `Curve`: the floored constant-product curve and the fee model, over whole runs.
- `Calendar`: the week arithmetic of the reports, over the proleptic Gregorian calendar (ISO 8601:2004,
  section 3.2.1).
- `VirtualTime`, `FixtureClock`: the replay clock's timer queue.
- `Breakers`, `BreakerEffects`, `BreakerLog`: the half-open breaker, what each operation and each streak of them
  does, its rebuild from ledger rows, and which rows it leaves.
- `RateLimit`: the token bucket.
- `Approvals`: the greedy match of destructive actions with recorded approvals.

Where the program updates an object, the model is a class whose methods are tied to functions of the old
state, and the laws are proved of those functions and of every run of them. `dafny verify dfyconfig.toml`
checks the project.

## Assumptions made explicit

- The hash is an arbitrary function of the hashed fields and nothing is assumed of it. Where a digest of one row
  at hand could equal another's, or the genesis value, the result says so: as an alternative
  (`Store.SameHeadSameHistory`), as part of an exact condition (`Store.AppendAcceptedExactly`), or counted
  (`TicketRace.FailureNeedsTenRivals`).
- The fold does not enforce the order in which the paper adapter writes rows. `BookValue.Allowed` and
  `BookValue.NextPhase` state it, after
  src/pumpgrok/execution/paper_adapter/buy.py:501-625, sell_stages.py:182-455 and marks.py:349-408: a buy on a
  flat mint is followed by its PositionOpened with the same units at cost, sales stay within the holding, and a
  fill that empties a mint is followed by its PositionClosed. Results that hold of any log do not ask for it.
- The ticket race assumes nothing of the rows other code stores. Allocation and `ticket create` keep an id's note
  under the key "ticket:" and the id (src/pumpgrok/ledger/tickets.py:79, src/pumpgrok/cli/verbs_state.py:406-420);
  the journal tool stores ticket notes with any refs under a key of its own
  (src/pumpgrok/tools/journal/append.py:86-118 and 179-189); the adapter-only
  src/pumpgrok/tools/portfolio/ledger_write.py:68-81 takes key and payload from its caller and could put another row under a ticket key. All three are foreign
  batches. Only the consecutive order is stated for days that receive none of them, and the exact end of a day for
  tables where nothing but an id's note stands under a ticket key of that day (`TicketOrder.Unsquatted`).
- Clock readings, stamp parsing, command keys, hazards and the notional pattern are parameters.

## What turned out not to hold

- Restart after an orderly stop on an empty ledger: the snapshot written at seq 0 has source "paper" and a blank
  day, so a genuine ledger is later reported INCONSISTENT unless its source is "paper" and a day roll has been
  written since (`EmptySnapshot.EmptySnapshotReconcilesExactly`).
- Ticket numbers end at 1000: the id is written with four digits and never read back, so every later allocation
  of that day picks it again. A day is over exactly when 999 is the maximum read and the key of 1000 is taken
  (`TicketOrder.DayIsOverExactly`). Two rows are enough: `ticket create --ticket SOL-20260101-999`, then one
  `ticket next` (`TicketOrder.TwoRowsEndTheDay`).
- "Explicit tickets never collide with automatic ones" (src/pumpgrok/ledger/tickets.py:4-5) holds for
  `ticket create` and fails for the journal tool: a note that names the next number, stored under the tool's own
  key between a caller's read and its append, leaves that id stored twice
  (`TicketOrder.LooseNoteRepeatsTheTicket`). `TicketOrder.UniqueExactly` and
  `TicketOrder.LandingRepeatsExactly` say exactly when.
- The approval gate calls its greedy assignment exact because eligibility never overlaps. It does overlap when
  a plain action and a trade action share a key, and then the order decides (`Approvals.GreedyIsExactIff`). The
  commands `rm -rf var/x --reason tidy` and `rm -rf var/x --reason 'wallet-transfer'` are such a pair: the key
  drops the reason, the categories read it. With approvals of radius `max_notional_sol=1` and then a plain one
  the trade is reported (`Approvals.ReasonMakesATradeOfTheSameKey`).
- A breaker can close inside its cooldown, and can be open and half-open at once
  (`Breakers.ClosesInsideCooldownExactly`, `Breakers.BothExactly`).
- "A restart cannot bypass a cooldown" (src/pumpgrok/risk/breakers.py:22) fails, because a row is written only when
  the text of the state changes. A probe that fails after its breaker tripped again moves the opening and leaves no
  row (`BreakerLog.FailedProbeWhileOpenIsLost`). With a threshold of one, as loss_velocity has, half-open reads as
  closed, so a good probe leaves no reset row and the next sync opens the breaker again
  (`BreakerLog.GoodProbeOfLossVelocityIsLost`). `BreakerLog.RecordKeepsUpExactly` and
  `BreakerLog.RestartAgreesExactly` say exactly when the record, and a restart from it, is right.
- `verify` accepts a truncated chain (`Store.TruncationVerifies`), and negative rejection fees lift equity above
  the peak (`BookValue.PeakStepExact`). Below zero equity the reported drawdown need not cover a fall
  (`EquityPath.FallCoversExactly`).

## Model

| member | source | states |
|---|---|---|
| Store.SameHeadSameHistory | src/pumpgrok/ledger/store.py:108-131 | Two row lists that both verify and end in the same hash are the same in every row and field, or else show a digest collision or a digest equal to the genesis value; no assumption on the hash |
| Store.TamperEvidence | src/pumpgrok/ledger/store.py:306-345 | For two chains that verify and whose rows no digest confuses, neither with each other nor with the genesis value, equal head hashes and equal histories are the same thing |
| Store.TruncationVerifies | src/pumpgrok/ledger/store.py:306-345 | What `verify` cannot see: any prefix of a chain that verifies also verifies; its head hash is that of the whole chain only if digests of these rows collide or hit the genesis value |
| Store.LedgerStore.constructor | src/pumpgrok/ledger/store.py:137-146 | A new store has no rows, no snapshots and a clear latch |
| Store.LedgerStore.Append | src/pumpgrok/ledger/store.py:153-228 | Refused when latched, on a bad envelope or payload, or on a uniqueness conflict; otherwise exactly one row with the next seq, linked to the head, is added and nothing else changes |
| Store.LedgerStore.AppendBatch | src/pumpgrok/ledger/store.py:230-304 | All or nothing: the table is unchanged on any refusal, and on success is what one append per entry would have left; an empty batch is accepted even when latched |
| Store.LedgerStore.Verify | src/pumpgrok/ledger/store.py:306-345 | True exactly when every row names the hash before it and carries its own; the latch ends up as the negation |
| Store.LedgerStore.WriteSnapshot | src/pumpgrok/ledger/store.py:483-491 | Snapshots are append-only, one a seq |
| Store.AppendAllKeepsSound | src/pumpgrok/ledger/store.py:253-304 | A batch keeps contiguous seqs, unique keys and a verifying chain, and adds one row an entry |
| Store.ReachableStoresAreSound | src/pumpgrok/ledger/store.py:153-304 | Every store reached from a sound one by any history of accepted and refused batches is sound and extends it |
| Store.AppendAcceptedExactly | src/pumpgrok/ledger/store.py:153-228 | On a sound store, under any hash, an append is accepted if and only if its envelope is good, its idempotency key is free and no stored row with another body has its digest |
| Store.BatchAcceptedExactly | src/pumpgrok/ledger/store.py:230-304 | A batch is accepted if and only if every envelope is good, no key repeats, in the table or within the batch, and no digest clashes on the way |
| Store.ReadSinceIsSlice | src/pumpgrok/ledger/store.py:352-413 | Reading from a seq is a slice of the table |
| Store.VerifiesSpelledOut | src/pumpgrok/ledger/store.py:306-345 | A chain verifies if and only if every row's hash is the digest of its own fields, every row but the first names the hash of the row before it, and the first names the 64 zeros |
| Store.BadEnvelopeExactly | src/pumpgrok/ledger/store.py:79-105 | An entry is refused with ValueError if and only if its stamp, correlation id or key is empty, its source is none of paper, replay and manual, or its payload is missing, of no known type, or a note of none of the nine kinds; every other refusal is IntegrityError |
| Store.EntryReadsBack | src/pumpgrok/ledger/store.py:153-228 | An accepted entry is read back under the next seq with its own stamp, source, correlation id and payload, stored under its own key, and no earlier event changes |
| Reducer.EquityLamports | src/pumpgrok/backtest/equity.py:21-34 | The valuation loop, in whatever order it visits the positions, gives cash plus every position with units at its mark or else at cost |
| Reducer.ReduceRow | src/pumpgrok/ledger/reducer.py:145-171 | The executable step equals the fold step, and refuses exactly the row that raises CorruptState; what that step does to each row is stated by `RowEffects` |
| Reducer.PlainEffect | src/pumpgrok/ledger/reducer.py:281-300 | A refusal moves cash by its fees; every remaining row moves neither cash, positions, peak nor, except at a day roll, realized PnL |
| Reducer.FoldSplit | src/pumpgrok/ledger/reducer.py:154-171 | Folding a log is folding its halves one after the other |
| Reducer.TryFoldSplit | src/pumpgrok/ledger/reducer.py:154-171 | The same for a fold that may raise: it raises if either half does |
| RowEffects.SaleTakesItsShare | src/pumpgrok/ledger/reducer.py:238-269 | A sale takes from the cost basis the floor of basis times units sold over units held, and no more; a partial one books its cash delta less that slice; mark and stored venue fee keep their floored shares, the mark capped by what the sale did not bring in; cash moves by the delta and every other position and field stays |
| RowEffects.BuyAddsItsCost | src/pumpgrok/ledger/reducer.py:225-237 | A buy into a held position adds its units, the cash it paid and both fees to it, books nothing, and changes nothing else of any position |
| RowEffects.OtherFillsMoveCash | src/pumpgrok/ledger/reducer.py:213-278 | Any other fill, a buy on a flat mint or a sale of nothing, moves cash and no position |
| RowEffects.OpenedAsWritten | src/pumpgrok/ledger/reducer.py:174-195 | An opening row writes the position it names field by field, unmarked, with the entry price as its peak and no fees; a blank mint opens nothing; all other positions stay |
| RowEffects.ClosedAsWritten | src/pumpgrok/ledger/reducer.py:196-210 | A closing row removes its mint alone and adds its realized PnL |
| RowEffects.RaisesExactly | src/pumpgrok/ledger/reducer.py:303-337 | The fold raises if and only if a mark row reaches a held, unfrozen position with a spot that is no number |
| RowEffects.MarkSetsTheValue | src/pumpgrok/ledger/reducer.py:303-337 | A mark row that does not raise gives each held, unfrozen mint it names its amount, venue fee and stamp, or what it had and the row's stamp where a key is missing, its source, and the higher of peak and spot; frozen and unnamed positions keep everything, and no other field of a position moves |
| RowEffects.EquityIsCashAndWorth | src/pumpgrok/backtest/equity.py:21-34 | Equity is cash plus, over any enumeration of the held mints, the mark or else the cost of those with units |
| RowEffects.EquityAfterMarks | src/pumpgrok/ledger/reducer.py:303-337 | After a mark row equity is cash plus the marks the row gave and, for mints it does not reach, what they were worth |
| BookValue.StepKeepsPhase | src/pumpgrok/ledger/reducer.py:174-278 | The row discipline of one mint is kept by every allowed row, and no allowed row raises |
| BookValue.FillKeepsBook | src/pumpgrok/ledger/reducer.py:213-278 | An allowed fill leaves cash plus open cost bases, counting the position or close row it still owes, changed by exactly the slice it books, whatever the floor took |
| BookValue.MarksKeepBasis | src/pumpgrok/ledger/reducer.py:303-337 | A mark, whatever prices it carries, leaves the sum of the cost bases alone |
| BookValue.StepKeepsBook | src/pumpgrok/ledger/reducer.py:174-300 | One allowed row moves cash plus open cost bases by exactly what it books less a refusal fee, floors included |
| BookValue.BookValueConserved | src/pumpgrok/ledger/reducer.py:174-300 | In every settled state of every well-formed log, cash plus open cost bases equals initial equity plus all realized PnL ever booked, across day rolls, less rejected fees |
| BookValue.CashEquation | src/pumpgrok/ledger/reconcile.py:147-161 | Cash is the starting cash plus fill deltas less rejected fees, for every log at all |
| BookValue.RealizedIsNetCashWhenFlat | src/pumpgrok/ledger/reducer.py:196-278 | Once flat, the realized PnL of partial slices and closes adds up to exactly the net cash of the fills: each floored slice is counted once |
| BookValue.UnitsAreSummedFills | src/pumpgrok/ledger/reconcile.py:192-217 | Units held are the signed sum of the fills of that mint, for every mint of every well-formed log |
| BookValue.PeakStepExact | src/pumpgrok/ledger/reducer.py:145-151 | One row keeps equity at or under the peak if and only if it is not a refusal whose negative fee exceeds the gap |
| BookValue.PeakIsHighestEquity | src/pumpgrok/ledger/reducer.py:145-151 | With non-negative rejection fees the stored peak is exactly the highest equity of any state passed through |
| BookValue.DrawdownNeverNegative | src/pumpgrok/ledger/views.py:33-45 | From genesis on the peak is the highest equity so far and the drawdown fraction is never negative |
| BookValue.NegativeFeesBreakThePeak | src/pumpgrok/ledger/reducer.py:281-300 | A concrete refusal with negative fees leaves equity above the peak |
| BookValue.SaleKeepsNonNegative | src/pumpgrok/ledger/reducer.py:238-269 | A sale within the holding keeps units, basis, mark and stored venue fee non-negative and lowers them |
| BookValue.SaleRunKeepsNonNegative | src/pumpgrok/ledger/reducer.py:238-269 | Over any run of sales with no new mark they stay non-negative, and selling every unit leaves exactly zero of each |
| BookValue.SaleEquity | src/pumpgrok/ledger/reducer.py:238-269 | A sale changes equity by its cash delta plus the change of that one position's worth |
| BookValue.SaleNeverInventsValue | src/pumpgrok/ledger/reducer.py:238-269 | On a position marked at M >= 0 a sale changes equity by at most max(-network cost, cash delta - M) |
| BookValue.UnmarkedSaleBooksItsChange | src/pumpgrok/ledger/reducer.py:238-269 | Without a mark a partial sale changes equity by exactly the PnL it books |
| DeskHistory.LatchesFollowTheirLastRow | src/pumpgrok/ledger/reducer.py:340-368 | Halt and kill switch in the folded state are what their last rows in the log say, or as at the start |
| DeskHistory.BreakerViewFollowsItsLastRow | src/pumpgrok/ledger/reducer.py:371-384 | A breaker view is open or closed, since the stamp of its last trip or reset row |
| DeskHistory.ApprovalViewFollowsItsLastRow | src/pumpgrok/ledger/reducer.py:401-410 | An approval view shows the last row recorded under its id |
| DeskHistory.DayFollowsTheLog | src/pumpgrok/ledger/reducer.py:154-171 | Seq, day, day-start equity and last mark stamp are those of their last rows, and rows of unknown type are kept in order |
| DeskHistory.CountersCountToday | src/pumpgrok/ledger/reducer.py:387-398 | The day counters are the number of buys, the number of refusals a reason and the fees since the last day roll |
| DeskHistory.ViewAgreesWithRebuild | src/pumpgrok/risk/breakers.py:471-497 | The folded breaker view and the rebuild agree on whether a breaker is open, and since when, if and only if its last trip or reset row, if a trip, has a readable stamp |
| Reconcile.FoldRows | src/pumpgrok/ledger/reconcile.py:95-97 | The replay loop is the fold, or stops where the fold raises |
| Reconcile.CheckSource | src/pumpgrok/ledger/reconcile.py:181-189 | Names the first row from another source, if the store has a source |
| Reconcile.PositionTables | src/pumpgrok/ledger/reconcile.py:192-217 | The one-pass tables hold, for every mint, the signed fill sum and the seqs of its last open and last close |
| Reconcile.CheckPositions | src/pumpgrok/ledger/reconcile.py:192-217 | Reports a unit mismatch before a closed-yet-held position, and nothing only when neither exists |
| Reconcile.ReconcileStore | src/pumpgrok/ledger/reconcile.py:74-127 | The whole restart: chain, snapshot plus tail, full replay and the five checks in order, with the report and the latch they lead to; `RestartReport.ReportExactly` says what each report means |
| Reconcile.CashCheckNeverFires | src/pumpgrok/ledger/reconcile.py:147-161 | The cash check passes on the genuine fold of any log |
| Reconcile.CloseCheckNeverFires | src/pumpgrok/ledger/reconcile.py:192-217 | The closed-but-held check passes on the genuine fold of any log with increasing seqs, well formed or not |
| Reconcile.UnitsCheckNeverFires | src/pumpgrok/ledger/reconcile.py:192-217 | The unit check passes on the genuine fold of a well-formed log, even one cut between a fill and its position row |
| Reconcile.TailReplayIsFullReplay | src/pumpgrok/ledger/reconcile.py:88-97 | Snapshot plus tail is the full fold, wherever the snapshot was taken |
| Reconcile.GenuineFoldPasses | src/pumpgrok/ledger/reconcile.py:220-237 | All five checks pass when the tail state is the full fold of a sound, well-formed, one-source ledger |
| Reconcile.RestartIsConsistent | src/pumpgrok/ledger/reconcile.py:74-237 | Any store built by appends from one source, a well-formed log, and any snapshots of which the latest, if there is one, is truthful: reconcile is CONSISTENT and its state is the full fold |
| RestartReport.ReportExactly | src/pumpgrok/ledger/reconcile.py:74-237 | On a sound, non-empty store a restart is CONSISTENT if and only if snapshot plus tail and full replay agree, cash is initial equity plus fill deltas less refusal fees, a chain hash that the latest snapshot records is that of the row at its seq, every row has the meta source when one is set, every held position has its summed fill units and none is held past its last close; a report that names a check means that check found what it looks for and the earlier ones passed; no report means a fold raised |
| RestartReport.LatestIsTheHighest | src/pumpgrok/ledger/store.py:473-481 | The snapshot that counts is one of those written, and none was taken at a higher seq |
| RestartReport.GenesisExactly | src/pumpgrok/ledger/reconcile.py:57-71 | Genesis has the meta source unless unset or blank, then the first row's, then paper; its cash, peak and day start are the initial equity; its day is that of the first row; all else is empty |
| EmptySnapshot.FoldRebased | src/pumpgrok/ledger/reducer.py:387-398 | Two folds that start under another source and day stay equal in everything else, and agree on the day only after a day roll |
| EmptySnapshot.EmptySnapshotReconcilesExactly | src/pumpgrok/supervisor/lifecycle.py:141-162 | After the snapshot that shutdown writes on an empty ledger, a genuine ledger reconciles CONSISTENT if and only if its source is "paper" and a DailyRollover has been written since; otherwise INCONSISTENT |
| EmptySnapshot.OneRowAfterEmptySnapshot | src/pumpgrok/supervisor/lifecycle.py:141-162 | The shortest such ledger: one row, reported INCONSISTENT |
| Export.MissingIsTheRest | src/pumpgrok/ledger/export.py:59-84 | What a target still misses beyond the cursor is exactly the rest of what it owes, though it may already hold part of it |
| Export.PrefixKeepsBounds | src/pumpgrok/ledger/export.py:59-84 | Writing any prefix of the missing lines keeps a target between the records due at the cursor and all records due |
| Export.RecordsAreUniqueAndGenuine | src/pumpgrok/ledger/export.py:59-84 | At every moment of every run with crashes, new events and foreign note lines, each target's records are in strictly increasing seq and each is the line its event owes |
| Export.ExportCompletes | src/pumpgrok/ledger/export.py:177-200 | One uninterrupted run leaves every target with exactly its required records and the cursor at the head |
| Export.ExportIsComplete | src/pumpgrok/ledger/export.py:177-200 | After any run, an uninterrupted export completes every target, and a second one changes no file |
| Export.JournalBatches | src/pumpgrok/ledger/export.py:87-102 | The day batches are the records each day owes, and every day with one is there |
| Export.TradeLines | src/pumpgrok/ledger/export.py:164-174 | The trade lines are the buys, refusals and closes in ledger order |
| Export.ExportedSeqs | src/pumpgrok/ledger/export.py:42-57 | The seqs read back from a file are those of its export records; shorter note lines do not count |
| Export.ExportTargets.AppendMissing | src/pumpgrok/ledger/export.py:59-84 | Unless the process dies, the file gains exactly the missing rows and loses a torn fragment only if it gains something; dying leaves a prefix of them; no other target changes |
| Export.ExportTargets.ExportJournal | src/pumpgrok/ledger/export.py:177-190 | Every day file is done, or cut short where the process died; the trades file is untouched |
| Export.ExportTargets.ExportLedger | src/pumpgrok/ledger/export.py:177-200 | A call that returns is a completed export, and a call that dies at any write or before the cursor moves is a crash of the protocol |
| ExportLines.TradesOweExactly | src/pumpgrok/ledger/export.py:164-174 | The trades file owes a line if and only if it is the buy line of a buy fill, the skip line of a refusal or the close line of a close in the log, each event at most one |
| ExportLines.JournalOwesExactly | src/pumpgrok/ledger/export.py:87-102 | A day's journal owes a line if and only if it is the one line of an event whose stamp begins with that day |
| ExportLines.FilesHoldExactly | src/pumpgrok/ledger/export.py:177-200 | After a completed export the trades file and every journal hold, besides notes, exactly those lines, each once and in seq order, and the cursor is at the head |
| ExportLines.SeqsReadBack | src/pumpgrok/ledger/export.py:42-57 | The seqs read back from a file are those of its lines that are not notes |
| ExportLines.LinesStay | src/pumpgrok/ledger/export.py:59-84 | No export, completed or cut short, removes or moves a line: each file keeps its lines and grows at the end |
| EquityPath.SettledPath | src/pumpgrok/cli/backtest_holdout.py:191-216 | The loop gives the equity after every row prefix except those between a fill and its position row |
| EquityPath.NetLamports | src/pumpgrok/backtest/equity.py:37-47 | Closing equity less opening equity, unless the fold raises |
| EquityPath.PathSpanIsNet | src/pumpgrok/cli/backtest_holdout.py:191-216 | Last point less first point of the path is the net of the window |
| EquityPath.WindowCurve | src/pumpgrok/cli/backtest_holdout.py:165-188 | The loop gives one equity a fill, taken when the next fill begins or the window ends |
| EquityPath.CurvePairsWithFills | src/pumpgrok/cli/backtest_holdout.py:165-188 | As many points as fills, and the last is the closing equity |
| EquityPath.EveryPointIsSettled | src/pumpgrok/cli/backtest_holdout.py:191-216 | On a completed well-formed log no point of the path falls inside a settlement |
| EquityPath.EverySettledPrefixIsAPoint | src/pumpgrok/cli/backtest_holdout.py:191-216 | Every settled prefix of a well-formed log is a point |
| EquityPath.OpeningAtCostMovesNothing | src/pumpgrok/cli/backtest_holdout.py:191-216 | A buy and its position row together add one point, equal to the one before |
| EquityPath.PathPointsExactly | src/pumpgrok/cli/backtest_holdout.py:191-216 | The path has one point for each prefix that does not stand between a fill and its position row, in order, and each is the equity after that very prefix |
| EquityPath.CurvePointsExactly | src/pumpgrok/cli/backtest_holdout.py:165-188 | The k-th point of the curve is the equity just before the fill after the k-th, or at the close of the window |
| EquityPath.MaxDrawdown | src/pumpgrok/cli/backtest_holdout.py:244-251 | The running loop gives the largest shortfall below the running peak, points before a positive peak counting nothing |
| EquityPath.FallCoversExactly | src/pumpgrok/cli/backtest_holdout.py:244-251 | The shortfall of a point from its running peak covers its fall from an earlier positive point if and only if the later equity is not negative or the earlier point is that peak |
| EquityPath.DrawdownCoversEveryFall | src/pumpgrok/cli/backtest_holdout.py:244-251 | No later point with non-negative equity lies further below an earlier positive one than the reported drawdown |
| EquityPath.NegativeEquityEscapes | src/pumpgrok/cli/backtest_holdout.py:244-251 | A concrete path that ends below zero falls by 2 from its first point and reports at most 1.5 |
| Tickets.ReadsBackExactly | src/pumpgrok/ledger/tickets.py:21-22 | An id reads back as number n for a day if and only if the day is eight digits, n is at most 999 and the id is the one written for n |
| Tickets.IdNamesDayAndNumber | src/pumpgrok/ledger/tickets.py:74 | Ids of different days or numbers differ, past 999 too |
| Tickets.DayMaxIsTheMaximum | src/pumpgrok/ledger/tickets.py:47-56 | The day maximum bounds every readable number and is one of them, or zero |
| Tickets.DayMaxTicketNumber | src/pumpgrok/ledger/tickets.py:40-56 | The loop over stored rows gives that maximum |
| Tickets.NumbersExactly | src/pumpgrok/ledger/tickets.py:40-56 | A number counts for a day if and only if the day is eight digits, the number is at most 999 and the id written for it is stored |
| Tickets.IdAsWritten | src/pumpgrok/ledger/tickets.py:74 | An id is "SOL-", the day, a dash and the number: three zero-padded digits up to 999, and its own four or more digits past that |
| Tickets.CompactOfIsoDate | src/pumpgrok/ledger/tickets.py:72 | The day part of an ISO date is its year, month and day digits run together |
| TicketRace.KeyedIsStored | src/pumpgrok/ledger/tickets.py:79 | Where nothing else stands under a ticket key of the day, a taken ticket key means its id is stored |
| TicketRace.TicketBatch | src/pumpgrok/ledger/tickets.py:75-93 | Under any hash a one-ticket batch lands if and only if its envelope is good, its key is free and no digest clashes, and then stores just that id; IntegrityError tells of the last two |
| TicketRace.EveryRunKeepsInv | src/pumpgrok/ledger/tickets.py:59-94 | In every interleaving of any number of callers and days with any foreign batches, the store stays sound and only grows, and no two calls hand out one id |
| TicketRace.NoteAsStored | src/pumpgrok/ledger/tickets.py:75-89 | A caller stores a ticket note whose only ref is the id, under the key "ticket:" and the id, with the caller's own envelope |
| TicketRace.DayOfStamp | src/pumpgrok/ledger/tickets.py:72 | A call's day is the date of its stamp without the dashes, whatever time follows |
| TicketRace.CallsMoveAlone | src/pumpgrok/ledger/tickets.py:59-94 | A call begins with no race lost, and no action of another caller or of foreign code changes it |
| TicketRace.FinishedStays | src/pumpgrok/ledger/tickets.py:91-94 | Once served, failed or refused a call stays so in every continuation |
| TicketRace.CommittedSince | src/pumpgrok/ledger/tickets.py:73-92 | A number above everything read that is stored later was committed in between, one more than before |
| TicketRace.LostRaceIsExplained | src/pumpgrok/ledger/tickets.py:91-92 | Each race lost to the key is matched by one more distinct ticket of the day, or a key of the day is taken that no reader counts |
| TicketRace.FailureNeedsTenRivals | src/pumpgrok/ledger/tickets.py:73-94 | In any run a call fails only if ten distinct tickets of its day were stored since it began, IntegrityErrors with a free key counted in, or a key of the day is taken that no reader counts: that of the unreadable number, or one another kind of row stands under |
| TicketOrder.MaxOfOrdered | src/pumpgrok/ledger/tickets.py:40-56 | With exactly the first k numbers stored the read maximum is k, stuck at 999 when k is 1000 |
| TicketOrder.NumbersAreConsecutive | src/pumpgrok/ledger/tickets.py:59-94 | When only callers take tickets of a day, its stored ids are in commit order exactly 1, 2, ..., k, for every interleaving and whatever notes other days receive |
| TicketOrder.RoomForTheNext | src/pumpgrok/ledger/tickets.py:59-94 | While the day's numbers are in order and fewer than 1000, the next undisturbed caller takes the next one: all of 1 to 1000 can be taken |
| TicketOrder.FullDayIsWedged | src/pumpgrok/ledger/tickets.py:21-22 | When k reaches 1000 the day is wedged |
| TicketOrder.LandingAfter999EndsTheDay | src/pumpgrok/ledger/tickets.py:21-22 | From a maximum of 999 the next ticket to land wedges the day |
| TicketOrder.ExplicitLastReadable | src/pumpgrok/cli/verbs_state.py:394-420 | An explicit ticket 999 alone makes 999 the maximum of its day |
| TicketOrder.TwoRowsEndTheDay | src/pumpgrok/ledger/tickets.py:73-94 | An explicit ticket 999 and one allocation end the day: no later call of any run is served |
| TicketOrder.NextKeyIsFree | src/pumpgrok/ledger/tickets.py:74-79 | Where only ids' notes stand under the day's ticket keys, the key of the number after the maximum is taken if and only if the day is wedged: 999 is the maximum and the key of 1000 is taken |
| TicketOrder.NextTicketExactly | src/pumpgrok/ledger/tickets.py:73-93 | There, undisturbed between read and append, a caller gets its ticket if and only if its envelope is good, its day is not wedged and no digest clashes |
| TicketOrder.WedgedServesNobody | src/pumpgrok/ledger/tickets.py:73-94 | On a wedged day no later call of any run, with or without rivals, gets a ticket |
| TicketOrder.DayIsOverExactly | src/pumpgrok/ledger/tickets.py:73-94 | There, no run whatever ever serves the day if and only if it is wedged, given a request with a good envelope whose next note meets no digest clash |
| TicketOrder.UniqueExactly | src/pumpgrok/ledger/store.py:42 | Stored ticket ids are unique if and only if no note under another key names an id that some other note names |
| TicketOrder.LandingRepeatsExactly | src/pumpgrok/tools/journal/append.py:179-189 | A landing ticket repeats a stored id if and only if a note under another key has named it since the caller's read or, for the unreadable number, at any time |
| TicketOrder.LooseNoteRepeatsTheTicket | src/pumpgrok/tools/journal/append.py:86-118 | On every table and every day whose next key is free, a journal-tool note that names the next number and lands between read and append leaves the caller served and the id stored twice |
| Allocation.Attempt | src/pumpgrok/ledger/tickets.py:74-92 | One turn of the retry loop is one read, one foreign batch and one commit of the race |
| Allocation.AllocateTicket | src/pumpgrok/ledger/tickets.py:59-94 | The retry loop leaves the table and returns the result of a run of the race, so all of the above holds of it; undisturbed it returns the number after the maximum if and only if its envelope is good, that key is free and no digest clashes, and otherwise leaves the table alone; a latched store and a malformed request are refused at once, TicketAllocationFailed takes ten attempts, and no other error is returned |
| Allocation.RefusedExactly | src/pumpgrok/ledger/tickets.py:75-92 | An attempt is refused with ValueError if and only if the request's stamp or correlation id is empty or its source unknown, whatever is stored, and otherwise fails with IntegrityError only |
| Curve.SellIsBuySwapped | src/pumpgrok/execution/curve_math.py:46-52 | A sale is a purchase on the pool seen from the other side, errors included |
| Curve.BuyKeepsProduct | src/pumpgrok/execution/curve_math.py:33-43 | A buy keeps both reserves positive and the product from falling, and raises it by less than the new lamport reserve |
| Curve.SplitBuy | src/pumpgrok/execution/curve_math.py:69-71 | n buys never yield more than one buy of their total, and at most n - 1 base units less |
| Curve.SplitSell | src/pumpgrok/execution/curve_math.py:74-76 | The same for sales, in lamports |
| Curve.RunKeepsProduct | src/pumpgrok/execution/curve_math.py:33-76 | A run is refused if and only if some amount is not positive; otherwise reserves stay positive and the product never falls |
| Curve.NoFreeLamports | src/pumpgrok/execution/curve_math.py:33-76 | Whoever ends a run with at least the starting tokens has gained no lamports, and the other way round |
| Curve.VenueFeeWithin | src/pumpgrok/execution/fees.py:39-53 | The floored venue fee is never negative and, up to 10000 basis points, never exceeds its size |
| Curve.FeesExactly | src/pumpgrok/execution/fees.py:39-53 | The venue fee is the floor of size times basis points over 10000, and the network cost is the base fee plus the floor of micro-lamports times compute units over a million |
| Curve.ShippedFees | src/pumpgrok/execution/fees.py:30-53 | Shipped: one percent to the venue, floored, and 9000 lamports a transaction |
| Curve.BuyMovesExactly | src/pumpgrok/execution/fees.py:47-57 | A buy moves the floored fee to the venue and the rest of its size onto the curve, costs the trader size and network cost, and brings the floor of the curve's formula in tokens |
| Curve.SaleMovesExactly | src/pumpgrok/execution/fees.py:47-61 | A sale takes the floor of the formula out of the pool; the venue keeps its floored share of that and the trader gets what is left after the network cost |
| Curve.FillRefusedExactly | src/pumpgrok/execution/curve_math.py:33-52 | A fill is refused for a reserve that is not positive, else for a size that leaves nothing after the fee or units that are not positive, and for nothing else |
| Curve.FillConserves | src/pumpgrok/execution/fees.py:39-61 | One fill conserves tokens, and lamports between trader, pool and venue up to the network cost |
| Curve.EveryRunPaysItsCosts | src/pumpgrok/execution/fees.py:39-61 | A run of m fills that ends with at least the starting tokens has cost at least m network costs and every venue fee |
| Curve.DefaultRoundTripLoses | src/pumpgrok/execution/fees.py:30-61 | With the shipped fees a round trip loses at least 18000 lamports |
| Calendar.SakamotoAgrees | src/pumpgrok/reporting/weekly.py:30-34 | The table formula is the day number modulo seven, for every year |
| Calendar.LaterDateLaterDay | src/pumpgrok/reporting/weekly.py:26-60 | Calendar order of valid dates is the order of their day numbers |
| Calendar.OneDateADay | src/pumpgrok/reporting/weekly.py:26-60 | A day number names at most one valid date |
| Calendar.DayNext | src/pumpgrok/reporting/daily.py:114-126 | The next valid date, exactly one day later |
| Calendar.Shift | src/pumpgrok/reporting/weekly.py:36-54 | Moves the day number by exactly delta, to a valid date, from any day of month |
| Calendar.MondayIsUnique | src/pumpgrok/reporting/weekly.py:26-60 | At most one date is the Monday zero to six days back |
| Calendar.IsoMonday | src/pumpgrok/reporting/weekly.py:26-60 | That Monday |
| Calendar.WeekOf | src/pumpgrok/reporting/weekly.py:76-81 | Seven consecutive valid days from the Monday, the given day among them |
| VirtualTime.EveryRunKeepsInv | src/pumpgrok/replay/clock.py:101-132 | In every run, backward jumps included: nothing pending lies in the past, a firing reads its own deadline, and every deadline ever scheduled is pending, fired once or cancelled |
| VirtualTime.FiringsAreInOrder | src/pumpgrok/replay/clock.py:101-132 | Without backward moves timers fire in strictly increasing (when, seq) order |
| VirtualTime.AdvanceFiresExactlyTheDue | src/pumpgrok/replay/clock.py:101-112 | One advance fires exactly the pending deadlines up to its target, each once, and then reads the target |
| VirtualTime.AdvanceTouchesOnlyDue | src/pumpgrok/replay/clock.py:101-112 | What is due later stays pending |
| VirtualTime.CancelTakesItOut | src/pumpgrok/replay/clock.py:174-180 | Cancelling a pending deadline takes it, and no other, out of the queue unfired; cancelling any other changes nothing |
| VirtualTime.CancelledNeverFires | src/pumpgrok/replay/clock.py:101-132 | In every later run, whatever is scheduled, advanced or jumped, a deadline cancelled while pending never fires |
| VirtualTime.ScheduleAddsOne | src/pumpgrok/replay/clock.py:127-132 | A schedule adds one deadline, its delay after the reading, under the next number; a negative delay changes nothing |
| VirtualTime.BackwardMoves | src/pumpgrok/replay/clock.py:101-125 | A step back by `advance_to` changes nothing; a backward jump moves the reading by exactly its delta and fires nothing; a forward one is an advance |
| FixtureClock.FixtureClock.constructor | src/pumpgrok/replay/clock.py:87-90 | A clock with nothing scheduled |
| FixtureClock.FixtureClock.PopFirst | src/pumpgrok/replay/clock.py:105-107 | The heap hands back its least deadline |
| FixtureClock.FixtureClock.AdvanceTo | src/pumpgrok/replay/clock.py:101-112 | The pop loop, skipping inactive timers, is the advance of the value machine; a step back is refused and changes nothing |
| FixtureClock.FixtureClock.Jump | src/pumpgrok/replay/clock.py:114-125 | Forward like an advance, backward only the reading moves |
| FixtureClock.FixtureClock.Schedule | src/pumpgrok/replay/clock.py:127-132 | Refuses a negative delay; otherwise one new active timer with the next seq |
| FixtureClock.FixtureClock.Cancel | src/pumpgrok/replay/clock.py:174-180 | The timer is switched off: its deadline leaves the queue if it was still pending, and nothing changes if it had fired |
| Breakers.Breaker.constructor | src/pumpgrok/risk/breakers.py:91-107 | Closed, with thresholds and cooldown clamped |
| Breakers.Breaker.IsOpen | src/pumpgrok/risk/breakers.py:109-120 | Open within the cooldown; past it the getter moves to half-open |
| Breakers.Breaker.ReadState | src/pumpgrok/risk/breakers.py:122-127 | The text after a look: open, else half-open or closed by the failure count alone |
| Breakers.Breaker.Trip | src/pumpgrok/risk/breakers.py:135-141 | Opens at the given stamp or now, and drops half-open |
| Breakers.Breaker.RecordSuccess | src/pumpgrok/risk/breakers.py:143-150 | Closes when the streak is complete |
| Breakers.Breaker.RecordFailure | src/pumpgrok/risk/breakers.py:152-157 | Trips at the threshold if not already open |
| Breakers.Breaker.AdmitProbe | src/pumpgrok/risk/breakers.py:159-166 | The whole new state and answer of asking for the probe |
| Breakers.Breaker.ResolveProbe | src/pumpgrok/risk/breakers.py:168-179 | Errs without a probe in flight; success counts, failure opens again |
| Breakers.Breaker.Adopt | src/pumpgrok/risk/breakers.py:381-387 | A recorded opening is adopted unless the breaker is open, half-open or probing |
| Breakers.RunKeepsInv | src/pumpgrok/risk/breakers.py:109-179 | The two flags, the stamp and the probes out always match a history that knows only the last opening no close has followed, and the probes admitted and resolved |
| Breakers.ProbesWaitOutTheCooldown | src/pumpgrok/risk/breakers.py:109-179 | At every operation of every run on a monotone clock: open if and only if the standing opening is younger than the cooldown; a probe is admitted if and only if it is not and none is out; at most one is ever out |
| Breakers.ClosesInsideCooldownExactly | src/pumpgrok/risk/breakers.py:143-150 | A breaker leaves its open state inside the cooldown if and only if a success completes the streak, a trip is stamped a whole cooldown back, or a probe fails under a zero cooldown |
| Breakers.SuccessClosesInsideCooldown | src/pumpgrok/risk/breakers.py:143-150 | A concrete close one second into a 30 minute cooldown |
| Breakers.BothAfterStepExactly | src/pumpgrok/risk/breakers.py:168-179 | A step leaves a breaker open and half-open at once if and only if a probe fails while the half-open flag is up, or it was so and neither an expired look, a trip nor a close follows |
| Breakers.BothExactly | src/pumpgrok/risk/breakers.py:109-179 | At the end of any run that starts otherwise, a breaker is open and half-open at once if and only if a half-open probe has failed and nothing has cleared the flags since |
| Breakers.FailedProbeLeavesHalfOpen | src/pumpgrok/risk/breakers.py:175-179 | The shortest such run: trip, probe after the cooldown, failed probe |
| Breakers.OpenSinceIsTheLastTrip | src/pumpgrok/risk/breakers.py:474-491 | The scanned opening is the stamp of the last deciding row, if that row is a trip |
| Breakers.ScanOpenings | src/pumpgrok/risk/breakers.py:474-491 | The loop gives, for each breaker name, that opening and the number of readable trips |
| Breakers.BreakerSet.constructor | src/pumpgrok/risk/breakers.py:336-342 | The three breakers with their shipped thresholds and cooldowns |
| Breakers.BreakerSet.Rebuild | src/pumpgrok/risk/breakers.py:471-497 | Each breaker is new, or has its recorded opening put back with its trip count |
| Breakers.RestoredIsOpenExactly | src/pumpgrok/risk/breakers.py:471-497 | A rebuilt breaker is open at a time if and only if the last deciding row is a trip less than one cooldown old, and admits a probe if and only if that trip is older |
| Breakers.RestoredStartsARun | src/pumpgrok/risk/breakers.py:471-497 | A rebuilt breaker is a start of the runs above, still owing the rest of its cooldown |
| BreakerEffects.OpeningAfterStep | src/pumpgrok/risk/breakers.py:109-179 | Every operation either opens (with its stamp), expires a cooldown, closes, or leaves opening and half-open flag alone, never two of these, and which one is told by guards |
| BreakerEffects.CountersAfterStep | src/pumpgrok/risk/breakers.py:109-179 | Each opening counts one trip; failures and successes are counted, and each opening, expiry, close or failure sets them as stated, any failure starting the success streak over |
| BreakerEffects.ProbeAfterStep | src/pumpgrok/risk/breakers.py:159-179 | A probe is out from its admission, past an expired cooldown or in half-open, to its outcome; settings never change |
| BreakerEffects.FailuresInARow | src/pumpgrok/risk/breakers.py:152-157 | Of consecutive failures from a closed breaker none opens it before the threshold, the one that reaches it does, at its own time, and later ones keep that opening |
| BreakerEffects.FailureBreaksTheStreak | src/pumpgrok/risk/breakers.py:143-179 | After a failure, a trip, a failed probe or an expired cooldown, whatever was counted before, it takes `reset_after_ok` successes in a row to close, and fewer move neither flag |
| BreakerEffects.ExpiredOpensAtOneFailure | src/pumpgrok/risk/breakers.py:113-119 | Once a cooldown is seen to have run out, the next failure opens the breaker again |
| BreakerEffects.TextAsRead | src/pumpgrok/risk/breakers.py:122-127 | The text is open exactly within the cooldown; past it half-open, or closed when the threshold is one |
| BreakerEffects.NewAsAsked | src/pumpgrok/risk/breakers.py:91-107 | A new breaker has the settings asked for, raised to one, one and zero, and everything else at rest |
| BreakerEffects.OpenSinceSpelledOut | src/pumpgrok/risk/breakers.py:474-491 | A recorded opening is a readable trip row of the name that no reset of it nor readable trip follows |
| BreakerEffects.TripCountIsTheRows | src/pumpgrok/risk/breakers.py:474-491 | The recorded trips are as many as the readable trip rows of the name |
| BreakerEffects.RebuiltAsRecorded | src/pumpgrok/risk/breakers.py:492-497 | A rebuilt breaker with an opening has that stamp, its threshold of failures, and one trip a readable trip row |
| BreakerLog.ResolveLogged | src/pumpgrok/risk/breakers.py:444-469 | The row that resolving a probe leaves is decided by the two readings of the state around it; with no probe in flight it errs and writes nothing |
| BreakerLog.RecordAfterRow | src/pumpgrok/risk/breakers.py:474-491 | One more row gives the rebuild a readable trip's stamp, nothing after a reset, and otherwise what it had |
| BreakerLog.MovesKeepInv | src/pumpgrok/risk/breakers.py:354-469 | Looks, probe requests, logged operations and ledger syncs keep the breaker matched to its history |
| BreakerLog.MoveKeepsRecordExactly | src/pumpgrok/risk/breakers.py:453-469 | From a right record one operation keeps it right if and only if: an opening from the open state leaves the stamp where it is, one from another state is not already a cooldown old and its row carries its stamp, and a close does not start from a state that already reads closed (with the one case of a stale standing stamp) |
| BreakerLog.RecordKeepsUpExactly | src/pumpgrok/risk/breakers.py:354-469 | In every run the recorded opening is the standing one throughout if and only if every move kept it |
| BreakerLog.RestartAgreesExactly | src/pumpgrok/risk/breakers.py:471-497 | From a moment on a rebuilt breaker opens and admits exactly as the live one if and only if the record is the standing opening or both are over; with a probe out, if and only if nothing is recorded and the standing opening is over |
| BreakerLog.FailedProbeWhileOpenIsLost | src/pumpgrok/risk/breakers.py:444-469 | A data_stale run whose last opening leaves no row: at 130 the live breaker is open and the rebuilt one is not |
| BreakerLog.GoodProbeOfLossVelocityIsLost | src/pumpgrok/risk/breakers.py:122-127 | A loss_velocity run whose close leaves no row: the rebuilt breaker is half-open, and the next sync opens the live one again |
| RateLimit.RateLimiter.constructor | src/pumpgrok/core/ratelimit.py:24-29 | A full bucket with the shipped rate and burst arithmetic |
| RateLimit.RateLimiter.Refill | src/pumpgrok/core/ratelimit.py:32-35 | Tokens grow with time, up to the capacity |
| RateLimit.RateLimiter.DelayForNext | src/pumpgrok/core/ratelimit.py:37-42 | Zero with a token, else the time to the next one |
| RateLimit.RateLimiter.Acquire | src/pumpgrok/core/ratelimit.py:44-54 | The waiting loop takes exactly one token at the first reading that allows it and reports the sum of the delays told before, or is still waiting when the readings end; if a whole token fits and the clock honours the first sleep, it returns by the second reading |
| RateLimit.RunKeepsTokensInRange | src/pumpgrok/core/ratelimit.py:32-54 | In every run on a monotone clock tokens stay between zero and the capacity |
| RateLimit.GrantsInAnyWindow | src/pumpgrok/core/ratelimit.py:32-54 | In any stretch of any run the calls granted are at most the capacity plus the rate times its length |
| RateLimit.DelayIsExact | src/pumpgrok/core/ratelimit.py:37-42 | The delay told is exact: a call is granted from that moment on and not before, if a whole token fits at all |
| RateLimit.SecondReadingGrants | src/pumpgrok/core/ratelimit.py:44-54 | After sleeping the delay told, the next reading is granted, if a whole token fits |
| RateLimit.FreshIsValid | src/pumpgrok/core/ratelimit.py:24-29 | A constructed limiter starts in range if and only if its burst is not negative |
| RateLimit.FreshExactly | src/pumpgrok/core/ratelimit.py:24-29 | A minute brings `per_minute` tokens, at least a thousandth; the bucket starts full at its burst, by default a sixth of `per_minute` and at least one |
| RateLimit.ReadingMovesExactly | src/pumpgrok/core/ratelimit.py:32-54 | Along any run each reading lifts the level by rate times time up to the capacity, and takes exactly one token if and only if a call is waiting and one is there |
| RateLimit.DelaysAddUp | src/pumpgrok/core/ratelimit.py:37-54 | Each delay told is the time the missing part of a token takes, and a call reports their sum |
| RateLimit.EveryLimiterIsBounded | src/pumpgrok/core/ratelimit.py:24-54 | In each stretch of each run, a limiter built with a burst that is not negative grants at most its burst plus what `per_minute` brings in that time |
| RateLimit.SmallBurstNeverGrants | src/pumpgrok/core/ratelimit.py:24-54 | A burst below one token never grants a call |
| Approvals.ApprovalProblems | ci/gates/check_rollback.py:341-397 | The two loops give the record problems and one problem for each action the greedy choice leaves unmatched |
| Approvals.NothingReportedExactly | ci/gates/check_rollback.py:348-397 | Nothing is reported if and only if every approval is complete and every action is matched |
| Approvals.PickIsFirst | ci/gates/check_rollback.py:366-373 | The choice is the first free approval that satisfies the action, and none only if there is none |
| Approvals.ChoicesAreOwn | ci/gates/check_rollback.py:364-396 | Every choice satisfies its action and is shared with no other |
| Approvals.MatchedMeansAssigned | ci/gates/check_rollback.py:364-396 | No unmatched action means an injective map from actions to satisfying approvals |
| Approvals.NestedIsExact | ci/gates/check_rollback.py:362-396 | Conversely, if of any two actions the sets of satisfying approvals are disjoint or the earlier is contained in the later, and such a map exists, the greedy loop leaves none unmatched |
| Approvals.PlainBeforeTradeSpoils | ci/gates/check_rollback.py:325-338 | A plain action ahead of a trade of the same key: with one own approval each, trades listed first, the greedy loop leaves an action unmatched |
| Approvals.GreedyIsExactIff | ci/gates/check_rollback.py:362-396 | Greedy is exact for a list of actions, over all approval lists, if and only if some action can never be approved or no plain action stands before a trade action with the same key |
| Approvals.ReasonMakesATradeOfTheSameKey | ci/gates/check_rollback.py:271-338 | Two commands the gate can receive, one key and different categories, with an assignment that exists and an action the greedy loop leaves unmatched |
| Approvals.CleanReportApproves | ci/gates/check_rollback.py:341-397 | A clean report means that every approval says what, who, when and how far, and that each action has one of its own that names its command, with a notional for a trade and no hazard |
| Approvals.CleanReportGiven | ci/gates/check_rollback.py:341-397 | And the report is clean whenever that can be had and no plain action stands before a trade of the same key |
| Approvals.ReportExactly | ci/gates/check_rollback.py:341-397 | The report holds exactly these lines: none recorded; a record that is no object or lacks fields, at its place with those fields; and for each action left over, its hazards or that no approval names it |
| Approvals.LeftOverExactly | ci/gates/check_rollback.py:362-396 | An action is left over if and only if every approval that names it went to an earlier action |
| Approvals.MissingExactly | ci/gates/check_rollback.py:352-361 | The fields reported missing are those of the four that are empty, each once |

## Left out

- SQLite, WAL, threads, fsync, file handles and paths: the table is a sequence with an atomic commit or rollback, a file is its complete lines plus a torn-tail flag.
- JSON text, Decimal formatting, stamp formatting and parsing: payloads are typed, with a `rest` field for what no modelled code reads; prices and instants are reals.
- Floating-point rounding in the clock, the breakers and the token bucket: modelled over reals.
- Report and halt texts: a failed check is named, its wording is not.
- Store.LedgerStore.Verify: the exception of a failed check is the returned boolean plus the latch; which row and which field failed is not reported.
- Store.LedgerStore.WriteSnapshot: snapshots come in any order and the latest is the highest seq, as in the table; their `meta` travels with the snapshot and not in the folded state.
- Reconcile.CheckSource: the report's detail text keeps only the offending seq.
- Export.ExportTargets.ExportLedger: file mode bits, directory creation and the per-file fsync order are not modelled; a crash inside one write leaves complete lines plus perhaps a fragment.
- Export.RecordsAreUniqueAndGenuine: the journal tool's lines fall between export runs, never inside one; the export takes no lock where that tool does, so interleaving inside a write is not modelled.
- Tickets.DayMaxTicketNumber: the SQL text filter before the loop is not modelled, since every note whose first ref starts with the prefix passes it; non-ASCII digits are not modelled.
- Allocation.AllocateTicket: other writers act between the read and the append of each attempt, where they can matter; the busy timeout of the database is not modelled.
- FixtureClock.FixtureClock.PopFirst: the heap is kept as a list that hands back its least element; the heap layout itself is not modelled, nor are callbacks that schedule or cancel from inside a firing.
- BreakerLog.RecordKeepsUpExactly: one operation stands between two readings of the state and the clock stands still from the first to the second; a refresh that feeds several rejects between them, the windowed observers that decide when the three breakers trip, and a row refused by the store are not modelled.
- RateLimit.RateLimiter.Acquire: the lock is modelled by keeping the turns of one call consecutive; sleeping is the next clock reading.
- Approvals.ApprovalProblems: `group_actions`, the shell scanner and the pattern tables; field values that are not texts count as texts.
- The realized-PnL, fee and win-rate views, the daily and weekly rendering, the paper adapter, the risk engine, the scheduler and the command line: each settled by one branch or one short loop, or plumbing.
