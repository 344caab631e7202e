/**
 The stored ledger vocabulary: eighteen event types plus the types a newer process may write.

 A payload holds the fields the ledger code reads. `rest` stands for the canonical text of the
 fields that no modelled code reads, so that two payloads are equal only if all their fields are.
 */
module Events {
  import opened Wrappers

  /** A price as text: either it parses as a decimal or the fold refuses it. */
  datatype Spot = Number(value: real) | NotANumber(text: string)

  /** One mint's entry of a MarkToMarket row; missing keys are `None`. */
  datatype Mark = Mark(
    mtm: Option<int>,
    venueFee: Option<int>,
    spot: Spot,
    tsUtc: Option<string>,
    source: string)

  datatype Payload =
    | FillRecorded(side: string, mint: string, filledUnits: int, cashDelta: int,
                   venueFee: int, networkCost: int, rest: string)
    | PositionOpened(mint: string, tokenUnits: int, costBasis: int, priceEntry: real,
                     openedTs: string, symbol: string, creator: string, ticketId: string, rest: string)
    | PositionClosed(mint: string, realizedPnl: int, rest: string)
    | OrderRejected(reason: string, fees: int, rest: string)
    | MarkToMarket(prices: map<string, Mark>, rest: string)
    | HaltSet(reason: string, rest: string)
    | HaltCleared(rest: string)
    | KillSwitchSet(origin: string, flattenRequested: bool, rest: string)
    | KillSwitchCleared(rest: string)
    | BreakerTripped(breaker: string, rest: string)
    | BreakerReset(breaker: string, rest: string)
    | DailyRollover(dayUtc: string, dayStartEquity: int, rest: string)
    | ApprovalRecorded(id: string, kind: string, consumed: bool, rest: string)
    | OrderPlaced(rest: string)
    | ConfigChanged(rest: string)
    | LiveWriteAttempted(rest: string)
    | Escalation(rest: string)
    | JournalNote(noteKind: string, refs: seq<string>, rest: string)
    | Unknown(eventType: string, rest: string)

  /** A stored row in the shape `read()` hands to the fold. */
  datatype Event = Event(seqNo: int, tsUtc: string, source: string, correlationId: string, payload: Payload)

  /** Python's `text[:10]`: the UTC day of an ISO stamp. */
  function Day(tsUtc: string): string {
    if |tsUtc| < 10 then tsUtc else tsUtc[..10]
  }
}
