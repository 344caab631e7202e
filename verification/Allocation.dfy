/** `allocate_ticket` itself: one caller's retry loop over the store, as a run of the race. */
module Allocation {
  import opened Wrappers
  import opened Store
  import opened Tickets
  import opened TicketRace

  datatype AllocationError = TicketAllocationFailed | Refused(error: StoreError)

  /** How a finished call shows to its caller. */
  predicate Reports(request: Request, phase: Phase, r: Result<string, AllocationError>) {
    match phase
    case Got(n) => r == Ok(TicketId(request.Day(), n))
    case Raised(error) => r == Err(Refused(error))
    case Failed => r == Err(TicketAllocationFailed)
    case _ => false
  }

  /** What others commit between this caller's read and its append, attempt by attempt. */
  function RivalAt(rivals: seq<seq<Entry>>, attempt: nat): seq<Entry> {
    if attempt < |rivals| then rivals[attempt] else []
  }

  function Script(request: Request, rivals: seq<seq<Entry>>, attempts: nat): seq<Action> {
    if attempts == 0 then [Begin(0, request)]
    else Script(request, rivals, attempts - 1) + [Read(0), Other(RivalAt(rivals, attempts - 1)), Commit(0)]
  }

  lemma {:induction false} RunSplit(h: Hasher, w: World, a: seq<Action>, b: seq<Action>)
    ensures Run(h, w, a + b) == Run(h, Run(h, w, a), b)
    decreases |a|
  {
    if a == [] {
      assert a + b == b;
    } else {
      assert (a + b)[1..] == a[1..] + b;
      RunSplit(h, Step(h, w, a[0]), a[1..], b);
    }
  }

  /** Where a lone caller's run stands after some rounds. */
  predicate Stands(h: Hasher, before: seq<Row>, script: seq<Action>, after: seq<Row>, c: Call) {
    Run(h, World(before, map[]), script) == World(after, map[0 := c])
  }

  lemma NextRound(h: Hasher, before: seq<Row>, rows: seq<Row>, c: Call, rivals: seq<seq<Entry>>)
    requires c.phase.Reading? && Stands(h, before, Script(c.request, rivals, c.lost), rows, c)
    ensures var read, middle := AfterRead(rows, c), AfterBatch(h, rows, RivalAt(rivals, c.lost));
            Stands(h, before, Script(c.request, rivals, c.lost + 1),
                   AfterBatch(h, middle, [c.request.Note(read.phase.number)]), AfterCommit(h, middle, read))
  {
    var rival := RivalAt(rivals, c.lost);
    RunSplit(h, World(before, map[]), Script(c.request, rivals, c.lost), [Read(0), Other(rival), Commit(0)]);
    OneRound(h, rows, c, rival);
  }

  /** The call's account of what the method returned, and of the table it left. */
  ghost predicate Accounts(h: Hasher, before: seq<Row>, after: seq<Row>, request: Request,
                           rivals: seq<seq<Entry>>, attempts: nat, r: Result<string, AllocationError>) {
    exists c: Call :: Stands(h, before, Script(request, rivals, attempts), after, c) && Reports(request, c.phase, r)
  }

  /** What one attempt leaves of the call: done with a report, or one more race lost. */
  predicate Continues(c: Call, c': Call, outcome: Result<seq<Row>, StoreError>, id: string) {
    match outcome
    case Ok(_) => Reports(c.request, c'.phase, Ok(id))
    case Err(error) =>
      if error != IntegrityError then Reports(c.request, c'.phase, Err(Refused(error)))
      else
        && c'.request == c.request && c'.lost == c.lost + 1
        && c'.phase == if c.lost + 1 == MAX_ATTEMPTS then Failed else Reading
  }

  lemma CommitContinues(h: Hasher, rows: seq<Row>, c: Call)
    requires c.phase.Holding? && c.lost < MAX_ATTEMPTS
    ensures Continues(c, AfterCommit(h, rows, c), AppendAll(h, rows, [c.request.Note(c.phase.number)]),
                      TicketId(c.request.Day(), c.phase.number))
  {
  }

  /** What the append comes to when nobody commits after the read. */
  function Undisturbed(h: Hasher, rows: seq<Row>, q: Request): Result<seq<Row>, StoreError> {
    AppendAll(h, rows, [q.Note(DayMax(q.Day(), TicketIds(rows)) + 1)])
  }

  /** A request whose notes no store takes: an empty stamp or correlation id, or an unknown source. */
  predicate Malformed(q: Request) {
    || q.tsUtc == "" || q.correlationId == ""
    || (q.source != "paper" && q.source != "replay" && q.source != "manual")
  }

  /** A malformed request is refused at once whatever is stored, and any other fails to a rival or a digest only. */
  lemma RefusedExactly(h: Hasher, rows: seq<Row>, q: Request, n: nat)
    ensures var outcome := AppendAll(h, rows, [q.Note(n)]);
            && (outcome == Err(ValueError) <==> Malformed(q))
            && (outcome.Err? && !Malformed(q) ==> outcome == Err(IntegrityError))
  {
    hide TicketId;
    SingleBatch(h, rows, q.Note(n));
    assert "ticket" in NOTE_KINDS;
    hide Insertable, MakeRow;
  }

  /** One turn of the loop: count, let the others commit, append. */
  method Attempt(store: LedgerStore, request: Request, rivals: seq<seq<Entry>>, attempts: nat,
                 ghost before: seq<Row>, ghost c: Call)
    returns (id: string, outcome: Result<seq<Row>, StoreError>, ghost c': Call)
    requires c.request == request && c.phase.Reading? && c.lost == attempts < MAX_ATTEMPTS
    requires !store.inconsistent ==> Stands(store.h, before, Script(request, rivals, c.lost), store.rows, c)
    modifies store`rows
    ensures store.inconsistent ==> outcome == Err(LedgerInconsistent) && store.rows == old(store.rows)
    ensures !store.inconsistent ==>
              && Stands(store.h, before, Script(request, rivals, c.lost + 1), store.rows, c')
              && Continues(c, c', outcome, id)
    ensures id == TicketId(request.Day(), DayMax(request.Day(), TicketIds(old(store.rows))) + 1)
    ensures !store.inconsistent ==>
              && (outcome == Err(ValueError) <==> Malformed(request))
              && (outcome.Err? && !Malformed(request) ==> outcome == Err(IntegrityError))
    ensures !store.inconsistent && RivalAt(rivals, attempts) == [] ==>
              && outcome == Undisturbed(store.h, old(store.rows), request)
              && (outcome.Err? ==> store.rows == old(store.rows))
  {
    hide DayMax, TicketIds, TicketId, TicketKey, AfterCommit, Run, AppendSpec, Reports;
    assert old(store.rows) + [] == old(store.rows);
    ghost var read, rival := AfterRead(store.rows, c), RivalAt(rivals, c.lost);
    ghost var middle := AfterBatch(store.h, store.rows, rival);
    if !store.inconsistent {
      NextRound(store.h, before, store.rows, c, rivals);
    }
    CommitContinues(store.h, middle, read);
    c' := AfterCommit(store.h, middle, read);
    var highest := DayMaxTicketNumber(store.rows, request.Day());
    id := TicketId(request.Day(), highest + 1);
    var _ := store.AppendBatch(RivalAt(rivals, attempts));
    RefusedExactly(store.h, store.rows, request, highest + 1);
    outcome := store.AppendBatch([request.Note(highest + 1)]);
  }

  /** Nobody else commits during the call. */
  predicate Quiet(rivals: seq<seq<Entry>>) {
    forall i | 0 <= i < |rivals| :: rivals[i] == []
  }

  /** The note a caller would append next has a good envelope, a free key and no digest clash. */
  predicate TicketLeft(h: Hasher, rows: seq<Row>, q: Request) {
    var e := q.Note(DayMax(q.Day(), TicketIds(rows)) + 1);
    EnvelopeOk(e) && !KeyTaken(rows, e.key) && !Clashes(h, rows, NextBody(rows, e))
  }

  lemma QuietTicketExactly(h: Hasher, rows: seq<Row>, q: Request)
    ensures Sound(h, rows) ==> (Undisturbed(h, rows, q).Ok? <==> TicketLeft(h, rows, q))
  {
    hide DayMax, TicketIds, TicketId, TicketKey, Clashes, AppendAll, Sound;
    if Sound(h, rows) {
      TicketBatch(h, rows, q, DayMax(q.Day(), TicketIds(rows)) + 1);
    }
  }

  /**
   The retry loop is a run of the race in which this caller is the only one that allocates. Undisturbed,
   it succeeds exactly when there is a ticket left, and then returns the number after the maximum.
   */
  method AllocateTicket(store: LedgerStore, request: Request, rivals: seq<seq<Entry>>)
    returns (r: Result<string, AllocationError>, attempts: nat)
    modifies store`rows
    ensures 1 <= attempts <= 10 && (r == Err(TicketAllocationFailed) ==> attempts == 10)
    ensures if old(store.inconsistent) then r == Err(Refused(LedgerInconsistent)) && store.rows == old(store.rows)
            else Accounts(store.h, old(store.rows), store.rows, request, rivals, attempts, r)
    ensures !old(store.inconsistent) ==>
              && (r == Err(Refused(ValueError)) <==> Malformed(request)) && (Malformed(request) ==> attempts == 1)
              && (r.Err? && !Malformed(request) ==> r == Err(TicketAllocationFailed))
    ensures !old(store.inconsistent) && Quiet(rivals) && Sound(store.h, old(store.rows)) ==>
              && (r.Ok? <==> TicketLeft(store.h, old(store.rows), request))
              && (r.Ok? ==> r.value == TicketId(request.Day(), DayMax(request.Day(), TicketIds(old(store.rows))) + 1))
              && (r.Err? ==> store.rows == old(store.rows))
  {
    hide DayMax, TicketIds, TicketId, TicketKey, Stands, Undisturbed, TicketLeft, Sound;
    attempts := 0;
    ghost var before := store.rows;
    ghost var c := Call(request, |store.rows|, 0, 0, Reading);
    AtFirst(store.h, before, c, rivals);
    QuietTicketExactly(store.h, before, request);
    while attempts < MAX_ATTEMPTS
      invariant attempts <= MAX_ATTEMPTS && store.inconsistent == old(store.inconsistent)
      invariant store.inconsistent ==> attempts == 0 && store.rows == before
      invariant !store.inconsistent ==> Stands(store.h, before, Script(request, rivals, attempts), store.rows, c)
      invariant c.request == request && c.lost == attempts
      invariant !store.inconsistent && attempts > 0 ==> !Malformed(request)
      invariant c.phase == if attempts == MAX_ATTEMPTS then Failed else Reading
      invariant !store.inconsistent && Quiet(rivals) ==>
                  && store.rows == before
                  && (attempts > 0 ==> Undisturbed(store.h, before, request) == Err(IntegrityError))
    {
      var id, outcome;
      id, outcome, c := Attempt(store, request, rivals, attempts, before, c);
      attempts := attempts + 1;
      if outcome.Ok? {
        return Ok(id), attempts;
      } else if outcome.error != IntegrityError {
        return Err(Refused(outcome.error)), attempts;
      }
    }
    return Err(TicketAllocationFailed), attempts;
  }

  lemma AtFirst(h: Hasher, rows: seq<Row>, c: Call, rivals: seq<seq<Entry>>)
    requires c == Call(c.request, |rows|, 0, 0, Reading)
    ensures Stands(h, rows, Script(c.request, rivals, 0), rows, c)
  {
    assert [Begin(0, c.request)][1..] == [];
  }
}
