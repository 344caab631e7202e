/**
 Allocation under every interleaving: a caller reads the day's maximum, others may commit anything,
 then its one-row batch lands or loses to the unique key, and it tries again up to ten times.

 Other code writes ticket notes too: `ticket create` under the same kind of key, seats through the
 journal tool under a key of their own. Both kinds are among the foreign batches.
 */
module TicketRace {
  import opened Wrappers
  import opened Events
  import opened Sets
  import opened Store
  import opened Tickets

  datatype Request = Request(tsUtc: string, source: string, correlationId: string, rest: string) {
    function Day(): (day: string)
      ensures '-' !in day
    {
      Compact(if |tsUtc| < 10 then tsUtc else tsUtc[..10])
    }

    function Key(n: nat): string {
      TicketKey(TicketId(Day(), n))
    }

    function Note(n: nat): Entry {
      Entry(tsUtc, source, correlationId, Key(n), Some(JournalNote("ticket", [TicketId(Day(), n)], rest)))
    }
  }

  /** The note a caller stores: a ticket note naming the id alone, under the id's key, with the caller's envelope. */
  lemma NoteAsStored(q: Request, n: nat)
    ensures
      var e, id := q.Note(n), TicketId(q.Day(), n);
      && e.tsUtc == q.tsUtc && e.source == q.source && e.correlationId == q.correlationId
      && e.key == "ticket:" + id
      && e.payload == Some(JournalNote("ticket", [id], q.rest)) && TicketOf(e.payload.value) == Some(id)
  {
  }

  /** The day of a request is the date of its stamp without the dashes. */
  lemma DayOfStamp(q: Request, year: string, month: string, dom: string, time: string)
    requires '-' !in year && '-' !in month && '-' !in dom && |year| == 4 && |month| == 2 && |dom| == 2
    requires q.tsUtc == year + "-" + month + "-" + dom + time
    ensures q.Day() == year + month + dom
  {
    assert q.tsUtc[..10] == year + "-" + month + "-" + dom;
    CompactOfIsoDate(year, month, dom);
  }

  datatype Phase = Reading | Holding(number: nat, seen: nat) | Got(number: nat) | Failed | Raised(error: StoreError)

  /** One call: rows stored when it began, races lost, and how many of those to no key but a digest clash. */
  datatype Call = Call(request: Request, start: nat, lost: nat, clashes: nat, phase: Phase)

  datatype World = World(rows: seq<Row>, calls: map<nat, Call>)

  datatype Action = Begin(pid: nat, request: Request) | Read(pid: nat) | Commit(pid: nat) | Other(batch: seq<Entry>)

  function AfterBatch(h: Hasher, rows: seq<Row>, batch: seq<Entry>): seq<Row> {
    var r := AppendAll(h, rows, batch);
    if r.Ok? then rows + r.value else rows
  }

  function AfterRead(rows: seq<Row>, c: Call): Call {
    if c.phase.Reading?
    then c.(phase := Holding(DayMax(c.request.Day(), TicketIds(rows)) + 1, |rows|))
    else c
  }

  function AfterCommit(h: Hasher, rows: seq<Row>, c: Call): Call {
    if c.phase.Holding? then
      match AppendAll(h, rows, [c.request.Note(c.phase.number)])
      case Ok(_) => c.(phase := Got(c.phase.number))
      case Err(IntegrityError) =>
        c.(lost := c.lost + 1,
           clashes := c.clashes + (if KeyTaken(rows, c.request.Key(c.phase.number)) then 0 else 1),
           phase := if c.lost + 1 == MAX_ATTEMPTS then Failed else Reading)
      case Err(error) => c.(phase := Raised(error))
    else c
  }

  function Step(h: Hasher, w: World, a: Action): World {
    match a
    case Begin(p, request) =>
      if p in w.calls then w else w.(calls := w.calls[p := Call(request, |w.rows|, 0, 0, Reading)])
    case Read(p) =>
      if p in w.calls then w.(calls := w.calls[p := AfterRead(w.rows, w.calls[p])]) else w
    case Commit(p) =>
      if p in w.calls && w.calls[p].phase.Holding? then
        World(AfterBatch(h, w.rows, [w.calls[p].request.Note(w.calls[p].phase.number)]),
              w.calls[p := AfterCommit(h, w.rows, w.calls[p])])
      else w
    case Other(batch) => w.(rows := AfterBatch(h, w.rows, batch))
  }

  function Run(h: Hasher, w: World, actions: seq<Action>): World
    decreases |actions|
  {
    if actions == [] then w else Run(h, Step(h, w, actions[0]), actions[1..])
  }

  /** A call is begun once, with nothing lost, and an action moves no call but its own. */
  lemma CallsMoveAlone(h: Hasher, w: World, a: Action, p: nat)
    ensures
      var w' := Step(h, w, a);
      if a.Begin? && a.pid == p && p !in w.calls
      then p in w'.calls && w'.calls[p] == Call(a.request, |w.rows|, 0, 0, Reading)
      else if a.Other? || a.pid != p || a.Begin?
      then (p in w'.calls <==> p in w.calls) && (p in w.calls ==> w'.calls[p] == w.calls[p])
      else (p in w'.calls <==> p in w.calls) && (p in w.calls ==> w'.calls[p].request == w.calls[p].request)
  {
    hide AppendAll;
  }

  /** What a call has come to, a ticket, ten lost races or a refusal, it stays, whatever else runs. */
  lemma {:induction false} FinishedStays(h: Hasher, w: World, actions: seq<Action>, p: nat)
    requires p in w.calls && (w.calls[p].phase.Got? || w.calls[p].phase.Failed? || w.calls[p].phase.Raised?)
    ensures var end := Run(h, w, actions); p in end.calls && end.calls[p] == w.calls[p]
    decreases |actions|
  {
    hide AppendAll;
    if actions != [] {
      FinishedStays(h, Step(h, w, actions[0]), actions[1..], p);
    }
  }

  // ---------------------------------------------------------------- what is kept

  /** The first number of the day that can be written but not read back. */
  function UnreadableNumber(day: string): nat {
    if DayReadable(day) then LAST_READABLE + 1 else 1
  }

  /** A row under a ticket key of the day that is not that id's note. */
  predicate Squats(day: string, r: Row) {
    TicketKey(Prefix(day)) <= r.body.key && TicketOf(r.body.payload) != Some(r.body.key[7..])
  }

  /** A key of the day is taken that no reader counts: that of the unreadable number, or one squatted on. */
  predicate Stuck(day: string, rows: seq<Row>) {
    || KeyTaken(rows, TicketKey(TicketId(day, UnreadableNumber(day))))
    || exists i | 0 <= i < |rows| :: Squats(day, rows[i])
  }

  /** No more races lost than tickets of the day stored in between, digest clashes apart, unless stuck. */
  predicate Explained(day: string, rows: seq<Row>, start: nat, lost: nat, clashes: nat, upTo: nat)
    requires start <= upTo <= |rows|
  {
    Stuck(day, rows) || lost <= |Numbers(day, TicketIds(rows[start..upTo]))| + clashes
  }

  predicate CallOk(rows: seq<Row>, c: Call) {
    && c.start <= |rows|
    && (c.phase.Failed? ==> c.lost == MAX_ATTEMPTS)
    && (match c.phase
        case Holding(n, seen) =>
          && c.start <= seen <= |rows|
          && n == DayMax(c.request.Day(), TicketIds(rows[..seen])) + 1
          && Explained(c.request.Day(), rows, c.start, c.lost, c.clashes, seen)
        case Got(n) => KeyTaken(rows[c.start..], c.request.Key(n))
        case _ => Explained(c.request.Day(), rows, c.start, c.lost, c.clashes, |rows|))
  }

  /** The id a finished call handed out. */
  predicate Holds(w: World, p: nat, id: string) {
    p in w.calls && w.calls[p].phase.Got? && id == TicketId(w.calls[p].request.Day(), w.calls[p].phase.number)
  }

  ghost predicate Inv(h: Hasher, w: World) {
    && Sound(h, w.rows)
    && (forall p | p in w.calls :: CallOk(w.rows, w.calls[p]))
    && (forall p, q, id | Holds(w, p, id) && Holds(w, q, id) :: p == q)
  }

  // ---------------------------------------------------------------- sets of numbers

  lemma NumbersSplit(day: string, a: seq<string>, b: seq<string>)
    ensures Numbers(day, a + b) == Numbers(day, a) + Numbers(day, b)
  {
    forall n | n in Numbers(day, a) + Numbers(day, b)
      ensures n in Numbers(day, a + b)
    {
      if n in Numbers(day, a) {
        var i :| 0 <= i < |a| && NumberOf(day, a[i]) == Some(n);
        assert (a + b)[i] == a[i];
      } else {
        var i :| 0 <= i < |b| && NumberOf(day, b[i]) == Some(n);
        assert (a + b)[|a| + i] == b[i];
      }
    }
  }

  /** The numbers of a stretch of rows are those of its two parts. */
  lemma NumbersBetween(day: string, rows: seq<Row>, from: nat, mid: nat, to: nat)
    requires from <= mid <= to <= |rows|
    ensures Numbers(day, TicketIds(rows[from..to]))
            == Numbers(day, TicketIds(rows[from..mid])) + Numbers(day, TicketIds(rows[mid..to]))
  {
    assert rows[from..to] == rows[from..mid] + rows[mid..to];
    TicketIdsSplit(rows[from..mid], rows[mid..to]);
    NumbersSplit(day, TicketIds(rows[from..mid]), TicketIds(rows[mid..to]));
  }

  lemma {:induction false} StoredIsARow(rows: seq<Row>, id: string)
    ensures id in TicketIds(rows) <==> exists i | 0 <= i < |rows| :: TicketOf(rows[i].body.payload) == Some(id)
  {
    if rows != [] {
      var n := |rows| - 1;
      StoredIsARow(rows[..n], id);
      assert forall i | 0 <= i < n :: rows[..n][i] == rows[i];
      if i :| 0 <= i < |rows| && TicketOf(rows[i].body.payload) == Some(id) && i < n {
        assert TicketOf(rows[..n][i].body.payload) == Some(id);
      }
    }
  }

  /** A taken ticket key of a day means that its id is stored, or that a row squats on it. */
  lemma KeyedIsStored(day: string, rows: seq<Row>, n: nat)
    requires forall i | 0 <= i < |rows| :: !Squats(day, rows[i])
    ensures KeyTaken(rows, TicketKey(TicketId(day, n))) ==> TicketId(day, n) in TicketIds(rows)
  {
    hide Pad3;
    var id := TicketId(day, n);
    StoredIsARow(rows, id);
    assert TicketKey(id)[7..] == id && TicketKey(Prefix(day)) <= TicketKey(id);
  }

  lemma KeyTakenSplit(a: seq<Row>, b: seq<Row>, key: string)
    ensures KeyTaken(a + b, key) <==> KeyTaken(a, key) || KeyTaken(b, key)
  {
    var all := a + b;
    if KeyTaken(a, key) {
      var i :| 0 <= i < |a| && a[i].body.key == key;
      assert all[i].body.key == key;
    }
    if KeyTaken(b, key) {
      var i :| 0 <= i < |b| && b[i].body.key == key;
      assert all[|a| + i].body.key == key;
    }
  }

  // ---------------------------------------------------------------- the store under a batch

  lemma {:induction false} AppendedRows(h: Hasher, rows: seq<Row>, entries: seq<Entry>)
    requires AppendAll(h, rows, entries).Ok?
    ensures var added := AppendAll(h, rows, entries).value;
            && |added| == |entries|
            && forall i | 0 <= i < |entries| ::
                 entries[i].payload == Some(added[i].body.payload) && entries[i].key == added[i].body.key
    decreases |entries|
  {
    if entries != [] {
      var r := AppendSpec(h, rows, entries[0]).value;
      AppendedRows(h, rows + [r], entries[1..]);
      assert forall i | 1 <= i < |entries| :: entries[i] == entries[1..][i - 1];
    }
  }

  lemma BatchKeepsSound(h: Hasher, rows: seq<Row>, batch: seq<Entry>)
    requires Sound(h, rows)
    ensures Sound(h, AfterBatch(h, rows, batch))
    ensures rows <= AfterBatch(h, rows, batch)
  {
    if AppendAll(h, rows, batch).Ok? {
      AppendAllKeepsSound(h, rows, batch);
    }
  }

  lemma SingleBatch(h: Hasher, rows: seq<Row>, e: Entry)
    ensures AppendAll(h, rows, [e]) == match AppendSpec(h, rows, e) case Ok(r) => Ok([r]) case Err(error) => Err(error)
  {
    assert [e][1..] == [];
    if AppendSpec(h, rows, e).Ok? {
      var r := AppendSpec(h, rows, e).value;
      assert AppendAll(h, rows + [r], []) == Ok([]);
      assert [r] + [] == [r];
    }
  }

  /**
   A one-ticket batch lands exactly when its envelope is good, its key is free and no digest clashes, and
   then adds its id; otherwise the table is as it was, and IntegrityError tells of the last two.
   */
  lemma TicketBatch(h: Hasher, rows: seq<Row>, q: Request, n: nat)
    requires Sound(h, rows)
    ensures var r, taken := AppendAll(h, rows, [q.Note(n)]), KeyTaken(rows, q.Key(n));
            var clash := Clashes(h, rows, NextBody(rows, q.Note(n)));
            && (r.Ok? <==> EnvelopeOk(q.Note(n)) && !taken && !clash)
            && (r == Err(IntegrityError) <==> EnvelopeOk(q.Note(n)) && (taken || clash))
    ensures var after := AfterBatch(h, rows, [q.Note(n)]);
            AppendAll(h, rows, [q.Note(n)]).Ok? ==>
              && |after| == |rows| + 1 && after[|rows|].body.key == q.Key(n)
              && TicketOf(after[|rows|].body.payload) == Some(TicketId(q.Day(), n))
              && TicketIds(after) == TicketIds(rows) + [TicketId(q.Day(), n)]
  {
    hide TicketId, TicketIds, TicketKey, Verifies;
    var e := q.Note(n);
    SingleBatch(h, rows, e);
    AppendAcceptedExactly(h, rows, e);
    if AppendSpec(h, rows, e).Ok? {
      TicketIdsSnoc(rows, AppendSpec(h, rows, e).value);
    }
  }

  // ---------------------------------------------------------------- calls

  lemma StuckStays(day: string, a: seq<Row>, b: seq<Row>)
    ensures Stuck(day, a) ==> Stuck(day, a + b)
  {
    hide Squats, TicketId, TicketKey;
    KeyTakenSplit(a, b, TicketKey(TicketId(day, UnreadableNumber(day))));
    if i :| 0 <= i < |a| && Squats(day, a[i]) {
      assert Squats(day, (a + b)[i]);
    }
  }

  lemma ExplainedStays(day: string, rows: seq<Row>, added: seq<Row>,
                       start: nat, lost: nat, clashes: nat, upTo: nat, later: nat)
    requires start <= upTo <= |rows| && upTo <= later <= |rows + added|
    requires Explained(day, rows, start, lost, clashes, upTo)
    ensures Explained(day, rows + added, start, lost, clashes, later)
  {
    hide Stuck, TicketIds, Numbers;
    var all := rows + added;
    StuckStays(day, rows, added);
    assert all[start..upTo] == rows[start..upTo];
    NumbersBetween(day, all, start, upTo, later);
    SubsetSize(Numbers(day, TicketIds(all[start..upTo])), Numbers(day, TicketIds(all[start..later])));
  }

  lemma CallStaysOk(rows: seq<Row>, added: seq<Row>, c: Call)
    requires CallOk(rows, c)
    ensures CallOk(rows + added, c)
  {
    hide Explained, DayMax, TicketIds, TicketId, TicketKey;
    var all := rows + added;
    match c.phase
    case Holding(n, seen) =>
      assert all[..seen] == rows[..seen];
      ExplainedStays(c.request.Day(), rows, added, c.start, c.lost, c.clashes, seen, seen);
    case Got(n) =>
      assert all[c.start..] == rows[c.start..] + added;
      KeyTakenSplit(rows[c.start..], added, c.request.Key(n));
    case _ =>
      ExplainedStays(c.request.Day(), rows, added, c.start, c.lost, c.clashes, |rows|, |all|);
  }

  /** A number above everything read that is stored later was committed in between. */
  lemma CommittedSince(day: string, rows: seq<Row>, start: nat, seen: nat, n: nat)
    requires start <= seen <= |rows|
    requires n == DayMax(day, TicketIds(rows[..seen])) + 1
    requires n in Numbers(day, TicketIds(rows))
    ensures |Numbers(day, TicketIds(rows[start..seen]))| + 1 <= |Numbers(day, TicketIds(rows[start..]))|
  {
    hide DayMax, TicketIds, NumberOf, Numbers;
    var early, during := Numbers(day, TicketIds(rows[start..seen])), Numbers(day, TicketIds(rows[start..]));
    assert rows[0..seen] == rows[..seen] && rows[0..|rows|] == rows;
    assert rows[start..|rows|] == rows[start..];
    NumbersBetween(day, rows, 0, start, seen);
    NumbersBetween(day, rows, 0, seen, |rows|);
    NumbersBetween(day, rows, start, seen, |rows|);
    DayMaxIsTheMaximum(day, TicketIds(rows[..seen]));
    SubsetSize(early + {n}, during);
  }

  lemma ReadableIsCounted(day: string, ids: seq<string>, n: nat)
    requires DayReadable(day) && n <= LAST_READABLE && TicketId(day, n) in ids
    ensures n in Numbers(day, ids)
  {
    ReadsBackExactly(day, TicketId(day, n), n);
    var k :| 0 <= k < |ids| && ids[k] == TicketId(day, n);
    assert NumberOf(day, ids[k]) == Some(n);
  }

  lemma NextNumber(day: string, ids: seq<string>)
    ensures DayMax(day, ids) + 1 == UnreadableNumber(day) || (DayReadable(day) && DayMax(day, ids) + 1 <= LAST_READABLE)
  {
    UnreadableDay(day, ids);
  }

  /** A race lost to the key: someone committed this very number since the read, or the day is stuck. */
  lemma LostRaceIsExplained(day: string, rows: seq<Row>, start: nat, lost: nat, clashes: nat, seen: nat, n: nat)
    requires start <= seen <= |rows| && n == DayMax(day, TicketIds(rows[..seen])) + 1
    requires Explained(day, rows, start, lost, clashes, seen)
    requires KeyTaken(rows, TicketKey(TicketId(day, n)))
    ensures Explained(day, rows, start, lost + 1, clashes, |rows|)
  {
    hide DayMax, TicketIds, TicketId, TicketKey, Numbers, DayReadable, Squats;
    NextNumber(day, TicketIds(rows[..seen]));
    if n != UnreadableNumber(day) && !Stuck(day, rows) {
      KeyedIsStored(day, rows, n);
      ReadableIsCounted(day, TicketIds(rows), n);
      CommittedSince(day, rows, start, seen, n);
      assert rows[start..|rows|] == rows[start..];
    }
  }

  lemma {:induction false} UnreadableDay(day: string, ids: seq<string>)
    ensures !DayReadable(day) ==> DayMax(day, ids) == 0
  {
    if ids != [] {
      UnreadableDay(day, ids[..|ids| - 1]);
    }
  }

  lemma CommitLands(h: Hasher, rows: seq<Row>, c: Call)
    requires Sound(h, rows) && CallOk(rows, c) && c.phase.Holding?
    requires AppendAll(h, rows, [c.request.Note(c.phase.number)]).Ok?
    ensures CallOk(AfterBatch(h, rows, [c.request.Note(c.phase.number)]), AfterCommit(h, rows, c))
  {
    hide DayMax, TicketIds, TicketId, TicketKey, Explained, Verifies;
    var after := AfterBatch(h, rows, [c.request.Note(c.phase.number)]);
    TicketBatch(h, rows, c.request, c.phase.number);
    assert after[c.start..][|rows| - c.start] == after[|rows|];
  }

  lemma CommitLoses(h: Hasher, rows: seq<Row>, c: Call)
    requires Sound(h, rows) && CallOk(rows, c) && c.phase.Holding?
    requires AppendAll(h, rows, [c.request.Note(c.phase.number)]).Err?
    ensures CallOk(rows, AfterCommit(h, rows, c))
  {
    hide DayMax, TicketIds, TicketId, TicketKey, Explained, Verifies, AppendAll;
    var day, n, seen := c.request.Day(), c.phase.number, c.phase.seen;
    assert rows + [] == rows;
    ExplainedStays(day, rows, [], c.start, c.lost, c.clashes, seen, |rows|);
    if AppendAll(h, rows, [c.request.Note(n)]).error == IntegrityError {
      if KeyTaken(rows, c.request.Key(n)) {
        LostRaceIsExplained(day, rows, c.start, c.lost, c.clashes, seen, n);
      } else {
        OneMoreClash(day, rows, c.start, c.lost, c.clashes);
      }
    }
  }

  lemma OneMoreClash(day: string, rows: seq<Row>, start: nat, lost: nat, clashes: nat)
    requires start <= |rows| && Explained(day, rows, start, lost, clashes, |rows|)
    ensures Explained(day, rows, start, lost + 1, clashes + 1, |rows|)
  {
  }

  // ---------------------------------------------------------------- every run

  lemma BatchKeepsCalls(h: Hasher, w: World, batch: seq<Entry>)
    requires forall p | p in w.calls :: CallOk(w.rows, w.calls[p])
    ensures forall p | p in w.calls :: CallOk(AfterBatch(h, w.rows, batch), w.calls[p])
  {
    var r := AppendAll(h, w.rows, batch);
    if r.Ok? {
      forall p | p in w.calls
        ensures CallOk(w.rows + r.value, w.calls[p])
      {
        CallStaysOk(w.rows, r.value, w.calls[p]);
      }
    }
  }

  lemma ReadKeepsCall(rows: seq<Row>, c: Call)
    requires CallOk(rows, c)
    ensures CallOk(rows, AfterRead(rows, c))
  {
    assert rows[..|rows|] == rows;
  }

  lemma StepKeepsSound(h: Hasher, w: World, a: Action)
    requires Sound(h, w.rows)
    ensures Sound(h, Step(h, w, a).rows) && w.rows <= Step(h, w, a).rows
  {
    match a
    case Commit(p) =>
      if p in w.calls && w.calls[p].phase.Holding? {
        BatchKeepsSound(h, w.rows, [w.calls[p].request.Note(w.calls[p].phase.number)]);
      }
    case Other(batch) =>
      BatchKeepsSound(h, w.rows, batch);
    case _ =>
  }

  lemma StepKeepsCalls(h: Hasher, w: World, a: Action)
    requires Sound(h, w.rows) && forall p | p in w.calls :: CallOk(w.rows, w.calls[p])
    ensures var w' := Step(h, w, a); forall p | p in w'.calls :: CallOk(w'.rows, w'.calls[p])
  {
    match a
    case Begin(_, request) =>
      assert CallOk(w.rows, Call(request, |w.rows|, 0, 0, Reading));
    case Read(p) =>
      if p in w.calls {
        ReadKeepsCall(w.rows, w.calls[p]);
      }
    case Commit(p) =>
      if p in w.calls && w.calls[p].phase.Holding? {
        var c := w.calls[p];
        var batch := [c.request.Note(c.phase.number)];
        BatchKeepsCalls(h, w, batch);
        if AppendAll(h, w.rows, batch).Ok? {
          CommitLands(h, w.rows, c);
        } else {
          CommitLoses(h, w.rows, c);
        }
      }
    case Other(batch) =>
      BatchKeepsCalls(h, w, batch);
  }

  /** An id some call holds cannot land again. */
  lemma HeldIdIsRefused(h: Hasher, w: World, q: nat, request: Request, n: nat)
    requires Inv(h, w) && Holds(w, q, TicketId(request.Day(), n))
    ensures !AppendAll(h, w.rows, [request.Note(n)]).Ok?
  {
    hide DayMax, TicketIds, TicketId, TicketKey, Explained, Verifies, AppendAll;
    var c := w.calls[q];
    assert CallOk(w.rows, c);
    assert w.rows == w.rows[..c.start] + w.rows[c.start..];
    KeyTakenSplit(w.rows[..c.start], w.rows[c.start..], request.Key(n));
    TicketBatch(h, w.rows, request, n);
  }

  lemma CommitKeepsOwners(h: Hasher, w: World, p: nat)
    requires Inv(h, w) && p in w.calls && w.calls[p].phase.Holding?
    ensures forall q, r, id | Holds(Step(h, w, Commit(p)), q, id) && Holds(Step(h, w, Commit(p)), r, id) :: q == r
  {
    var w', c := Step(h, w, Commit(p)), w.calls[p];
    forall q, id | q != p && Holds(w', q, id)
      ensures Holds(w, q, id) && !Holds(w', p, id)
    {
      assert w'.calls[q] == w.calls[q];
      if id == TicketId(c.request.Day(), c.phase.number) {
        HeldIdIsRefused(h, w, q, c.request, c.phase.number);
      }
    }
  }

  lemma StepKeepsOwners(h: Hasher, w: World, a: Action)
    requires Inv(h, w)
    ensures forall q, r, id | Holds(Step(h, w, a), q, id) && Holds(Step(h, w, a), r, id) :: q == r
  {
    if a.Commit? && a.pid in w.calls && w.calls[a.pid].phase.Holding? {
      CommitKeepsOwners(h, w, a.pid);
    } else {
      var w' := Step(h, w, a);
      forall q, id | Holds(w', q, id)
        ensures Holds(w, q, id)
      {
        assert q in w.calls && w'.calls[q] == w.calls[q];
      }
    }
  }

  lemma StepKeepsInv(h: Hasher, w: World, a: Action)
    requires Inv(h, w)
    ensures Inv(h, Step(h, w, a)) && w.rows <= Step(h, w, a).rows
  {
    StepKeepsSound(h, w, a);
    StepKeepsCalls(h, w, a);
    StepKeepsOwners(h, w, a);
  }

  /** In every run the store stays sound and only grows, and no two calls hand out one id. */
  lemma {:induction false} EveryRunKeepsInv(h: Hasher, w: World, actions: seq<Action>)
    requires Inv(h, w)
    ensures Inv(h, Run(h, w, actions)) && w.rows <= Run(h, w, actions).rows
    decreases |actions|
  {
    if actions != [] {
      StepKeepsInv(h, w, actions[0]);
      EveryRunKeepsInv(h, Step(h, w, actions[0]), actions[1..]);
    }
  }

  /**
   A call fails only if ten distinct tickets of its day were stored since it began, digest clashes
   counted in, or a key of the day is taken that no reader counts.
   */
  lemma FailureNeedsTenRivals(h: Hasher, rows: seq<Row>, actions: seq<Action>, p: nat)
    requires Sound(h, rows)
    ensures var w := Run(h, World(rows, map[]), actions);
            p in w.calls && w.calls[p].phase.Failed? ==>
              var c := w.calls[p]; var day := c.request.Day();
              && c.start <= |w.rows|
              && (|Numbers(day, TicketIds(w.rows[c.start..]))| + c.clashes >= 10 || Stuck(day, w.rows))
  {
    EveryRunKeepsInv(h, World(rows, map[]), actions);
    var w := Run(h, World(rows, map[]), actions);
    if p in w.calls && w.calls[p].phase.Failed? {
      assert CallOk(w.rows, w.calls[p]);
      assert w.rows[w.calls[p].start..|w.rows|] == w.rows[w.calls[p].start..];
    }
  }

  // ---------------------------------------------------------------- one caller's round

  lemma OneRound(h: Hasher, rows: seq<Row>, c: Call, rival: seq<Entry>)
    requires c.phase.Reading?
    ensures var read, middle := AfterRead(rows, c), AfterBatch(h, rows, rival);
            Run(h, World(rows, map[0 := c]), [Read(0), Other(rival), Commit(0)])
            == World(AfterBatch(h, middle, [c.request.Note(read.phase.number)]), map[0 := AfterCommit(h, middle, read)])
  {
    hide DayMax, TicketIds, AppendAll;
    assert [Read(0), Other(rival), Commit(0)][1..] == [Other(rival), Commit(0)];
    assert [Other(rival), Commit(0)][1..] == [Commit(0)];
    assert [Commit(0)][1..] == [];
    var w, read, middle := World(rows, map[0 := c]), AfterRead(rows, c), AfterBatch(h, rows, rival);
    var w1, w2 := World(rows, map[0 := read]), World(middle, map[0 := read]);
    assert map[0 := c][0 := read] == map[0 := read];
    assert Step(h, w, Read(0)) == w1 && Step(h, w1, Other(rival)) == w2;
    assert map[0 := read][0 := AfterCommit(h, middle, read)] == map[0 := AfterCommit(h, middle, read)];
    assert Run(h, w2, [Commit(0)]) == Step(h, w2, Commit(0));
    assert Run(h, w1, [Other(rival), Commit(0)]) == Run(h, w2, [Commit(0)]);
  }

  /** One call's first round: begin, read, let others commit a batch, append. */
  function Round(q: Request, rival: seq<Entry>): seq<Action> {
    [Begin(0, q), Read(0), Other(rival), Commit(0)]
  }

  lemma RoundRun(h: Hasher, rows: seq<Row>, q: Request, rival: seq<Entry>)
    ensures var n, middle := DayMax(q.Day(), TicketIds(rows)) + 1, AfterBatch(h, rows, rival);
            Run(h, World(rows, map[]), Round(q, rival))
            == World(AfterBatch(h, middle, [q.Note(n)]),
                     map[0 := AfterCommit(h, middle, Call(q, |rows|, 0, 0, Holding(n, |rows|)))])
  {
    hide DayMax, TicketIds, AppendAll, AfterCommit;
    assert Round(q, rival)[1..] == [Read(0), Other(rival), Commit(0)];
    var c := Call(q, |rows|, 0, 0, Reading);
    assert Step(h, World(rows, map[]), Begin(0, q)) == World(rows, map[0 := c]);
    OneRound(h, rows, c, rival);
  }
}
