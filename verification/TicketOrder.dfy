/**
 What a day's tickets come to: consecutive numbers while only callers take them, the end at 1000, and
 the notes under other keys that can make an id appear twice.
 */
module TicketOrder {
  import opened Wrappers
  import opened Store
  import opened Tickets
  import opened TicketRace

  // ---------------------------------------------------------------- the order of a day's numbers

  function OfDay(day: string, ids: seq<string>): seq<string> {
    if ids == [] then []
    else OfDay(day, ids[..|ids| - 1]) + (if Prefix(day) <= ids[|ids| - 1] then [ids[|ids| - 1]] else [])
  }

  function FirstIds(day: string, k: nat): seq<string> {
    seq(k, i requires 0 <= i < k => TicketId(day, i + 1))
  }

  predicate Ordered(day: string, ids: seq<string>) {
    |OfDay(day, ids)| <= LAST_READABLE + 1 && OfDay(day, ids) == FirstIds(day, |OfDay(day, ids)|)
  }

  lemma {:induction false} OfDaySplit(day: string, a: seq<string>, b: seq<string>)
    ensures OfDay(day, a + b) == OfDay(day, a) + OfDay(day, b)
    decreases |b|
  {
    if b == [] {
      assert a + b == a;
    } else {
      var n := |b| - 1;
      assert (a + b)[..|a + b| - 1] == a + b[..n];
      OfDaySplit(day, a, b[..n]);
    }
  }

  lemma {:induction false} OfDayIsStored(day: string, ids: seq<string>, id: string)
    requires id in OfDay(day, ids)
    ensures id in ids
  {
    if ids != [] && id in OfDay(day, ids[..|ids| - 1]) {
      OfDayIsStored(day, ids[..|ids| - 1], id);
    }
  }

  lemma OrderedPrefix(day: string, a: seq<string>, b: seq<string>)
    requires Ordered(day, a + b)
    ensures Ordered(day, a) && |OfDay(day, a)| <= |OfDay(day, a + b)|
  {
    OfDaySplit(day, a, b);
    assert OfDay(day, a) == OfDay(day, a + b)[..|OfDay(day, a)|];
  }

  /** With the first k numbers stored, the read maximum is k, or 999 once k passes it. */
  lemma {:induction false} MaxOfOrdered(day: string, ids: seq<string>)
    requires DayReadable(day) && Ordered(day, ids)
    ensures DayMax(day, ids) == if |OfDay(day, ids)| > LAST_READABLE then LAST_READABLE else |OfDay(day, ids)|
  {
    if ids != [] {
      var before, id := ids[..|ids| - 1], ids[|ids| - 1];
      assert ids == before + [id];
      OrderedPrefix(day, before, [id]);
      MaxOfOrdered(day, before);
      var k := |OfDay(day, ids)|;
      DayMaxSnoc(day, before, id);
      if Prefix(day) <= id {
        assert id == OfDay(day, ids)[k - 1] == TicketId(day, k);
        ReadsBackExactly(day, id, k);
        if k > LAST_READABLE && NumberOf(day, id).Some? {
          ReadsBackExactly(day, id, NumberOf(day, id).value);
        }
      }
    }
  }

  lemma OrderedHas(day: string, ids: seq<string>, n: nat)
    requires Ordered(day, ids) && 1 <= n <= |OfDay(day, ids)|
    ensures TicketId(day, n) in ids
  {
    assert OfDay(day, ids)[n - 1] == TicketId(day, n);
    OfDayIsStored(day, ids, TicketId(day, n));
  }

  lemma OfDaySnoc(day: string, ids: seq<string>, id: string)
    ensures OfDay(day, ids + [id]) == OfDay(day, ids) + (if Prefix(day) <= id then [id] else [])
  {
    assert (ids + [id])[..|ids|] == ids;
  }

  lemma FirstIdsSnoc(day: string, k: nat)
    ensures FirstIds(day, k + 1) == FirstIds(day, k) + [TicketId(day, k + 1)]
  {
  }

  lemma OrderedSnoc(day: string, ids: seq<string>, id: string)
    requires Ordered(day, ids)
    requires Prefix(day) <= id ==> id == TicketId(day, |OfDay(day, ids)| + 1) && |OfDay(day, ids)| <= LAST_READABLE
    ensures Ordered(day, ids + [id])
  {
    OfDaySnoc(day, ids, id);
    FirstIdsSnoc(day, |OfDay(day, ids)|);
  }

  /** Every ticket note of the day stands under its ticket key. */
  predicate Keyed(day: string, rows: seq<Row>) {
    forall i | 0 <= i < |rows| && TicketOf(rows[i].body.payload).Some? ::
      Prefix(day) <= TicketOf(rows[i].body.payload).value ==>
        rows[i].body.key == TicketKey(TicketOf(rows[i].body.payload).value)
  }

  /** The day's stored ids are its first numbers in commit order, and callers or `ticket create` wrote them all. */
  predicate InOrder(day: string, rows: seq<Row>) {
    Ordered(day, TicketIds(rows)) && Keyed(day, rows)
  }

  lemma KeyedIsTaken(day: string, rows: seq<Row>, id: string)
    requires Keyed(day, rows) && Prefix(day) <= id && id in TicketIds(rows)
    ensures KeyTaken(rows, TicketKey(id))
  {
    StoredIsARow(rows, id);
  }

  /** A number read as the next one whose key is still free is the next in line. */
  lemma NextInLine(day: string, rows: seq<Row>, seen: nat, n: nat)
    requires DayReadable(day) && InOrder(day, rows) && seen <= |rows|
    requires n == DayMax(day, TicketIds(rows[..seen])) + 1 && !KeyTaken(rows, TicketKey(TicketId(day, n)))
    ensures n == |OfDay(day, TicketIds(rows))| + 1 <= LAST_READABLE + 1
  {
    hide DayMax, TicketIds, TicketKey, NumberOf, Keyed, Ordered, Pad3;
    assert rows == rows[..seen] + rows[seen..];
    TicketIdsSplit(rows[..seen], rows[seen..]);
    OrderedPrefix(day, TicketIds(rows[..seen]), TicketIds(rows[seen..]));
    MaxOfOrdered(day, TicketIds(rows[..seen]));
    if n <= |OfDay(day, TicketIds(rows))| {
      OrderedHas(day, TicketIds(rows), n);
      KeyedIsTaken(day, rows, TicketId(day, n));
    }
  }

  /** No entry of the action is a ticket of the day, other than through a call. */
  predicate LeavesDay(day: string, a: Action) {
    a.Other? ==>
      forall i | 0 <= i < |a.batch| && a.batch[i].payload.Some? && TicketOf(a.batch[i].payload.value).Some? ::
        !(Prefix(day) <= TicketOf(a.batch[i].payload.value).value)
  }

  lemma {:induction false} NoneOfDay(day: string, added: seq<Row>)
    requires forall i | 0 <= i < |added| && TicketOf(added[i].body.payload).Some? ::
               !(Prefix(day) <= TicketOf(added[i].body.payload).value)
    ensures OfDay(day, TicketIds(added)) == []
  {
    if added != [] {
      var n := |added| - 1;
      NoneOfDay(day, added[..n]);
      assert added == added[..n] + [added[n]];
      TicketIdsSnoc(added[..n], added[n]);
      if TicketOf(added[n].body.payload).Some? {
        OfDaySplit(day, TicketIds(added[..n]), [TicketOf(added[n].body.payload).value]);
      }
    }
  }

  lemma OtherKeepsOrder(h: Hasher, rows: seq<Row>, day: string, a: Action)
    requires a.Other? && LeavesDay(day, a) && InOrder(day, rows)
    ensures InOrder(day, AfterBatch(h, rows, a.batch))
  {
    var r := AppendAll(h, rows, a.batch);
    if r.Ok? {
      AppendedRows(h, rows, a.batch);
      NoneOfDay(day, r.value);
      TicketIdsSplit(rows, r.value);
      OfDaySplit(day, TicketIds(rows), TicketIds(r.value));
    }
  }

  lemma CommitKeepsOrder(h: Hasher, rows: seq<Row>, c: Call, day: string)
    requires Sound(h, rows) && CallOk(rows, c) && c.phase.Holding?
    requires DayReadable(day) && InOrder(day, rows)
    ensures InOrder(day, AfterBatch(h, rows, [c.request.Note(c.phase.number)]))
  {
    hide DayMax, TicketIds, TicketKey, Pad3, Ordered, Verifies, Explained;
    var n := c.phase.number;
    TicketBatch(h, rows, c.request, n);
    if AppendAll(h, rows, [c.request.Note(n)]).Ok? {
      var id := TicketId(c.request.Day(), n);
      if Prefix(day) <= id {
        IdNamesDay(day, c.request.Day(), n);
        NextInLine(day, rows, c.phase.seen, n);
      }
      OrderedSnoc(day, TicketIds(rows), id);
    }
  }

  /**
   When only callers take tickets of a day, its stored ids are in commit order exactly the numbers
   1, 2, ..., k, with k at most 1000, whatever the interleaving.
   */
  lemma {:induction false} NumbersAreConsecutive(h: Hasher, w: World, actions: seq<Action>, day: string)
    requires Inv(h, w) && DayReadable(day) && InOrder(day, w.rows)
    requires forall i | 0 <= i < |actions| :: LeavesDay(day, actions[i])
    ensures InOrder(day, Run(h, w, actions).rows)
    decreases |actions|
  {
    hide DayMax, TicketIds, TicketId, InOrder, CallOk, Sound, AppendAll;
    if actions != [] {
      var a := actions[0];
      StepKeepsInv(h, w, a);
      match a {
        case Other(_) =>
          OtherKeepsOrder(h, w.rows, day, a);
        case Commit(p) =>
          if p in w.calls && w.calls[p].phase.Holding? {
            CommitKeepsOrder(h, w.rows, w.calls[p], day);
          }
        case _ =>
      }
      NumbersAreConsecutive(h, Step(h, w, a), actions[1..], day);
    }
  }

  // ---------------------------------------------------------------- the end of a day

  /** The number a reader would try next is the unreadable one, and its key is taken. */
  predicate Wedged(day: string, rows: seq<Row>) {
    && KeyTaken(rows, TicketKey(TicketId(day, UnreadableNumber(day))))
    && (DayReadable(day) ==> DayMax(day, TicketIds(rows)) == LAST_READABLE)
  }

  /** Nothing but an id's own note stands under a ticket key of the day. */
  predicate Unsquatted(day: string, rows: seq<Row>) {
    forall i | 0 <= i < |rows| :: !Squats(day, rows[i])
  }

  lemma WedgedIsStuckOnNext(day: string, rows: seq<Row>)
    ensures var next := DayMax(day, TicketIds(rows)) + 1;
            && (DayReadable(day) ==> DayMax(day, TicketIds(rows)) == LAST_READABLE) == (next == UnreadableNumber(day))
            && (Wedged(day, rows) <==> next == UnreadableNumber(day) && KeyTaken(rows, TicketKey(TicketId(day, next))))
  {
    hide DayMax, TicketIds, TicketId, TicketKey, DayReadable;
    NextNumber(day, TicketIds(rows));
    UnreadableDay(day, TicketIds(rows));
  }

  /** The next number's key is taken only when the day is wedged. */
  lemma NextKeyIsFree(day: string, rows: seq<Row>)
    requires Unsquatted(day, rows)
    ensures KeyTaken(rows, TicketKey(TicketId(day, DayMax(day, TicketIds(rows)) + 1))) <==> Wedged(day, rows)
  {
    hide DayMax, TicketIds, TicketId, TicketKey, DayReadable, Numbers, Squats;
    var n := DayMax(day, TicketIds(rows)) + 1;
    WedgedIsStuckOnNext(day, rows);
    NextNumber(day, TicketIds(rows));
    KeyedIsStored(day, rows, n);
    DayMaxIsTheMaximum(day, TicketIds(rows));
    if n != UnreadableNumber(day) && TicketId(day, n) in TicketIds(rows) {
      ReadableIsCounted(day, TicketIds(rows), n);
    }
  }

  /**
   Undisturbed between its read and its append, a caller with a good envelope gets a ticket exactly when
   its day is not wedged, digest clashes apart.
   */
  lemma NextTicketExactly(h: Hasher, rows: seq<Row>, q: Request)
    requires Sound(h, rows) && Unsquatted(q.Day(), rows)
    ensures var e := q.Note(DayMax(q.Day(), TicketIds(rows)) + 1);
            AppendAll(h, rows, [e]).Ok?
            <==> EnvelopeOk(e) && !Wedged(q.Day(), rows) && !Clashes(h, rows, NextBody(rows, e))
  {
    hide DayMax, TicketIds, TicketId, TicketKey, Wedged, Clashes;
    TicketBatch(h, rows, q, DayMax(q.Day(), TicketIds(rows)) + 1);
    NextKeyIsFree(q.Day(), rows);
  }

  /** Once wedged, always wedged, and every later reader tries the taken number. */
  lemma WedgedStays(day: string, rows: seq<Row>, m: nat, seen: nat)
    requires m <= seen <= |rows| && Wedged(day, rows[..m])
    ensures KeyTaken(rows, TicketKey(TicketId(day, DayMax(day, TicketIds(rows[..seen])) + 1)))
  {
    hide DayMax, TicketIds, TicketId, TicketKey, NumberOf, Numbers, DayReadable;
    var early, later := TicketIds(rows[..m]), TicketIds(rows[..seen]);
    assert rows[..seen] == rows[..m] + rows[m..seen] && rows == rows[..m] + rows[m..];
    TicketIdsSplit(rows[..m], rows[m..seen]);
    NumbersSplit(day, early, TicketIds(rows[m..seen]));
    DayMaxIsTheMaximum(day, early);
    DayMaxIsTheMaximum(day, later);
    NextNumber(day, later);
    UnreadableDay(day, later);
    KeyTakenSplit(rows[..m], rows[m..], TicketKey(TicketId(day, UnreadableNumber(day))));
  }

  /** No call of the day begun after the first m rows has a ticket. */
  predicate NoneSince(w: World, day: string, m: nat) {
    forall p | p in w.calls && w.calls[p].request.Day() == day && m <= w.calls[p].start :: !w.calls[p].phase.Got?
  }

  lemma WedgedCommit(h: Hasher, w: World, day: string, m: nat, p: nat)
    requires Inv(h, w) && m <= |w.rows| && Wedged(day, w.rows[..m])
    requires p in w.calls && w.calls[p].phase.Holding? && w.calls[p].request.Day() == day && m <= w.calls[p].start
    ensures !AppendAll(h, w.rows, [w.calls[p].request.Note(w.calls[p].phase.number)]).Ok?
  {
    hide DayMax, TicketIds, TicketId, TicketKey, AppendAll, Sound, Verifies, Explained, Wedged;
    var c := w.calls[p];
    assert CallOk(w.rows, c);
    WedgedStays(day, w.rows, m, c.phase.seen);
    TicketBatch(h, w.rows, c.request, c.phase.number);
  }

  lemma WedgedStep(h: Hasher, w: World, a: Action, day: string, m: nat)
    requires Inv(h, w) && m <= |w.rows| && Wedged(day, w.rows[..m]) && NoneSince(w, day, m)
    ensures NoneSince(Step(h, w, a), day, m)
  {
    hide DayMax, TicketIds, TicketId, TicketKey, AppendAll, Sound, CallOk, Wedged;
    if a.Commit? && a.pid in w.calls && w.calls[a.pid].phase.Holding?
       && w.calls[a.pid].request.Day() == day && m <= w.calls[a.pid].start {
      WedgedCommit(h, w, day, m, a.pid);
    }
  }

  lemma {:induction false} WedgedRun(h: Hasher, w: World, actions: seq<Action>, day: string, m: nat)
    requires Inv(h, w) && m <= |w.rows| && Wedged(day, w.rows[..m]) && NoneSince(w, day, m)
    ensures NoneSince(Run(h, w, actions), day, m)
    decreases |actions|
  {
    hide Wedged, NoneSince, Inv;
    if actions != [] {
      var next := Step(h, w, actions[0]);
      StepKeepsInv(h, w, actions[0]);
      WedgedStep(h, w, actions[0], day, m);
      assert next.rows[..m] == w.rows[..m];
      WedgedRun(h, next, actions[1..], day, m);
    }
  }

  lemma {:induction false} StartsAreLate(h: Hasher, w: World, actions: seq<Action>, m: nat)
    requires m <= |w.rows| && forall p | p in w.calls :: m <= w.calls[p].start
    ensures forall p | p in Run(h, w, actions).calls :: m <= Run(h, w, actions).calls[p].start
    decreases |actions|
  {
    if actions != [] {
      StartsAreLate(h, Step(h, w, actions[0]), actions[1..], m);
    }
  }

  /** Some call of the day has a ticket. */
  predicate Served(w: World, day: string) {
    exists p | p in w.calls :: w.calls[p].request.Day() == day && w.calls[p].phase.Got?
  }

  /** On a wedged day no later call ever gets a ticket, with or without rivals. */
  lemma WedgedServesNobody(h: Hasher, rows: seq<Row>, actions: seq<Action>, day: string)
    requires Sound(h, rows) && Wedged(day, rows)
    ensures !Served(Run(h, World(rows, map[]), actions), day)
  {
    var w := World(rows, map[]);
    assert rows[..|rows|] == rows;
    WedgedRun(h, w, actions, day, |rows|);
    StartsAreLate(h, w, actions, |rows|);
  }

  /** No run from here, with any rivals, ever serves a caller of the day. */
  ghost predicate ServesNobody(h: Hasher, rows: seq<Row>, day: string) {
    forall actions :: !Served(Run(h, World(rows, map[]), actions), day)
  }

  /**
   The day is over exactly when it is wedged: for a request with a good envelope whose note meets no
   digest clash, some run serves its day if and only if 999 is not yet the maximum or the key of 1000 is
   free.
   */
  lemma DayIsOverExactly(h: Hasher, rows: seq<Row>, q: Request)
    requires Sound(h, rows) && Unsquatted(q.Day(), rows)
    requires var e := q.Note(DayMax(q.Day(), TicketIds(rows)) + 1);
             EnvelopeOk(e) && !Clashes(h, rows, NextBody(rows, e))
    ensures ServesNobody(h, rows, q.Day()) <==> Wedged(q.Day(), rows)
  {
    hide DayMax, TicketIds, TicketId, TicketKey, Wedged, Clashes, Sound;
    if Wedged(q.Day(), rows) {
      forall actions
        ensures !Served(Run(h, World(rows, map[]), actions), q.Day())
      {
        WedgedServesNobody(h, rows, actions, q.Day());
      }
    } else {
      NextTicketExactly(h, rows, q);
      RoundRun(h, rows, q, []);
      assert rows + [] == rows;
      var end := Run(h, World(rows, map[]), Round(q, []));
      assert end.calls[0].phase.Got? && end.calls[0].request == q;
      assert Served(end, q.Day());
    }
  }

  /** A full day: once the consecutive numbers reach 1000 the day is wedged. */
  lemma FullDayIsWedged(day: string, rows: seq<Row>)
    requires DayReadable(day) && InOrder(day, rows) && |OfDay(day, TicketIds(rows))| == LAST_READABLE + 1
    ensures Wedged(day, rows)
  {
    hide DayMax, TicketIds, TicketKey, Keyed, Ordered, Pad3;
    MaxOfOrdered(day, TicketIds(rows));
    OrderedHas(day, TicketIds(rows), |OfDay(day, TicketIds(rows))|);
    KeyedIsTaken(day, rows, TicketId(day, |OfDay(day, TicketIds(rows))|));
  }

  /** A stored id of the day is one of its first numbers while they are in order. */
  lemma {:induction false} StoredIsOfDay(day: string, ids: seq<string>, id: string)
    requires id in ids && Prefix(day) <= id
    ensures id in OfDay(day, ids)
    decreases |ids|
  {
    hide Prefix;
    var n := |ids| - 1;
    assert ids == ids[..n] + [ids[n]];
    if id != ids[n] {
      StoredIsOfDay(day, ids[..n], id);
    }
  }

  lemma NextIsNotStored(day: string, ids: seq<string>)
    requires DayReadable(day) && Ordered(day, ids)
    ensures TicketId(day, |OfDay(day, ids)| + 1) !in ids
  {
    hide Pad3, OfDay;
    var k := |OfDay(day, ids)|;
    var id := TicketId(day, k + 1);
    if id in ids {
      StoredIsOfDay(day, ids, id);
      var i :| 0 <= i < k && OfDay(day, ids)[i] == id;
      assert TicketId(day, i + 1) == id;
      IdNamesDayAndNumber(day, i + 1, day, k + 1);
    }
  }

  /** While fewer than 1000 numbers are stored, in order, the next undisturbed caller takes the next one. */
  lemma RoomForTheNext(h: Hasher, rows: seq<Row>, q: Request)
    requires Sound(h, rows) && DayReadable(q.Day()) && InOrder(q.Day(), rows) && Unsquatted(q.Day(), rows)
    requires |OfDay(q.Day(), TicketIds(rows))| <= LAST_READABLE
    requires var e := q.Note(DayMax(q.Day(), TicketIds(rows)) + 1);
             EnvelopeOk(e) && !Clashes(h, rows, NextBody(rows, e))
    ensures var after := AfterBatch(h, rows, [q.Note(DayMax(q.Day(), TicketIds(rows)) + 1)]);
            && InOrder(q.Day(), after) && Unsquatted(q.Day(), after)
            && |OfDay(q.Day(), TicketIds(after))| == |OfDay(q.Day(), TicketIds(rows))| + 1
  {
    hide DayMax, TicketIds, TicketId, Ordered, OfDay, Clashes, Verifies;
    var day, n := q.Day(), DayMax(q.Day(), TicketIds(rows)) + 1;
    MaxOfOrdered(day, TicketIds(rows));
    NextIsNotStored(day, TicketIds(rows));
    KeyedIsStored(day, rows, n);
    TicketBatch(h, rows, q, n);
    IdStartsWithDay(day, n);
    OfDaySnoc(day, TicketIds(rows), TicketId(day, n));
    OrderedSnoc(day, TicketIds(rows), TicketId(day, n));
  }

  lemma IdStartsWithDay(day: string, n: nat)
    ensures Prefix(day) <= TicketId(day, n)
    ensures TicketKey(TicketId(day, n))[7..] == TicketId(day, n)
  {
    hide Pad3;
  }

  /** From a maximum of 999 on a day not over, the next ticket to land ends the day. */
  lemma LandingAfter999EndsTheDay(h: Hasher, rows: seq<Row>, q: Request)
    requires Sound(h, rows) && DayReadable(q.Day()) && DayMax(q.Day(), TicketIds(rows)) == LAST_READABLE
    requires AppendAll(h, rows, [q.Note(DayMax(q.Day(), TicketIds(rows)) + 1)]).Ok?
    ensures Wedged(q.Day(), AfterBatch(h, rows, [q.Note(DayMax(q.Day(), TicketIds(rows)) + 1)]))
  {
    hide DayMax, TicketIds, TicketId, TicketKey, Verifies, AppendAll;
    var day, n := q.Day(), DayMax(q.Day(), TicketIds(rows)) + 1;
    TicketBatch(h, rows, q, n);
    DayMaxSnoc(day, TicketIds(rows), TicketId(day, n));
    ReadsBackExactly(day, TicketId(day, n), Higher(0, NumberOf(day, TicketId(day, n))));
    UnreadableHasNoNumber(day);
  }

  lemma UnreadableHasNoNumber(day: string)
    ensures NumberOf(day, TicketId(day, UnreadableNumber(day))).None?
  {
    hide Pad3;
    var id := TicketId(day, UnreadableNumber(day));
    if NumberOf(day, id).Some? {
      ReadsBackExactly(day, id, NumberOf(day, id).value);
      SameDayOtherNumber(day, UnreadableNumber(day), NumberOf(day, id).value);
    }
  }

  lemma SameDayOtherNumber(day: string, m: nat, n: nat)
    requires DayReadable(day) && TicketId(day, m) == TicketId(day, n)
    ensures m == n
  {
    hide Pad3;
    IdNamesDayAndNumber(day, m, day, n);
  }

  /** An explicit ticket 999 on a day without tickets makes 999 its maximum. */
  lemma ExplicitLastReadable(h: Hasher, q: Request)
    requires DayReadable(q.Day()) && EnvelopeOk(q.Note(LAST_READABLE))
    ensures var one := AfterBatch(h, [], [q.Note(LAST_READABLE)]);
            |one| == 1 && Sound(h, one) && DayMax(q.Day(), TicketIds(one)) == LAST_READABLE
  {
    hide TicketId, TicketKey;
    var day, last := q.Day(), LAST_READABLE;
    assert Sound(h, []);
    TicketBatch(h, [], q, last);
    BatchKeepsSound(h, [], [q.Note(last)]);
    ReadsBackExactly(day, TicketId(day, last), last);
    DayMaxSnoc(day, [], TicketId(day, last));
  }

  /**
   The day that is over after two rows: an explicit ticket 999 and one allocation. Whatever follows, no
   later call of that day is served.
   */
  lemma TwoRowsEndTheDay(h: Hasher, q: Request, actions: seq<Action>)
    requires DayReadable(q.Day()) && EnvelopeOk(q.Note(LAST_READABLE))
    requires var one := AfterBatch(h, [], [q.Note(LAST_READABLE)]);
             AppendAll(h, one, [q.Note(DayMax(q.Day(), TicketIds(one)) + 1)]).Ok?
    ensures var one := AfterBatch(h, [], [q.Note(LAST_READABLE)]);
            var two := AfterBatch(h, one, [q.Note(DayMax(q.Day(), TicketIds(one)) + 1)]);
            |two| == 2 && Wedged(q.Day(), two) && !Served(Run(h, World(two, map[]), actions), q.Day())
  {
    hide TicketId, TicketKey, Verifies, AppendAll, DayMax, TicketIds, Wedged, Run;
    ExplicitLastReadable(h, q);
    var one := AfterBatch(h, [], [q.Note(LAST_READABLE)]);
    var n := DayMax(q.Day(), TicketIds(one)) + 1;
    LandingAfter999EndsTheDay(h, one, q);
    TicketBatch(h, one, q, n);
    BatchKeepsSound(h, one, [q.Note(n)]);
    WedgedServesNobody(h, AfterBatch(h, one, [q.Note(n)]), actions, q.Day());
  }

  // ---------------------------------------------------------------- one id stored twice

  predicate SharesTicket(rows: seq<Row>, i: nat, j: nat)
    requires i < |rows| && j < |rows|
  {
    i != j && TicketOf(rows[i].body.payload).Some? && TicketOf(rows[i].body.payload) == TicketOf(rows[j].body.payload)
  }

  /** No ticket id is stored twice. */
  predicate TicketsUnique(rows: seq<Row>) {
    forall i: nat, j: nat | i < |rows| && j < |rows| :: !SharesTicket(rows, i, j)
  }

  /** A ticket note that stands under a key other than its ticket key. */
  predicate Loose(rows: seq<Row>, i: nat)
    requires i < |rows|
  {
    TicketOf(rows[i].body.payload).Some? && rows[i].body.key != TicketKey(TicketOf(rows[i].body.payload).value)
  }

  /** Stored ids are unique exactly when no note under another key names an id that some other note names. */
  lemma UniqueExactly(h: Hasher, rows: seq<Row>)
    requires Sound(h, rows)
    ensures TicketsUnique(rows)
            <==> forall i: nat, j: nat | i < |rows| && j < |rows| && Loose(rows, i) :: !SharesTicket(rows, i, j)
  {
    hide TicketKey, Verifies, Loose, SharesTicket;
    forall i: nat, j: nat | i < |rows| && j < |rows|
      ensures SharesTicket(rows, i, j) ==> (Loose(rows, i) || Loose(rows, j)) && SharesTicket(rows, j, i)
    {
      OneOfTwoIsLoose(h, rows, i, j);
    }
  }

  lemma OneOfTwoIsLoose(h: Hasher, rows: seq<Row>, i: nat, j: nat)
    requires Sound(h, rows) && i < |rows| && j < |rows|
    ensures SharesTicket(rows, i, j) ==> (Loose(rows, i) || Loose(rows, j)) && SharesTicket(rows, j, i)
  {
    hide TicketKey, Verifies;
    assert i < j ==> rows[i].body.key != rows[j].body.key;
    assert j < i ==> rows[j].body.key != rows[i].body.key;
  }

  /**
   A landing ticket repeats a stored id exactly when a note under another key has named that id since the
   caller's read or, for the unreadable number, at any time.
   */
  lemma LandingRepeatsExactly(h: Hasher, rows: seq<Row>, c: Call)
    requires Sound(h, rows) && CallOk(rows, c) && c.phase.Holding?
    requires AppendAll(h, rows, [c.request.Note(c.phase.number)]).Ok?
    ensures var day, n, seen := c.request.Day(), c.phase.number, c.phase.seen;
            var from := if n == UnreadableNumber(day) then 0 else seen;
            TicketId(day, n) in TicketIds(rows)
            <==> exists i: nat | from <= i < |rows| ::
                   Loose(rows, i) && TicketOf(rows[i].body.payload) == Some(TicketId(day, n))
  {
    hide DayMax, TicketIds, TicketId, TicketKey, DayReadable, Explained, Verifies, AppendAll;
    var day, n, seen := c.request.Day(), c.phase.number, c.phase.seen;
    var id := TicketId(day, n);
    TicketBatch(h, rows, c.request, n);
    StoredIsARow(rows, id);
    NotAmongRead(day, rows, seen, n);
    forall i: nat | i < |rows| && TicketOf(rows[i].body.payload) == Some(id)
      ensures Loose(rows, i)
    {
    }
  }

  /** A readable number above the read maximum is not among the rows read. */
  lemma NotAmongRead(day: string, rows: seq<Row>, seen: nat, n: nat)
    requires seen <= |rows| && n == DayMax(day, TicketIds(rows[..seen])) + 1
    ensures n != UnreadableNumber(day) ==>
              forall i | 0 <= i < seen :: TicketOf(rows[i].body.payload) != Some(TicketId(day, n))
  {
    hide DayMax, TicketIds, TicketId, DayReadable, Numbers;
    var read := TicketIds(rows[..seen]);
    NextNumber(day, read);
    DayMaxIsTheMaximum(day, read);
    StoredIsARow(rows[..seen], TicketId(day, n));
    assert forall i | 0 <= i < seen :: rows[..seen][i] == rows[i];
    if n != UnreadableNumber(day) && TicketId(day, n) in read {
      ReadableIsCounted(day, read, n);
    }
  }

  /** A free, clash-free note under a key that is no ticket key, naming this id. */
  predicate LooseNote(h: Hasher, rows: seq<Row>, note: Entry, id: string) {
    && EnvelopeOk(note) && TicketOf(note.payload.value) == Some(id)
    && !("ticket:" <= note.key) && !KeyTaken(rows, note.key)
    && !Clashes(h, rows, NextBody(rows, note))
  }

  lemma LooseNoteLands(h: Hasher, rows: seq<Row>, note: Entry, id: string)
    requires Sound(h, rows) && LooseNote(h, rows, note, id)
    ensures var middle := AfterBatch(h, rows, [note]);
            && Sound(h, middle) && TicketIds(middle) == TicketIds(rows) + [id]
            && forall key | "ticket:" <= key :: KeyTaken(middle, key) <==> KeyTaken(rows, key)
  {
    hide TicketIds, Verifies;
    SingleBatch(h, rows, note);
    AppendAcceptedExactly(h, rows, note);
    BatchKeepsSound(h, rows, [note]);
    var row := AppendSpec(h, rows, note).value;
    TicketIdsSnoc(rows, row);
    forall key | "ticket:" <= key
      ensures KeyTaken(rows + [row], key) <==> KeyTaken(rows, key)
    {
      KeyTakenSnoc(rows, row, key);
    }
  }

  /**
   The failing case, on every table and any day whose next key is free: a note under another key that names the
   caller's number lands between its read and its append, the caller is served that number, and the id
   is stored twice.
   */
  lemma LooseNoteRepeatsTheTicket(h: Hasher, rows: seq<Row>, q: Request, note: Entry)
    requires Sound(h, rows) && !KeyTaken(rows, q.Key(DayMax(q.Day(), TicketIds(rows)) + 1))
    requires LooseNote(h, rows, note, TicketId(q.Day(), DayMax(q.Day(), TicketIds(rows)) + 1))
    requires var e, middle := q.Note(DayMax(q.Day(), TicketIds(rows)) + 1), AfterBatch(h, rows, [note]);
             EnvelopeOk(e) && !Clashes(h, middle, NextBody(middle, e))
    ensures var n := DayMax(q.Day(), TicketIds(rows)) + 1; var id := TicketId(q.Day(), n);
            var end := Run(h, World(rows, map[]), Round(q, [note]));
            && 0 in end.calls && end.calls[0].phase == Got(n)
            && TicketIds(end.rows) == TicketIds(rows) + [id, id]
  {
    hide DayMax, TicketIds, TicketId, Verifies, Wedged, Clashes, AppendAll, Run;
    var n := DayMax(q.Day(), TicketIds(rows)) + 1;
    var middle := AfterBatch(h, rows, [note]);
    LooseNoteLands(h, rows, note, TicketId(q.Day(), n));
    RoundRun(h, rows, q, [note]);
    TicketBatch(h, middle, q, n);
  }
}
