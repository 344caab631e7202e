/**
 The JSONL export: one journal file a day and one trades file under a single cursor.

 A file is its complete lines plus whether an unfinished fragment follows the last newline. A crash
 may leave any written prefix in any target and always happens before the cursor moves.
 */
module Export {
  import opened Wrappers
  import opened Events
  import opened Store

  datatype Target = Journal(day: string) | Trades
  datatype TradeKind = Buy | Skip | Close

  /** An export record, or the shorter line that `journal.append` writes for the same seq. */
  datatype Line =
    | JournalLine(event: Event)
    | TradeLine(kind: TradeKind, event: Event)
    | NoteLine(noteSeq: int, text: string)
  {
    predicate IsRecord() {
      !NoteLine?
    }

    function SeqNo(): int {
      if NoteLine? then noteSeq else event.seqNo
    }
  }

  datatype File = File(lines: seq<Line>, torn: bool)

  type Files = map<Target, File>

  /** A missing file reads as an empty one. */
  function FileAt(files: Files, t: Target): File {
    if t in files then files[t] else File([], false)
  }

  /** The record an event owes a target, if any. */
  function LineFor(t: Target, e: Event): Option<Line> {
    match t
    case Journal(day) => if Day(e.tsUtc) == day then Some(JournalLine(e)) else None
    case Trades =>
      if e.payload.FillRecorded? && e.payload.side == "buy" then Some(TradeLine(Buy, e))
      else if e.payload.OrderRejected? then Some(TradeLine(Skip, e))
      else if e.payload.PositionClosed? then Some(TradeLine(Close, e))
      else None
  }

  function OneOrNone(line: Option<Line>): seq<Line> {
    if line.Some? then [line.value] else []
  }

  /** Every record the events owe a target, in ledger order. */
  function Required(t: Target, events: seq<Event>): seq<Line>
    decreases |events|
  {
    if events == [] then [] else OneOrNone(LineFor(t, events[0])) + Required(t, events[1..])
  }

  /** The export records among a file's lines. */
  function Records(lines: seq<Line>): seq<Line>
    decreases |lines|
  {
    if lines == [] then []
    else (if lines[0].IsRecord() then [lines[0]] else []) + Records(lines[1..])
  }

  /** The rows whose seq the file does not hold yet. */
  function Missing(present: set<int>, rows: seq<Line>): seq<Line>
    decreases |rows|
  {
    if rows == [] then []
    else (if rows[0].SeqNo() in present then [] else [rows[0]]) + Missing(present, rows[1..])
  }

  function RecordSeqs(lines: seq<Line>): set<int> {
    set line | line in Records(lines) :: line.SeqNo()
  }

  /** A fragment is cut only when there is something to write. */
  function Appended(f: File, rows: seq<Line>): File {
    var missing := Missing(RecordSeqs(f.lines), rows);
    if missing == [] then f else File(f.lines + missing, false)
  }

  // ---------------------------------------------------------------- sequences of lines

  lemma {:induction false} RequiredSplit(t: Target, a: seq<Event>, b: seq<Event>)
    ensures Required(t, a + b) == Required(t, a) + Required(t, b)
    decreases |a|
  {
    if a == [] {
      assert a + b == b;
    } else {
      assert (a + b)[1..] == a[1..] + b;
      RequiredSplit(t, a[1..], b);
    }
  }

  lemma {:induction false} RecordsSplit(a: seq<Line>, b: seq<Line>)
    ensures Records(a + b) == Records(a) + Records(b)
    decreases |a|
  {
    if a == [] {
      assert a + b == b;
    } else {
      assert (a + b)[1..] == a[1..] + b;
      RecordsSplit(a[1..], b);
      var head := if a[0].IsRecord() then [a[0]] else [];
      assert head + (Records(a[1..]) + Records(b)) == (head + Records(a[1..])) + Records(b);
    }
  }

  lemma {:induction false} MissingSplit(present: set<int>, a: seq<Line>, b: seq<Line>)
    ensures Missing(present, a + b) == Missing(present, a) + Missing(present, b)
    decreases |a|
  {
    if a == [] {
      assert a + b == b;
    } else {
      assert (a + b)[1..] == a[1..] + b;
      MissingSplit(present, a[1..], b);
    }
  }

  lemma {:induction false} NothingMissing(present: set<int>, rows: seq<Line>)
    requires forall i | 0 <= i < |rows| :: rows[i].SeqNo() in present
    ensures Missing(present, rows) == []
    decreases |rows|
  {
    if rows != [] {
      NothingMissing(present, rows[1..]);
    }
  }

  lemma {:induction false} AllMissing(present: set<int>, rows: seq<Line>)
    requires forall i | 0 <= i < |rows| :: rows[i].SeqNo() !in present
    ensures Missing(present, rows) == rows
    decreases |rows|
  {
    if rows != [] {
      AllMissing(present, rows[1..]);
      assert rows == [rows[0]] + rows[1..];
    }
  }

  lemma {:induction false} AllRecords(rows: seq<Line>)
    requires forall i | 0 <= i < |rows| :: rows[i].IsRecord()
    ensures Records(rows) == rows
    decreases |rows|
  {
    if rows != [] {
      AllRecords(rows[1..]);
      assert rows == [rows[0]] + rows[1..];
    }
  }

  ghost predicate Increasing(lines: seq<Line>) {
    forall i, j | 0 <= i < j < |lines| :: lines[i].SeqNo() < lines[j].SeqNo()
  }

  /** The log numbers its rows from one without gaps. */
  ghost predicate Numbered(log: seq<Event>) {
    forall i | 0 <= i < |log| :: log[i].seqNo == i + 1
  }

  /** The line is the record that its own event owes the target. */
  predicate Owed(t: Target, log: seq<Event>, line: Line) {
    line.IsRecord() && 1 <= line.SeqNo() <= |log| && LineFor(t, log[line.SeqNo() - 1]) == Some(line)
  }

  lemma RequiredSnoc(t: Target, events: seq<Event>, e: Event)
    ensures Required(t, events + [e]) == Required(t, events) + OneOrNone(LineFor(t, e))
  {
    RequiredSplit(t, events, [e]);
    assert [e][1..] == [];
    assert Required(t, [e]) == OneOrNone(LineFor(t, e));
  }

  /** A target's required records are genuine and in strictly increasing seq order. */
  lemma {:induction false} RequiredIncreasing(t: Target, log: seq<Event>)
    requires Numbered(log)
    ensures Increasing(Required(t, log))
    ensures forall i | 0 <= i < |Required(t, log)| :: Owed(t, log, Required(t, log)[i])
    decreases |log|
  {
    if log != [] {
      var n := |log| - 1;
      assert log == log[..n] + [log[n]];
      RequiredIncreasing(t, log[..n]);
      RequiredSnoc(t, log[..n], log[n]);
      forall i | 0 <= i < |Required(t, log[..n])|
        ensures Owed(t, log, Required(t, log[..n])[i])
      {
        assert Owed(t, log[..n], Required(t, log[..n])[i]);
      }
    }
  }

  // ---------------------------------------------------------------- the export state machine

  datatype World = World(log: seq<Event>, files: Files, cursor: nat)

  /** What one export run reads: every event after the cursor. */
  function Tail(w: World): seq<Event>
    requires w.cursor <= |w.log|
  {
    w.log[w.cursor..]
  }

  /** Every target holds all records up to the cursor and, beyond it, a prefix of what the log owes it. */
  ghost predicate Inv(w: World) {
    && Numbered(w.log)
    && w.cursor <= |w.log|
    && forall t ::
         && Required(t, w.log[..w.cursor]) <= Records(FileAt(w.files, t).lines)
         && Records(FileAt(w.files, t).lines) <= Required(t, w.log)
  }

  ghost predicate Init(w: World) {
    && w.log == [] && w.cursor == 0
    && forall t :: Records(FileAt(w.files, t).lines) == []
  }

  /** New events arrive. */
  ghost predicate Grow(w: World, w': World) {
    w'.files == w.files && w'.cursor == w.cursor && w.log <= w'.log && Numbered(w'.log)
  }

  /** `journal.append` cuts any fragment and writes its own line, possibly torn itself. */
  function WithNote(files: Files, t: Target, noteSeq: int, text: string, torn: bool): Files {
    var lines := FileAt(files, t).lines;
    files[t := File(if torn then lines else lines + [NoteLine(noteSeq, text)], torn)]
  }

  ghost predicate WriteNote(w: World, w': World) {
    && w'.log == w.log && w'.cursor == w.cursor
    && exists t, noteSeq, text, torn :: w'.files == WithNote(w.files, t, noteSeq, text, torn)
  }

  /** One target after an interrupted write: untouched, or some of the missing lines and maybe a fragment. */
  ghost predicate Interrupted(f: File, f': File, rows: seq<Line>) {
    var missing := Missing(RecordSeqs(f.lines), rows);
    f' == f || exists k | 0 <= k <= |missing| :: f'.lines == f.lines + missing[..k]
  }

  /** How a target stands after a run that may have been cut short, and after one that was not. */
  ghost predicate CutShort(before: Files, after: Files, events: seq<Event>, t: Target) {
    Interrupted(FileAt(before, t), FileAt(after, t), Required(t, events))
  }

  ghost predicate Done(before: Files, after: Files, events: seq<Event>, t: Target) {
    FileAt(after, t) == Appended(FileAt(before, t), Required(t, events))
  }

  /** A crash anywhere before the cursor update. */
  ghost predicate Crash(w: World, w': World)
    requires w.cursor <= |w.log|
  {
    && w'.log == w.log && w'.cursor == w.cursor
    && forall t :: CutShort(w.files, w'.files, Tail(w), t)
  }

  /** An export that runs to its end. */
  ghost predicate Exported(w: World, w': World)
    requires w.cursor <= |w.log|
  {
    && w'.log == w.log
    && (forall t :: Done(w.files, w'.files, Tail(w), t))
    && w'.cursor == if Tail(w) == [] then w.cursor else Tail(w)[|Tail(w)| - 1].seqNo
  }

  ghost predicate Step(w: World, w': World) {
    w.cursor <= |w.log| && (Grow(w, w') || WriteNote(w, w') || Crash(w, w') || Exported(w, w'))
  }

  ghost predicate Run(worlds: seq<World>) {
    && worlds != []
    && Init(worlds[0])
    && forall i | 0 <= i < |worlds| - 1 :: Step(worlds[i], worlds[i + 1])
  }

  /** In an increasing list whose head part is held, exactly the tail part is missing. */
  lemma MissingFrom(all: seq<Line>, lines: seq<Line>, done: nat)
    requires Increasing(all) && Records(lines) <= all && done <= |Records(lines)|
    ensures Missing(RecordSeqs(lines), all[done..]) == all[|Records(lines)|..]
  {
    var held := Records(lines);
    var present := RecordSeqs(lines);
    var k := |held| - done;
    assert all[done..] == all[done..|held|] + all[|held|..];
    MissingSplit(present, all[done..|held|], all[|held|..]);
    forall i | 0 <= i < k
      ensures all[done..|held|][i].SeqNo() in present
    {
      assert all[done..|held|][i] == held[done + i];
    }
    NothingMissing(present, all[done..|held|]);
    AllMissing(present, all[|held|..]);
  }

  /** The heart of it: what a file still misses is exactly the rest of what it owes. */
  lemma MissingIsTheRest(t: Target, log: seq<Event>, cursor: nat, lines: seq<Line>)
    requires Numbered(log) && cursor <= |log|
    requires Required(t, log[..cursor]) <= Records(lines) <= Required(t, log)
    ensures Missing(RecordSeqs(lines), Required(t, log[cursor..])) == Required(t, log)[|Records(lines)|..]
  {
    var done := Required(t, log[..cursor]);
    assert log == log[..cursor] + log[cursor..];
    RequiredSplit(t, log[..cursor], log[cursor..]);
    assert Required(t, log)[|done|..] == Required(t, log[cursor..]);
    RequiredIncreasing(t, log);
    MissingFrom(Required(t, log), lines, |done|);
  }

  /** Writing any prefix of the missing lines keeps a target between its two bounds. */
  lemma PrefixKeepsBounds(t: Target, log: seq<Event>, cursor: nat, lines: seq<Line>, k: nat)
    requires Numbered(log) && cursor <= |log|
    requires Required(t, log[..cursor]) <= Records(lines) <= Required(t, log)
    requires k <= |Missing(RecordSeqs(lines), Required(t, log[cursor..]))|
    ensures
      var grown := lines + Missing(RecordSeqs(lines), Required(t, log[cursor..]))[..k];
      && |Records(grown)| == |Records(lines)| + k
      && Records(lines) <= Records(grown) <= Required(t, log)
  {
    var missing := Missing(RecordSeqs(lines), Required(t, log[cursor..]));
    MissingIsTheRest(t, log, cursor, lines);
    RequiredIncreasing(t, log);
    RecordsSplit(lines, missing[..k]);
    AllRecords(missing[..k]);
  }

  lemma GrowKeepsInv(w: World, w': World)
    requires Inv(w) && Grow(w, w')
    ensures Inv(w')
  {
    assert w'.log[..w.cursor] == w.log[..w.cursor];
    forall t
      ensures Required(t, w.log) <= Required(t, w'.log)
    {
      assert w'.log == w.log + w'.log[|w.log|..];
      RequiredSplit(t, w.log, w'.log[|w.log|..]);
    }
  }

  lemma NoteKeepsRecords(files: Files, t: Target, noteSeq: int, text: string, torn: bool, u: Target)
    ensures Records(FileAt(WithNote(files, t, noteSeq, text, torn), u).lines) == Records(FileAt(files, u).lines)
  {
    var lines, note := FileAt(files, t).lines, NoteLine(noteSeq, text);
    RecordsSplit(lines, [note]);
    assert Records([note]) == Records([note][1..]) == [];
    assert Records(lines) + [] == Records(lines);
  }

  lemma WriteNoteKeepsInv(w: World, w': World)
    requires Inv(w) && WriteNote(w, w')
    ensures Inv(w')
  {
    var t, noteSeq, text, torn :| w'.files == WithNote(w.files, t, noteSeq, text, torn);
    forall u
      ensures Records(FileAt(w'.files, u).lines) == Records(FileAt(w.files, u).lines)
    {
      NoteKeepsRecords(w.files, t, noteSeq, text, torn, u);
    }
  }

  lemma CrashKeepsInv(w: World, w': World)
    requires Inv(w) && Crash(w, w')
    ensures Inv(w')
  {
    forall t
      ensures Required(t, w.log[..w.cursor]) <= Records(FileAt(w'.files, t).lines)
      ensures Records(FileAt(w'.files, t).lines) <= Required(t, w.log)
    {
      var f, f' := FileAt(w.files, t), FileAt(w'.files, t);
      assert CutShort(w.files, w'.files, Tail(w), t);
      if f' != f {
        var missing := Missing(RecordSeqs(f.lines), Required(t, Tail(w)));
        var k :| 0 <= k <= |missing| && f'.lines == f.lines + missing[..k];
        PrefixKeepsBounds(t, w.log, w.cursor, f.lines, k);
      }
    }
  }

  /** One uninterrupted run leaves every target with exactly its required records, cursor at the head. */
  lemma ExportCompletes(w: World, w': World)
    requires Inv(w) && Exported(w, w')
    ensures Inv(w')
    ensures w'.cursor == |w'.log|
    ensures forall t :: Records(FileAt(w'.files, t).lines) == Required(t, w'.log)
  {
    hide Records, Missing, Required;
    assert Tail(w) != [] ==> Tail(w)[|Tail(w)| - 1] == w.log[|w.log| - 1];
    assert w'.log[..w'.cursor] == w'.log;
    forall t
      ensures Records(FileAt(w'.files, t).lines) == Required(t, w.log)
    {
      assert Done(w.files, w'.files, Tail(w), t);
      var f := FileAt(w.files, t);
      var missing := Missing(RecordSeqs(f.lines), Required(t, Tail(w)));
      PrefixKeepsBounds(t, w.log, w.cursor, f.lines, |missing|);
      MissingIsTheRest(t, w.log, w.cursor, f.lines);
      assert missing[..|missing|] == missing;
    }
  }

  lemma {:induction false} RunKeepsInv(worlds: seq<World>, n: nat)
    requires Run(worlds) && n < |worlds|
    ensures Inv(worlds[n])
  {
    if n == 0 {
      assert worlds[0].log[..0] == [];
    } else {
      RunKeepsInv(worlds, n - 1);
      var w, w' := worlds[n - 1], worlds[n - 1 + 1];
      assert Step(w, w');
      if Grow(w, w') {
        GrowKeepsInv(w, w');
      } else if WriteNote(w, w') {
        WriteNoteKeepsInv(w, w');
      } else if Crash(w, w') {
        CrashKeepsInv(w, w');
      } else {
        ExportCompletes(w, w');
      }
    }
  }

  /**
   Exactly-once under crashes: at every moment of every run, each target's export records are in
   strictly increasing seq order, so at most one per seq, and each is the line its event owes the target.
   */
  lemma RecordsAreUniqueAndGenuine(worlds: seq<World>, n: nat, t: Target)
    requires Run(worlds) && n < |worlds|
    ensures
      var records := Records(FileAt(worlds[n].files, t).lines);
      && Increasing(records)
      && forall i | 0 <= i < |records| :: Owed(t, worlds[n].log, records[i])
  {
    RunKeepsInv(worlds, n);
    RequiredIncreasing(t, worlds[n].log);
  }

  /** After an uninterrupted run every required record is there, and a second run changes nothing. */
  lemma ExportIsComplete(worlds: seq<World>, n: nat, after: World, again: World)
    requires Run(worlds) && n < |worlds|
    requires worlds[n].cursor <= |worlds[n].log| && Exported(worlds[n], after)
    requires after.cursor <= |after.log| && Exported(after, again)
    ensures forall t :: Records(FileAt(after.files, t).lines) == Required(t, worlds[n].log)
    ensures after.cursor == |worlds[n].log|
    ensures forall t :: FileAt(again.files, t) == FileAt(after.files, t)
    ensures again.cursor == after.cursor
  {
    RunKeepsInv(worlds, n);
    ExportCompletes(worlds[n], after);
    assert Tail(after) == [];
    forall t
      ensures FileAt(again.files, t) == FileAt(after.files, t)
    {
      assert Done(after.files, again.files, Tail(after), t);
    }
  }

  // ---------------------------------------------------------------- the code

  /** Reads of the required records, day by day. */
  ghost predicate IsJournal(byDay: map<string, seq<Line>>, events: seq<Event>) {
    forall day :: (if day in byDay then byDay[day] else []) == Required(Journal(day), events)
  }

  method JournalBatches(events: seq<Event>) returns (byDay: map<string, seq<Line>>)
    ensures IsJournal(byDay, events)
  {
    byDay := map[];
    var i := 0;
    while i < |events|
      invariant 0 <= i <= |events|
      invariant IsJournal(byDay, events[..i])
    {
      var day := Day(events[i].tsUtc);
      assert events[..i + 1] == events[..i] + [events[i]];
      forall d
        ensures Required(Journal(d), events[..i + 1])
             == Required(Journal(d), events[..i]) + (if d == day then [JournalLine(events[i])] else [])
      {
        RequiredSnoc(Journal(d), events[..i], events[i]);
      }
      byDay := byDay[day := (if day in byDay then byDay[day] else []) + [JournalLine(events[i])]];
      i := i + 1;
    }
    assert events[..i] == events;
  }

  method TradeLines(events: seq<Event>) returns (lines: seq<Line>)
    ensures lines == Required(Trades, events)
  {
    lines := [];
    var i := 0;
    while i < |events|
      invariant 0 <= i <= |events|
      invariant lines == Required(Trades, events[..i])
    {
      var e := events[i];
      assert events[..i + 1] == events[..i] + [e];
      RequiredSnoc(Trades, events[..i], e);
      if e.payload.FillRecorded? && e.payload.side == "buy" {
        lines := lines + [TradeLine(Buy, e)];
      } else if e.payload.OrderRejected? {
        lines := lines + [TradeLine(Skip, e)];
      } else if e.payload.PositionClosed? {
        lines := lines + [TradeLine(Close, e)];
      }
      i := i + 1;
    }
    assert events[..i] == events;
  }

  method ExportedSeqs(lines: seq<Line>) returns (seqs: set<int>)
    ensures seqs == RecordSeqs(lines)
  {
    seqs := {};
    var i := 0;
    while i < |lines|
      invariant 0 <= i <= |lines|
      invariant seqs == RecordSeqs(lines[..i])
    {
      assert lines[..i + 1] == lines[..i] + [lines[i]];
      RecordsSplit(lines[..i], [lines[i]]);
      assert [lines[i]][1..] == [];
      if lines[i].IsRecord() {
        seqs := seqs + {lines[i].SeqNo()};
      }
      i := i + 1;
    }
    assert lines[..i] == lines;
  }

  lemma AppendedIsInterrupted(f: File, rows: seq<Line>)
    ensures Interrupted(f, Appended(f, rows), rows)
  {
    var missing := Missing(RecordSeqs(f.lines), rows);
    assert missing[..|missing|] == missing;
  }

  lemma DoneIsCutShort(before: Files, after: Files, events: seq<Event>, t: Target)
    requires Done(before, after, events, t) || FileAt(after, t) == FileAt(before, t)
    ensures CutShort(before, after, events, t)
  {
    AppendedIsInterrupted(FileAt(before, t), Required(t, events));
  }

  /** The given days' files are written; every other day's file is as it was. */
  ghost predicate DaysDone(before: Files, after: Files, events: seq<Event>, days: set<string>) {
    forall day ::
      if day in days then Done(before, after, events, Journal(day))
      else FileAt(after, Journal(day)) == FileAt(before, Journal(day))
  }

  /** A day without rows is done from the start. */
  lemma OwnedDaysAreAllDays(byDay: map<string, seq<Line>>, before: Files, after: Files, events: seq<Event>)
    requires IsJournal(byDay, events) && DaysDone(before, after, events, byDay.Keys)
    ensures forall day :: Done(before, after, events, Journal(day))
  {
    forall day
      ensures Done(before, after, events, Journal(day))
    {
      if day !in byDay {
        assert Required(Journal(day), events) == [];
      }
    }
  }

  /** Only target `t` differs between the two. */
  ghost predicate OnlyAt(before: Files, after: Files, t: Target) {
    forall u | u != t :: FileAt(after, u) == FileAt(before, u)
  }

  /** Every target is a day's journal or the trades file. */
  lemma TargetCases(before: Files, after: Files, events: seq<Event>)
    ensures ((forall day :: CutShort(before, after, events, Journal(day)))
             && CutShort(before, after, events, Trades))
            ==> forall t :: CutShort(before, after, events, t)
    ensures ((forall day :: Done(before, after, events, Journal(day)))
             && Done(before, after, events, Trades))
            ==> forall t :: Done(before, after, events, t)
  {
    forall t: Target
      ensures t == Trades || t == Journal(t.day)
    {
    }
  }

  /** A write to the trades file alone leaves the day files as far as they were. */
  lemma TradesApart(before: Files, between: Files, after: Files, events: seq<Event>, day: string)
    requires OnlyAt(between, after, Trades)
    ensures CutShort(before, between, events, Journal(day)) ==> CutShort(before, after, events, Journal(day))
    ensures Done(before, between, events, Journal(day)) ==> Done(before, after, events, Journal(day))
  {
    assert FileAt(after, Journal(day)) == FileAt(between, Journal(day));
  }

  lemma DayWritten(before: Files, between: Files, after: Files, events: seq<Event>, days: set<string>, day: string)
    requires DaysDone(before, between, events, days) && day !in days
    requires OnlyAt(between, after, Journal(day)) && Done(between, after, events, Journal(day))
    ensures DaysDone(before, after, events, days + {day})
  {
    assert FileAt(between, Journal(day)) == FileAt(before, Journal(day));
  }

  lemma DayCutShort(before: Files, between: Files, after: Files, events: seq<Event>, days: set<string>, day: string)
    requires DaysDone(before, between, events, days) && day !in days
    requires OnlyAt(between, after, Journal(day)) && CutShort(between, after, events, Journal(day))
    ensures forall d :: CutShort(before, after, events, Journal(d))
  {
    forall d
      ensures CutShort(before, after, events, Journal(d))
    {
      if d != day {
        assert FileAt(after, Journal(d)) == FileAt(between, Journal(d));
        DoneIsCutShort(before, between, events, Journal(d));
      } else {
        assert FileAt(between, Journal(day)) == FileAt(before, Journal(day));
      }
    }
  }

  /**
   The target files, and how long the writing process lives: the number of writes, lines or cursor,
   that it still completes before it crashes (`None`: it does not crash).
   */
  class ExportTargets {
    var files: Files
    var life: Option<nat>
    var tears: bool

    /** Appends each row the file does not hold; a crash leaves a prefix of them, perhaps a torn line. */
    method AppendMissing(t: Target, rows: seq<Line>) returns (crashed: bool)
      modifies this
      ensures OnlyAt(old(files), files, t)
      ensures !crashed ==> FileAt(files, t) == Appended(old(FileAt(files, t)), rows)
      ensures Interrupted(old(FileAt(files, t)), FileAt(files, t), rows)
      ensures old(life).None? ==> !crashed && life.None?
    {
      AppendedIsInterrupted(FileAt(files, t), rows);
      if rows == [] {
        return false;
      }
      var f := FileAt(files, t);
      var present := ExportedSeqs(f.lines);
      var missing := Missing(present, rows);
      if missing == [] {
        return false;
      }
      if life.Some? {
        if life.value < |missing| {
          files := files[t := File(f.lines + missing[..life.value], tears)];
          return true;
        }
        life := Some(life.value - |missing|);
      }
      files := files[t := File(f.lines + missing, false)];
      return false;
    }

    /** The day files, in any order, until the process dies. */
    method ExportJournal(events: seq<Event>) returns (crashed: bool)
      modifies this
      ensures FileAt(files, Trades) == FileAt(old(files), Trades)
      ensures !crashed ==> forall day :: Done(old(files), files, events, Journal(day))
      ensures forall day :: CutShort(old(files), files, events, Journal(day))
      ensures old(life).None? ==> !crashed && life.None?
    {
      ghost var before := files;
      var byDay := JournalBatches(events);
      var todo := byDay.Keys;
      ghost var done: set<string> := {};
      while todo != {}
        invariant done !! todo && done + todo == byDay.Keys
        invariant FileAt(files, Trades) == FileAt(before, Trades)
        invariant DaysDone(before, files, events, done)
        invariant old(life).None? ==> life.None?
        decreases todo
      {
        var day :| day in todo;
        assert byDay[day] == Required(Journal(day), events);
        ghost var between := files;
        crashed := AppendMissing(Journal(day), byDay[day]);
        if crashed {
          DayCutShort(before, between, files, events, done, day);
          return;
        }
        DayWritten(before, between, files, events, done, day);
        todo, done := todo - {day}, done + {day};
      }
      OwnedDaysAreAllDays(byDay, before, files, events);
      forall d
        ensures CutShort(before, files, events, Journal(d))
      {
        DoneIsCutShort(before, files, events, Journal(d));
      }
      return false;
    }

    /**
     Both targets under one cursor, which moves last: a run that completes is `Exported`, and a run cut
     short at any write is a `Crash`.
     */
    method ExportLedger(store: LedgerStore) returns (exportSeq: Option<nat>)
      requires forall i | 0 <= i < |store.rows| :: store.rows[i].body.seqNo == i + 1
      requires store.meta.exportSeq <= |store.rows|
      modifies this, store`meta
      ensures
        var w := old(World(EventsOf(store.rows), files, store.meta.exportSeq));
        var w' := World(EventsOf(store.rows), files, store.meta.exportSeq);
        if exportSeq.Some? then Exported(w, w') else Crash(w, w')
      ensures exportSeq.Some? ==> exportSeq.value == store.meta.exportSeq
      ensures store.meta == old(store.meta).(exportSeq := store.meta.exportSeq)
      ensures old(life).None? ==> exportSeq.Some?
    {
      ghost var before := files;
      var cursor := store.meta.exportSeq;
      ReadSinceIsSlice(store.rows, 1, cursor + 1);
      var events := EventsOf(ReadSince(store.rows, cursor + 1));
      assert events == EventsOf(store.rows)[cursor..];
      var crashed := ExportJournal(events);
      TargetCases(before, files, events);
      if crashed {
        DoneIsCutShort(before, files, events, Trades);
        return None;
      }
      ghost var between := files;
      var lines := TradeLines(events);
      crashed := AppendMissing(Trades, lines);
      forall day
        ensures CutShort(before, files, events, Journal(day)) && Done(before, files, events, Journal(day))
      {
        TradesApart(before, between, files, events, day);
      }
      TargetCases(before, files, events);
      if crashed || (events != [] && life == Some(0)) {
        return None;
      }
      if events != [] {
        cursor := events[|events| - 1].seqNo;
        store.meta := store.meta.(exportSeq := cursor);
      }
      return Some(cursor);
    }
  }
}
