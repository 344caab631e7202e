/** Which event gets which line, and what a completed export therefore leaves in each file. */
module ExportLines {
  import opened Wrappers
  import opened Events
  import opened Export

  /** The line that a trades file owes this event: a buy for a buy fill, a skip for a refusal, a close for a close. */
  predicate TradeOf(line: Line, e: Event) {
    && line.TradeLine? && line.event == e
    && (line.kind == Buy <==> e.payload.FillRecorded? && e.payload.side == "buy")
    && (line.kind == Skip <==> e.payload.OrderRejected?)
    && (line.kind == Close <==> e.payload.PositionClosed?)
  }

  /** The journal line of an event, in the file named by the first ten characters of its stamp. */
  predicate JournalOf(line: Line, day: string, e: Event) {
    && line.JournalLine? && line.event == e
    && (if |e.tsUtc| < 10 then day == e.tsUtc else day == e.tsUtc[..10])
  }

  lemma TradeExactly(e: Event, line: Line)
    ensures LineFor(Trades, e) == Some(line) <==> TradeOf(line, e)
  {
  }

  lemma JournalExactly(e: Event, day: string, line: Line)
    ensures LineFor(Journal(day), e) == Some(line) <==> JournalOf(line, day, e)
  {
  }

  lemma {:induction false} RequiredIsOwed(t: Target, log: seq<Event>, line: Line)
    ensures line in Required(t, log) <==> exists i | 0 <= i < |log| :: LineFor(t, log[i]) == Some(line)
    decreases |log|
  {
    hide LineFor;
    if log != [] {
      RequiredIsOwed(t, log[1..], line);
      assert forall i | 0 <= i < |log| - 1 :: log[1..][i] == log[i + 1];
      assert forall i | 1 <= i < |log| :: log[i] == log[1..][i - 1];
    }
  }

  /** The trades file owes exactly one kind of line to each buy fill, refusal and close, and none to other events. */
  lemma TradesOweExactly(log: seq<Event>, line: Line)
    ensures line in Required(Trades, log) <==> exists i | 0 <= i < |log| :: TradeOf(line, log[i])
  {
    hide LineFor, TradeOf, Required;
    RequiredIsOwed(Trades, log, line);
    forall i | 0 <= i < |log|
      ensures LineFor(Trades, log[i]) == Some(line) <==> TradeOf(line, log[i])
    {
      TradeExactly(log[i], line);
    }
  }

  /** A day's journal owes exactly one line to each event stamped on that day. */
  lemma JournalOwesExactly(log: seq<Event>, day: string, line: Line)
    ensures line in Required(Journal(day), log) <==> exists i | 0 <= i < |log| :: JournalOf(line, day, log[i])
  {
    hide LineFor, JournalOf, Required;
    RequiredIsOwed(Journal(day), log, line);
    forall i | 0 <= i < |log|
      ensures LineFor(Journal(day), log[i]) == Some(line) <==> JournalOf(line, day, log[i])
    {
      JournalExactly(log[i], day, line);
    }
  }

  lemma {:induction false} RecordsAreLines(lines: seq<Line>, line: Line)
    ensures line in Records(lines) <==> line in lines && !line.NoteLine?
    decreases |lines|
  {
    if lines != [] {
      RecordsAreLines(lines[1..], line);
      assert lines == [lines[0]] + lines[1..];
    }
  }

  /** The seqs read back from a file are those of its lines other than notes. */
  lemma SeqsReadBack(lines: seq<Line>, q: int)
    ensures q in RecordSeqs(lines) <==> exists line | line in lines :: !line.NoteLine? && line.SeqNo() == q
  {
    hide Records;
    forall line
      ensures line in Records(lines) <==> line in lines && !line.NoteLine?
    {
      RecordsAreLines(lines, line);
    }
  }

  /**
   After a completed export the trades file holds, besides notes, exactly the buy, skip and close lines of
   the log, and each day's file exactly the journal lines of its day.
   */
  lemma FilesHoldExactly(w: World, w': World, line: Line, day: string)
    requires Inv(w) && Exported(w, w') && !line.NoteLine?
    ensures line in FileAt(w'.files, Trades).lines <==> exists i | 0 <= i < |w.log| :: TradeOf(line, w.log[i])
    ensures line in FileAt(w'.files, Journal(day)).lines
            <==> exists i | 0 <= i < |w.log| :: JournalOf(line, day, w.log[i])
  {
    hide Records, Required, TradeOf, JournalOf, Inv, Done;
    ExportCompletes(w, w');
    RecordsAreLines(FileAt(w'.files, Trades).lines, line);
    RecordsAreLines(FileAt(w'.files, Journal(day)).lines, line);
    TradesOweExactly(w.log, line);
    JournalOwesExactly(w.log, day, line);
  }

  /** Neither a completed export nor a crash takes a line away, and what is added goes to the end. */
  lemma LinesStay(w: World, w': World, t: Target)
    requires w.cursor <= |w.log| && (Exported(w, w') || Crash(w, w'))
    ensures FileAt(w.files, t).lines <= FileAt(w'.files, t).lines
    ensures Exported(w, w') && FileAt(w.files, t).lines != FileAt(w'.files, t).lines ==> !FileAt(w'.files, t).torn
  {
    hide Missing, Required, RecordSeqs;
    if Exported(w, w') {
      assert Done(w.files, w'.files, Tail(w), t);
    } else {
      assert CutShort(w.files, w'.files, Tail(w), t);
    }
  }
}
