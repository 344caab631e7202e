/**
 Ticket numbers of a day, and their allocation when callers race.

 An id is read back through a three-digit pattern but written with at least three digits, so number
 1000 can be written and never read. Every step of every caller interleaves freely with the others
 and with batches that other code commits.
 */
module Tickets {
  import opened Wrappers
  import opened Events
  import opened Store

  const MAX_ATTEMPTS: nat := 10
  const LAST_READABLE: nat := 999

  // ---------------------------------------------------------------- ids and their numbers

  predicate IsDigit(c: char) {
    '0' <= c <= '9'
  }

  function DigitValue(c: char): nat
    requires IsDigit(c)
  {
    c as int - '0' as int
  }

  function DigitOf(d: nat): (c: char)
    requires d < 10
    ensures IsDigit(c) && DigitValue(c) == d
  {
    ('0' as int + d) as char
  }

  function Decimal(n: nat): string {
    if n < 10 then [DigitOf(n)] else Decimal(n / 10) + [DigitOf(n % 10)]
  }

  /** Python's `:03d`. */
  function Pad3(n: nat): string {
    var s := Decimal(n);
    if |s| == 1 then "00" + s else if |s| == 2 then "0" + s else s
  }

  /** `int(text)` on a text of decimal digits. */
  function Value(s: string): nat
    requires forall i | 0 <= i < |s| :: IsDigit(s[i])
  {
    if s == [] then 0 else 10 * Value(s[..|s| - 1]) + DigitValue(s[|s| - 1])
  }

  /** `ts_utc[:10].replace("-", "")`. */
  function Compact(stamp: string): (day: string)
    ensures '-' !in day
  {
    if stamp == [] then []
    else (if stamp[0] == '-' then [] else [stamp[0]]) + Compact(stamp[1..])
  }

  function Prefix(day: string): string {
    "SOL-" + day + "-"
  }

  function TicketId(day: string, n: nat): string {
    Prefix(day) + Pad3(n)
  }

  /** The day part that the ticket pattern accepts. */
  predicate DayReadable(day: string) {
    |day| == 8 && forall i | 0 <= i < 8 :: IsDigit(day[i])
  }

  /** The number of an id of this day that the pattern matches; a dash-free day is assumed by the pattern test. */
  function NumberOf(day: string, id: string): Option<nat> {
    var p := |Prefix(day)|;
    if DayReadable(day) && Prefix(day) <= id && |id| == p + 3 && (forall i | p <= i < p + 3 :: IsDigit(id[i]))
    then Some(Value(id[p..]))
    else None
  }

  lemma {:induction false} DecimalReadsBack(n: nat)
    ensures forall i | 0 <= i < |Decimal(n)| :: IsDigit(Decimal(n)[i])
    ensures Value(Decimal(n)) == n
    ensures |Decimal(n)| == if n < 10 then 1 else if n < 100 then 2 else if n < 1000 then 3 else |Decimal(n)|
    ensures 1000 <= n ==> |Decimal(n)| > 3
  {
    if n < 10 {
      assert Decimal(n)[..0] == [];
    } else {
      DecimalReadsBack(n / 10);
      assert Decimal(n)[..|Decimal(n)| - 1] == Decimal(n / 10);
    }
  }

  lemma ThreeDigits(s: string)
    requires |s| == 3 && forall i | 0 <= i < 3 :: IsDigit(s[i])
    ensures Value(s) == 100 * DigitValue(s[0]) + 10 * DigitValue(s[1]) + DigitValue(s[2])
  {
    assert s[..2][..1] == s[..1] && s[..1][..0] == [];
    assert s[..2][1] == s[1] && s[..1][0] == s[0];
    assert Value(s[..1]) == DigitValue(s[0]);
    assert Value(s[..2]) == 10 * Value(s[..1]) + DigitValue(s[1]);
  }

  lemma PadSmall(n: nat)
    requires n <= LAST_READABLE
    ensures Pad3(n) == [DigitOf(n / 100), DigitOf(n / 10 % 10), DigitOf(n % 10)]
  {
    if n >= 100 {
      assert Decimal(n) == Decimal(n / 10) + [DigitOf(n % 10)];
      assert Decimal(n / 10) == Decimal(n / 10 / 10) + [DigitOf(n / 10 % 10)];
      assert n / 10 / 10 == n / 100;
    } else if n >= 10 {
      assert Decimal(n) == Decimal(n / 10) + [DigitOf(n % 10)];
    }
  }

  lemma PadReadsBack(n: nat)
    ensures forall i | 0 <= i < |Pad3(n)| :: IsDigit(Pad3(n)[i])
    ensures Value(Pad3(n)) == n
    ensures |Pad3(n)| == 3 <==> n <= LAST_READABLE
  {
    DecimalReadsBack(n);
    if n <= LAST_READABLE {
      PadSmall(n);
      ThreeDigits(Pad3(n));
      assert 100 * (n / 100) + 10 * (n / 10 % 10) + n % 10 == n;
    }
  }

  lemma DigitsOfThree(a: nat, b: nat, c: nat)
    requires a < 10 && b < 10 && c < 10
    ensures var n := 100 * a + 10 * b + c; n / 100 == a && n / 10 % 10 == b && n % 10 == c
  {
    var n := 100 * a + 10 * b + c;
    assert n / 100 == a;
    assert n / 10 == 10 * a + b;
  }

  lemma SmallPadded(s: string)
    requires |s| == 3 && forall i | 0 <= i < 3 :: IsDigit(s[i])
    ensures Value(s) <= LAST_READABLE && Pad3(Value(s)) == s
  {
    ThreeDigits(s);
    DigitsOfThree(DigitValue(s[0]), DigitValue(s[1]), DigitValue(s[2]));
    PadSmall(Value(s));
    assert forall i | 0 <= i < 3 :: DigitOf(DigitValue(s[i])) == s[i];
  }

  /** Reading an id back: exactly the written ids of a well-formed day, up to number 999. */
  lemma ReadsBackExactly(day: string, id: string, n: nat)
    ensures NumberOf(day, id) == Some(n) <==> DayReadable(day) && n <= 999 && id == TicketId(day, n)
  {
    var p := |Prefix(day)|;
    if DayReadable(day) && n <= LAST_READABLE && id == TicketId(day, n) {
      PadReadsBack(n);
      assert id[p..] == Pad3(n);
      assert forall i | p <= i < p + 3 :: id[i] == id[p..][i - p];
    }
    if NumberOf(day, id) == Some(n) {
      assert forall i | 0 <= i < 3 :: id[p..][i] == id[p + i];
      SmallPadded(id[p..]);
      assert id == Prefix(day) + id[p..];
    }
  }

  /** Two dash-free days whose prefixes lead one text are the same day. */
  lemma PrefixNamesDay(day: string, d: string, id: string)
    requires '-' !in day && '-' !in d && Prefix(day) <= id && Prefix(d) <= id
    ensures day == d
  {
    assert forall k | 0 <= k < |day| :: id[4 + k] == Prefix(day)[4 + k] == day[k];
    assert forall k | 0 <= k < |d| :: id[4 + k] == Prefix(d)[4 + k] == d[k];
    assert id[4 + |day|] == Prefix(day)[4 + |day|] == '-';
    assert id[4 + |d|] == Prefix(d)[4 + |d|] == '-';
    assert |day| == |d|;
  }

  lemma IdNamesDay(day: string, d: string, n: nat)
    requires '-' !in day && '-' !in d && Prefix(day) <= TicketId(d, n)
    ensures day == d
  {
    assert Prefix(d) <= TicketId(d, n);
    PrefixNamesDay(day, d, TicketId(d, n));
  }

  /** An id names one day and one number. */
  lemma IdNamesDayAndNumber(day: string, m: nat, d: string, n: nat)
    requires '-' !in day && '-' !in d
    ensures TicketId(day, m) == TicketId(d, n) <==> day == d && m == n
  {
    if TicketId(day, m) == TicketId(d, n) {
      assert Prefix(day) <= TicketId(day, m);
      IdNamesDay(day, d, n);
      assert Pad3(m) == TicketId(day, m)[|Prefix(day)|..];
      assert Pad3(n) == TicketId(d, n)[|Prefix(d)|..];
      PadReadsBack(m);
      PadReadsBack(n);
    }
  }

  // ---------------------------------------------------------------- ids as they are written

  lemma {:induction false} CompactSplit(a: string, b: string)
    ensures Compact(a + b) == Compact(a) + Compact(b)
    decreases |a|
  {
    if a == [] {
      assert a + b == b;
    } else {
      assert (a + b)[1..] == a[1..] + b;
      CompactSplit(a[1..], b);
      var head := if a[0] == '-' then [] else [a[0]];
      assert head + (Compact(a[1..]) + Compact(b)) == (head + Compact(a[1..])) + Compact(b);
    }
  }

  lemma {:induction false} CompactOfDashFree(a: string)
    requires '-' !in a
    ensures Compact(a) == a
    decreases |a|
  {
    if a != [] {
      assert a == [a[0]] + a[1..] && '-' !in a[1..] && a[0] in a;
      CompactOfDashFree(a[1..]);
    }
  }

  lemma DashIsDropped(dash: string)
    requires dash == "-"
    ensures Compact(dash) == []
  {
    assert dash[1..] == [];
  }

  lemma CompactAcrossDash(a: string, b: string)
    requires '-' !in b
    ensures Compact(a + "-" + b) == Compact(a) + b
  {
    hide Compact;
    DashIsDropped("-");
    CompactSplit(a + "-", b);
    CompactSplit(a, "-");
    CompactOfDashFree(b);
  }

  /** The day of an ISO date is its year, month and day digits run together. */
  lemma CompactOfIsoDate(year: string, month: string, dom: string)
    requires '-' !in year && '-' !in month && '-' !in dom
    ensures Compact(year + "-" + month + "-" + dom) == year + month + dom
  {
    hide Compact;
    CompactAcrossDash(year + "-" + month, dom);
    CompactAcrossDash(year, month);
    CompactOfDashFree(year);
  }

  /** An id spelled out: three padded digits up to 999, and from 1000 the number's own digits, four or more. */
  lemma IdAsWritten(day: string, n: nat)
    ensures n <= 999 ==>
              TicketId(day, n) == "SOL-" + day + "-" + [DigitOf(n / 100), DigitOf(n / 10 % 10), DigitOf(n % 10)]
    ensures n > 999 ==> exists digits: string ::
              && |digits| > 3 && (forall i | 0 <= i < |digits| :: IsDigit(digits[i])) && Value(digits) == n
              && TicketId(day, n) == "SOL-" + day + "-" + digits
  {
    PadReadsBack(n);
    if n <= 999 {
      PadSmall(n);
    } else {
      DecimalReadsBack(n);
      assert TicketId(day, n) == "SOL-" + day + "-" + Pad3(n);
    }
  }

  /** The digit signs stand for their values, and the value of a text grows tenfold with each digit. */
  lemma DigitsAsRead(s: string, d: nat)
    requires d < 10 && forall i | 0 <= i < |s| :: IsDigit(s[i])
    ensures DigitOf(d) == "0123456789"[d]
    ensures Value(s + [DigitOf(d)]) == 10 * Value(s) + d && Value([]) == 0
  {
    assert (s + [DigitOf(d)])[..|s|] == s;
  }

  // ---------------------------------------------------------------- ticket rows

  /** The id a ticket note carries. */
  function TicketOf(p: Payload): Option<string> {
    if p.JournalNote? && p.noteKind == "ticket" && p.refs != [] then Some(p.refs[0]) else None
  }

  /** The idempotency key that allocation and `ticket create` give an id's note. */
  function TicketKey(id: string): string {
    "ticket:" + id
  }

  /** Every stored ticket id, in commit order. */
  function TicketIds(rows: seq<Row>): seq<string> {
    if rows == [] then []
    else
      TicketIds(rows[..|rows| - 1])
      + (match TicketOf(rows[|rows| - 1].body.payload) case None => [] case Some(id) => [id])
  }

  lemma {:induction false} TicketIdsSplit(a: seq<Row>, b: seq<Row>)
    ensures TicketIds(a + b) == TicketIds(a) + TicketIds(b)
    decreases |b|
  {
    if b == [] {
      assert a + b == a;
    } else {
      var n := |b| - 1;
      assert (a + b)[..|a + b| - 1] == a + b[..n];
      TicketIdsSplit(a, b[..n]);
    }
  }

  /** The highest number of the day among the ids; 0 when there is none. */
  function DayMax(day: string, ids: seq<string>): (highest: nat)
    ensures highest <= LAST_READABLE
  {
    if ids == [] then 0
    else
      var before := DayMax(day, ids[..|ids| - 1]);
      match NumberOf(day, ids[|ids| - 1])
      case None => before
      case Some(n) =>
        ReadsBackExactly(day, ids[|ids| - 1], n);
        if n > before then n else before
  }

  /** The numbers of the day among the ids. */
  function Numbers(day: string, ids: seq<string>): set<nat> {
    set i | 0 <= i < |ids| && NumberOf(day, ids[i]).Some? :: NumberOf(day, ids[i]).value
  }

  lemma {:induction false} DayMaxIsTheMaximum(day: string, ids: seq<string>)
    ensures forall n | n in Numbers(day, ids) :: n <= DayMax(day, ids)
    ensures DayMax(day, ids) == 0 || DayMax(day, ids) in Numbers(day, ids)
  {
    if ids != [] {
      var n := |ids| - 1;
      DayMaxIsTheMaximum(day, ids[..n]);
      forall i | 0 <= i < n && NumberOf(day, ids[i]).Some?
        ensures NumberOf(day, ids[i]).value <= DayMax(day, ids[..n])
      {
        assert ids[..n][i] == ids[i];
        assert NumberOf(day, ids[i]).value in Numbers(day, ids[..n]);
      }
      if DayMax(day, ids) == DayMax(day, ids[..n]) != 0 {
        var i :| 0 <= i < n && NumberOf(day, ids[..n][i]) == Some(DayMax(day, ids[..n]));
        assert NumberOf(day, ids[i]) == Some(DayMax(day, ids));
      }
    }
  }

  /** A ticket row is a note of kind "ticket" with a ref, and its id is the first one. */
  lemma TicketNoteExactly(p: Payload, id: string)
    ensures TicketOf(p) == Some(id)
            <==> p.JournalNote? && p.noteKind == "ticket" && |p.refs| > 0 && p.refs[0] == id
  {
  }

  /** A day's numbers are those from 0 to 999 whose id is stored, if the day is eight digits; other days have none. */
  lemma NumbersExactly(day: string, ids: seq<string>, n: nat)
    ensures n in Numbers(day, ids)
            <==> |day| == 8 && (forall i | 0 <= i < 8 :: '0' <= day[i] <= '9') && n <= 999 && TicketId(day, n) in ids
  {
    hide TicketId;
    if n in Numbers(day, ids) {
      var i :| 0 <= i < |ids| && NumberOf(day, ids[i]) == Some(n);
      ReadsBackExactly(day, ids[i], n);
    }
    if TicketId(day, n) in ids {
      var i :| 0 <= i < |ids| && ids[i] == TicketId(day, n);
      ReadsBackExactly(day, ids[i], n);
    }
  }

  lemma TicketIdsSnoc(rows: seq<Row>, r: Row)
    ensures TicketIds(rows + [r])
         == match TicketOf(r.body.payload)
            case None => TicketIds(rows)
            case Some(id) => TicketIds(rows) + [id]
  {
    assert (rows + [r])[..|rows|] == rows;
  }

  function Higher(highest: nat, number: Option<nat>): nat {
    if number.Some? && number.value > highest then number.value else highest
  }

  lemma DayMaxSnoc(day: string, ids: seq<string>, id: string)
    ensures DayMax(day, ids + [id]) == Higher(DayMax(day, ids), NumberOf(day, id))
  {
    assert (ids + [id])[..|ids|] == ids;
  }

  lemma DayMaxAfterRow(day: string, rows: seq<Row>, r: Row)
    ensures DayMax(day, TicketIds(rows + [r]))
            == Higher(DayMax(day, TicketIds(rows)),
                      match TicketOf(r.body.payload) case None => None case Some(id) => NumberOf(day, id))
  {
    TicketIdsSnoc(rows, r);
    if TicketOf(r.body.payload).Some? {
      DayMaxSnoc(day, TicketIds(rows), TicketOf(r.body.payload).value);
    }
  }

  /** The number a row's payload carries for the day; a note without refs reads as the empty id. */
  function NumberIn(day: string, p: Payload): (number: Option<nat>)
    ensures number == match TicketOf(p) case None => None case Some(id) => NumberOf(day, id)
  {
    if p.JournalNote? && p.noteKind == "ticket" then NumberOf(day, if p.refs != [] then p.refs[0] else "") else None
  }

  /** The running maximum over the stored rows. */
  method DayMaxTicketNumber(rows: seq<Row>, day: string) returns (highest: nat)
    ensures highest == DayMax(day, TicketIds(rows))
  {
    highest := 0;
    ghost var seen: seq<Row> := [];
    for i := 0 to |rows|
      invariant seen == rows[..i]
      invariant highest == DayMax(day, TicketIds(seen))
    {
      DayMaxAfterRow(day, seen, rows[i]);
      var number := NumberIn(day, rows[i].body.payload);
      if number.Some? && number.value > highest {
        highest := number.value;
      }
      seen := seen + [rows[i]];
    }
    assert seen == rows;
  }
}
