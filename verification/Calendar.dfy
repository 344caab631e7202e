/** The proleptic Gregorian date arithmetic of the daily and weekly reports. */
module Calendar {
  import opened Arith

  datatype Date = Date(year: int, month: int, dom: int)

  predicate Leap(year: int) {
    year % 4 == 0 && (year % 100 != 0 || year % 400 == 0)
  }

  /** The table of month lengths the reports build for a year. */
  function Lengths(year: int): seq<int> {
    [31, if Leap(year) then 29 else 28, 31, 30, 31, 30, 31, 31, 30, 31, 30, 31]
  }

  predicate MonthOk(month: int) {
    1 <= month <= 12
  }

  function MonthLength(year: int, month: int): int
    requires MonthOk(month)
  {
    Lengths(year)[month - 1]
  }

  predicate Valid(date: Date) {
    MonthOk(date.month) && 1 <= date.dom <= MonthLength(date.year, date.month)
  }

  // ---------------------------------------------------------------- counting days

  function YearLength(year: int): int {
    if Leap(year) then 366 else 365
  }

  /** Days from 0000-01-01 to the first of January, one year at a time in either direction. */
  function YearStart(year: int): int
    decreases if year >= 0 then year else -year
  {
    if year == 0 then 0
    else if year > 0 then YearStart(year - 1) + YearLength(year - 1)
    else YearStart(year + 1) - YearLength(year)
  }

  /** Days of the year before a month; month 13 stands for the whole year. */
  function MonthStart(year: int, month: int): int
    requires 1 <= month <= 13
  {
    if month == 1 then 0 else MonthStart(year, month - 1) + MonthLength(year, month - 1)
  }

  /** The day number of a date; a day of month out of range counts on from its month. */
  function DayNumber(date: Date): int
    requires MonthOk(date.month)
  {
    YearStart(date.year) + MonthStart(date.year, date.month) + date.dom - 1
  }

  /** Day 0, 0000-01-01, was a Saturday; Sunday is 0. */
  function DayOfWeek(dayNumber: int): int {
    (dayNumber + 6) % 7
  }

  lemma YearStartNext(year: int)
    ensures YearStart(year + 1) == YearStart(year) + YearLength(year)
  {
  }

  /** Leap years from year 0 up to, not including, the given one. */
  function LeapsBefore(year: int): int {
    (year - 1) / 4 - (year - 1) / 100 + (year - 1) / 400 + 1
  }

  /** Counting to the next integer carries into the quotient exactly at the multiples. */
  lemma QuotientStep(y: int, d: int)
    requires 1 < d
    ensures y / d == (y - 1) / d + (if y % d == 0 then 1 else 0)
  {
    FloorBounds(y - 1, d);
    var q := (y - 1) / d;
    if y < d * q + d {
      FloorIs(y, d, q);
    } else {
      FloorIs(y, d, q + 1);
    }
    assert y == d * (y / d) + y % d;
  }

  lemma LeapsNext(year: int)
    ensures LeapsBefore(year + 1) == LeapsBefore(year) + (if Leap(year) then 1 else 0)
  {
    QuotientStep(year, 4);
    QuotientStep(year, 100);
    QuotientStep(year, 400);
    LeapMultiples(year);
  }

  lemma LeapMultiples(year: int)
    ensures year % 400 == 0 ==> year % 100 == 0
    ensures year % 100 == 0 ==> year % 4 == 0
  {
  }

  /** Sums of single years in closed form. */
  lemma {:induction false} YearStartClosed(year: int)
    ensures YearStart(year) == 365 * year + LeapsBefore(year)
    decreases if year >= 0 then year else -year
  {
    if year > 0 {
      YearStartClosed(year - 1);
      LeapsNext(year - 1);
    } else if year < 0 {
      YearStartClosed(year + 1);
      LeapsNext(year);
    }
  }

  lemma MonthStarts(year: int)
    ensures MonthStart(year, 1) == 0 && MonthStart(year, 2) == 31
    ensures
      var leap := if Leap(year) then 1 else 0;
      && MonthStart(year, 3) == 59 + leap && MonthStart(year, 4) == 90 + leap
      && MonthStart(year, 5) == 120 + leap && MonthStart(year, 6) == 151 + leap
      && MonthStart(year, 7) == 181 + leap && MonthStart(year, 8) == 212 + leap
      && MonthStart(year, 9) == 243 + leap && MonthStart(year, 10) == 273 + leap
      && MonthStart(year, 11) == 304 + leap && MonthStart(year, 12) == 334 + leap
      && MonthStart(year, 13) == YearLength(year)
  {
    assert MonthStart(year, 3) == MonthStart(year, 2) + MonthLength(year, 2);
    assert MonthStart(year, 5) == MonthStart(year, 4) + MonthLength(year, 4);
    assert MonthStart(year, 7) == MonthStart(year, 6) + MonthLength(year, 6);
    assert MonthStart(year, 9) == MonthStart(year, 8) + MonthLength(year, 8);
    assert MonthStart(year, 11) == MonthStart(year, 10) + MonthLength(year, 10);
  }

  // ---------------------------------------------------------------- Sakamoto's weekday

  const SAKAMOTO: seq<int> := [0, 3, 2, 5, 0, 3, 5, 1, 4, 6, 2, 4]

  function Weekday(y: int, m: int, d: int): int
    requires MonthOk(m)
  {
    var yy := y - (if m < 3 then 1 else 0);
    (yy + yy / 4 - yy / 100 + yy / 400 + SAKAMOTO[m - 1] + d) % 7
  }

  lemma SameResidue(a: int, b: int, k: int)
    requires a == b + 7 * k
    ensures a % 7 == b % 7
  {
  }

  /** Whole weeks between a month's first day and its place in Sakamoto's table. */
  const WEEKS: seq<int> := [1, 5, 9, 13, 18, 22, 26, 31, 35, 39, 44, 48]

  lemma TableFits(y: int, m: int)
    requires MonthOk(m)
    ensures MonthStart(y, m) - SAKAMOTO[m - 1]
         == 7 * WEEKS[m - 1] - (if m < 3 then 7 else 6 - (if Leap(y) then 1 else 0))
  {
    MonthStarts(y);
  }

  /** Sakamoto's formula is the day number modulo seven, for every year, month and day count. */
  lemma SakamotoAgrees(date: Date)
    requires MonthOk(date.month)
    ensures Weekday(date.year, date.month, date.dom) == DayOfWeek(DayNumber(date))
  {
    var y, m := date.year, date.month;
    YearStartClosed(y);
    LeapsNext(y);
    TableFits(y, m);
    var yy := y - (if m < 3 then 1 else 0);
    var sum := yy + (LeapsBefore(yy + 1) - 1) + SAKAMOTO[m - 1] + date.dom;
    SameResidue(DayNumber(date) + 6, sum, 52 * y + WEEKS[m - 1]);
  }

  // ---------------------------------------------------------------- dates are days

  lemma {:induction false} YearsApart(a: int, b: int)
    requires a < b
    ensures YearStart(a) + YearLength(a) <= YearStart(b)
    decreases b - a
  {
    YearStartNext(b - 1);
    if a < b - 1 {
      YearsApart(a, b - 1);
    }
  }

  lemma {:induction false} MonthsApart(year: int, a: int, b: int)
    requires 1 <= a < b <= 13
    ensures MonthStart(year, a) + MonthLength(year, a) <= MonthStart(year, b)
    decreases b
  {
    if a < b - 1 {
      MonthsApart(year, a, b - 1);
    }
  }

  lemma WithinYear(date: Date)
    requires Valid(date)
    ensures YearStart(date.year) <= DayNumber(date) < YearStart(date.year) + YearLength(date.year)
  {
    MonthStarts(date.year);
    if date.month < 12 {
      MonthsApart(date.year, date.month, 13);
    }
  }

  /** The calendar order of valid dates is the order of their day numbers. */
  lemma LaterDateLaterDay(a: Date, b: Date)
    requires Valid(a) && Valid(b)
    requires a.year < b.year || (a.year == b.year && (a.month < b.month || (a.month == b.month && a.dom < b.dom)))
    ensures DayNumber(a) < DayNumber(b)
  {
    if a.year < b.year {
      WithinYear(a);
      WithinYear(b);
      YearsApart(a.year, b.year);
    } else if a.month < b.month {
      MonthsApart(a.year, a.month, b.month);
    }
  }

  /** A day number names at most one valid date. */
  lemma OneDateADay(a: Date, b: Date)
    requires Valid(a) && Valid(b) && DayNumber(a) == DayNumber(b)
    ensures a == b
  {
    if a.year < b.year || (a.year == b.year && (a.month < b.month || (a.month == b.month && a.dom < b.dom))) {
      LaterDateLaterDay(a, b);
    } else if a != b {
      LaterDateLaterDay(b, a);
    }
  }

  // ---------------------------------------------------------------- the code

  lemma NextMonth(year: int, month: int)
    requires MonthOk(month)
    ensures month < 12 ==>
              YearStart(year) + MonthStart(year, month + 1)
                == YearStart(year) + MonthStart(year, month) + MonthLength(year, month)
    ensures YearStart(year + 1) == YearStart(year) + MonthStart(year, 12) + MonthLength(year, 12)
  {
    MonthStarts(year);
    YearStartNext(year);
  }

  /** The next UTC day. */
  method DayNext(day: Date) returns (next: Date)
    requires Valid(day)
    ensures Valid(next) && DayNumber(next) == DayNumber(day) + 1
  {
    var year, month, dom := day.year, day.month, day.dom;
    var lengths := Lengths(year);
    NextMonth(year, month);
    dom := dom + 1;
    if dom > lengths[month - 1] {
      dom := 1;
      month := month + 1;
    }
    if month > 12 {
      month := 1;
      year := year + 1;
    }
    next := Date(year, month, dom);
  }

  /** Moves a date by any number of days, through as many month ends as it takes. */
  method Shift(date: Date, delta: int) returns (r: Date)
    requires MonthOk(date.month)
    ensures Valid(r) && DayNumber(r) == DayNumber(date) + delta
  {
    var y, m, d := date.year, date.month, date.dom;
    var lengths := Lengths(y);
    d := d + delta;
    while d < 1
      invariant MonthOk(m) && lengths == Lengths(y)
      invariant DayNumber(Date(y, m, d)) == DayNumber(date) + delta
      decreases 1 - d
    {
      m := m - 1;
      if m < 1 {
        m := 12;
        y := y - 1;
      }
      NextMonth(y, m);
      lengths := Lengths(y);
      d := d + lengths[m - 1];
    }
    while d > lengths[m - 1]
      invariant MonthOk(m) && lengths == Lengths(y) && 1 <= d
      invariant DayNumber(Date(y, m, d)) == DayNumber(date) + delta
      decreases d
    {
      NextMonth(y, m);
      d := d - lengths[m - 1];
      m := m + 1;
      if m > 12 {
        m := 1;
        y := y + 1;
      }
      lengths := Lengths(y);
    }
    r := Date(y, m, d);
  }

  /** The Monday of a date's ISO week. */
  ghost predicate IsMondayOf(monday: Date, day: Date)
    requires Valid(day)
  {
    && Valid(monday)
    && DayOfWeek(DayNumber(monday)) == 1
    && DayNumber(day) - 6 <= DayNumber(monday) <= DayNumber(day)
  }

  lemma MondayIsUnique(a: Date, b: Date, day: Date)
    requires Valid(day) && IsMondayOf(a, day) && IsMondayOf(b, day)
    ensures a == b
  {
    OneDateADay(a, b);
  }

  lemma BackToMonday(n: int)
    ensures DayOfWeek(n - (DayOfWeek(n) + 6) % 7) == 1
  {
    var q, w := (n + 6) / 7, DayOfWeek(n);
    SameResidue(n + 6 - (w + 6) % 7, 1, if w == 0 then q - 1 else q);
  }

  method IsoMonday(day: Date) returns (monday: Date)
    requires Valid(day)
    ensures IsMondayOf(monday, day)
  {
    SakamotoAgrees(day);
    BackToMonday(DayNumber(day));
    var back := (Weekday(day.year, day.month, day.dom) + 6) % 7;
    monday := Shift(day, -back);
  }

  /** The report's week: seven consecutive valid days from the Monday, the given day among them. */
  method WeekOf(day: Date) returns (days: seq<Date>)
    requires Valid(day)
    ensures |days| == 7 && IsMondayOf(days[0], day)
    ensures forall i | 0 <= i < 7 :: Valid(days[i]) && DayNumber(days[i]) == DayNumber(days[0]) + i
    ensures day in days
  {
    var monday := IsoMonday(day);
    days := [monday];
    var cursor := monday;
    for n := 0 to 6
      invariant |days| == n + 1 && days[0] == monday && cursor == days[n]
      invariant forall i | 0 <= i <= n :: Valid(days[i]) && DayNumber(days[i]) == DayNumber(monday) + i
    {
      cursor := DayNext(cursor);
      days := days + [cursor];
    }
    OneDateADay(days[DayNumber(day) - DayNumber(monday)], day);
  }
}
