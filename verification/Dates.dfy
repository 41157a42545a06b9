/** The proleptic Gregorian calendar as section 21.4.1 of ECMA-262 lays it down: day numbers counted from 1 January
    1970, and the civil date of each. Months run from 0 to 11. Time zones and the range of time values are left out. */
module Dates {
  datatype Date = Date(year: int, month: int, day: int)

  predicate Leap(year: int)
  {
    year % 4 == 0 && (year % 100 != 0 || year % 400 == 0)
  }

  function DaysInYear(year: int): int
  {
    if Leap(year) then 366 else 365
  }

  function DaysInMonth(year: int, month: int): (days: int)
    requires 0 <= month < 12
    ensures 28 <= days <= 31
  {
    if month == 1 then (if Leap(year) then 29 else 28)
    else if month in {3, 5, 8, 10} then 30
    else 31
  }

  function DayFromYear(year: int): int
  {
    365 * (year - 1970) + (year - 1969) / 4 - (year - 1901) / 100 + (year - 1601) / 400
  }

  /** The days of the year before a month. */
  function DaysBefore(year: int, month: int): (days: int)
    requires 0 <= month <= 12
    ensures days >= 0
  {
    if month == 0 then 0 else DaysBefore(year, month - 1) + DaysInMonth(year, month - 1)
  }

  predicate Civil(d: Date)
  {
    0 <= d.month < 12 && 1 <= d.day <= DaysInMonth(d.year, d.month)
  }

  function DayOf(d: Date): int
    requires 0 <= d.month < 12
  {
    DayFromYear(d.year) + DaysBefore(d.year, d.month) + d.day - 1
  }

  /** 0 for a Sunday. */
  function WeekDay(day: int): (w: int)
    ensures 0 <= w < 7
  {
    (day + 4) % 7
  }

  function Carried(year: int, month: int, day: int): (d: Date)
    ensures 0 <= d.month < 12 && 12 * d.year + d.month == 12 * year + month
  {
    Date(year + month / 12, month % 12, day)
  }

  /** The day of a date whose month and day may lie outside their ranges. */
  function MakeDay(year: int, month: int, day: int): int
  {
    DayOf(Carried(year, month, day))
  }

  /* ---------- years and months follow each other ---------- */

  lemma FloorStep(a: int, k: int)
    requires k > 0
    ensures (a + 1) / k == a / k + if (a + 1) % k == 0 then 1 else 0
  {
    var q, r := a / k, a % k;
    assert a + 1 == k * q + (r + 1);
    if r + 1 == k {
      assert a + 1 == k * (q + 1);
      DivUnique(a + 1, k, q + 1, 0);
    } else {
      DivUnique(a + 1, k, q, r + 1);
    }
  }

  lemma DivUnique(a: int, k: int, q: int, r: int)
    requires k > 0 && a == k * q + r && 0 <= r < k
    ensures a / k == q && a % k == r
  {
    var d := a / k - q;
    assert k * d == r - a % k;
    assert d >= 1 ==> k * d >= k;
    assert d <= -1 ==> k * d <= -k;
  }

  lemma YearStep(year: int)
    ensures DayFromYear(year + 1) == DayFromYear(year) + DaysInYear(year)
  {
    FloorStep(year - 1969, 4);
    FloorStep(year - 1901, 100);
    FloorStep(year - 1601, 400);
  }

  lemma MonthsFillYear(year: int)
    ensures DaysBefore(year, 12) == DaysInYear(year)
  {
    var feb := DaysInMonth(year, 1);
    assert DaysBefore(year, 1) == 31;
    assert DaysBefore(year, 2) == 31 + feb;
    assert DaysBefore(year, 4) == 31 + feb + 31 + 30;
    assert DaysBefore(year, 6) == 31 + feb + 31 + 30 + 31 + 30;
    assert DaysBefore(year, 8) == 31 + feb + 31 + 30 + 31 + 30 + 31 + 31;
    assert DaysBefore(year, 10) == 31 + feb + 31 + 30 + 31 + 30 + 31 + 31 + 30 + 31;
  }

  lemma {:induction false} MonthsInOrder(year: int, a: int, b: int)
    requires 0 <= a < b <= 12
    ensures DaysBefore(year, a) + DaysInMonth(year, a) <= DaysBefore(year, b)
    decreases b
  {
    if a < b - 1 { MonthsInOrder(year, a, b - 1); }
  }

  lemma {:induction false} YearsInOrder(a: int, b: int)
    requires a < b
    ensures DayFromYear(a) + DaysInYear(a) <= DayFromYear(b)
    decreases b - a
  {
    YearStep(b - 1);
    if a < b - 1 { YearsInOrder(a, b - 1); }
  }

  /** A date lies in its year. */
  lemma DayInYear(d: Date)
    requires Civil(d)
    ensures DayFromYear(d.year) <= DayOf(d) < DayFromYear(d.year) + DaysInYear(d.year)
  {
    MonthsInOrder(d.year, d.month, 12);
    MonthsFillYear(d.year);
  }

  /** Different dates fall on different days. */
  lemma DayOfInjective(a: Date, b: Date)
    requires Civil(a) && Civil(b) && DayOf(a) == DayOf(b)
    ensures a == b
  {
    DayInYear(a);
    DayInYear(b);
    if a.year < b.year { YearsInOrder(a.year, b.year); }
    if b.year < a.year { YearsInOrder(b.year, a.year); }
    if a.month < b.month { MonthsInOrder(a.year, a.month, b.month); }
    if b.month < a.month { MonthsInOrder(a.year, b.month, a.month); }
  }

  /* ---------- the date of a day ---------- */

  /** The year a day falls in, looked for from an earlier year. */
  function YearFrom(day: int, from: int): (year: int)
    requires DayFromYear(from) <= day
    ensures DayFromYear(year) <= day < DayFromYear(year + 1)
    decreases day - DayFromYear(from)
  {
    YearStep(from);
    if day < DayFromYear(from + 1) then from else YearFrom(day, from + 1)
  }

  /** The year a day falls in, looked for from a later year. */
  function YearBack(day: int, from: int): (year: int)
    requires day < DayFromYear(from)
    ensures DayFromYear(year) <= day < DayFromYear(year + 1)
    decreases DayFromYear(from) - day
  {
    YearStep(from - 1);
    if DayFromYear(from - 1) <= day then from - 1 else YearBack(day, from - 1)
  }

  function YearOf(day: int): (year: int)
    ensures DayFromYear(year) <= day < DayFromYear(year + 1)
  {
    if DayFromYear(1970) <= day then YearFrom(day, 1970) else YearBack(day, 1970)
  }

  function DateInYear(year: int, month: int, rest: int): (d: Date)
    requires 0 <= month < 12 && 0 <= rest && DaysBefore(year, month) + rest < DaysInYear(year)
    ensures Civil(d) && DayOf(d) == DayFromYear(year) + DaysBefore(year, month) + rest
    decreases 12 - month, rest
  {
    MonthsFillYear(year);
    if rest < DaysInMonth(year, month) then Date(year, month, rest + 1)
    else DateInYear(year, month + 1, rest - DaysInMonth(year, month))
  }

  function DateOf(day: int): (d: Date)
    ensures Civil(d) && DayOf(d) == day
  {
    var year := YearOf(day);
    YearStep(year);
    DateInYear(year, 0, day - DayFromYear(year))
  }

  /** The first day counted, 1 January 1970, was a Thursday. */
  lemma Epoch()
    ensures DayOf(Date(1970, 0, 1)) == 0 && WeekDay(0) == 4
  {
  }

  /** The days of the week follow each other. */
  lemma NextWeekDay(day: int)
    ensures WeekDay(day + 1) == if WeekDay(day) == 6 then 0 else WeekDay(day) + 1
  {
  }

  lemma MonthLengths(year: int, month: int)
    requires 0 <= month < 12
    ensures DaysInMonth(year, month) ==
      [31, if DaysInYear(year) == 366 then 29 else 28, 31, 30, 31, 30, 31, 31, 30, 31, 30, 31][month]
  {
  }

  /** Days and civil dates correspond one to one. */
  lemma DateOfDayOf(d: Date)
    requires Civil(d)
    ensures DateOf(DayOf(d)) == d
  {
    DayOfInjective(DateOf(DayOf(d)), d);
  }

  /* ---------- stepping by months ---------- */

  function Before(d: Date): (r: Date)
  {
    if d.month == 0 then Date(d.year - 1, 11, d.day) else Date(d.year, d.month - 1, d.day)
  }

  function After(d: Date): (r: Date)
  {
    if d.month == 11 then Date(d.year + 1, 0, d.day) else Date(d.year, d.month + 1, d.day)
  }

  /** The first of the next month comes right after the last of this one, across years too. */
  lemma MonthStep(year: int, month: int)
    requires 0 <= month < 12
    ensures DayOf(After(Date(year, month, 1))) == DayOf(Date(year, month, 1)) + DaysInMonth(year, month)
  {
    if month == 11 {
      YearStep(year);
      MonthsFillYear(year);
    }
  }

  function LastOf(year: int, month: int): (r: Date)
    requires 0 <= month < 12
    ensures Civil(r)
  {
    Date(year, month, DaysInMonth(year, month))
  }

  lemma MakeDayOf(year: int, month: int, day: int)
    requires 0 <= month < 12
    ensures Carried(year, month, day) == Date(year, month, day)
    ensures Carried(year, month + 1, day) == After(Date(year, month, day))
  {
  }

  /** The day numbered 0 of a month is the last of the month before. */
  lemma DayZero(year: int, month: int)
    requires 0 <= month < 12
    ensures DateOf(MakeDay(year, month, 0)) == var b := Before(Date(year, month, 1)); LastOf(b.year, b.month)
    ensures DateOf(MakeDay(year, month + 1, 0)) == LastOf(year, month)
  {
    DayZeroNext(year, month);
    var b := Before(Date(year, month, 1));
    DayZeroNext(b.year, b.month);
    MakeDayOf(b.year, b.month, 0);
    MakeDayOf(year, month, 0);
    assert Carried(b.year, b.month + 1, 0) == Carried(year, month, 0);
  }

  lemma DayZeroNext(year: int, month: int)
    requires 0 <= month < 12
    ensures DateOf(MakeDay(year, month + 1, 0)) == LastOf(year, month)
  {
    MakeDayOf(year, month, 0);
    LastIsBeforeNext(year, month);
    DateOfDayOf(LastOf(year, month));
  }

  lemma LastIsBeforeNext(year: int, month: int)
    requires 0 <= month < 12
    ensures DayOf(After(Date(year, month, 0))) == DayOf(LastOf(year, month))
  {
    MonthStep(year, month);
  }
}
