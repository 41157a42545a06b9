/** The month grid of the calendar application (desktop-shell/js/modules/apps/calendar-app.js). */
module Calendar {
  import opened Text
  import opened Dates

  /* ---------- date strings ---------- */

  function Numeral(n: int): string
  {
    if n < 0 then "-" + Decimal(-n) else Decimal(n)
  }

  function PadStart(s: string, width: nat, c: char): (r: string)
    ensures |r| == if |s| < width then width else |s|
    decreases width - |s|
  {
    if |s| >= width then s else PadStart([c] + s, width, c)
  }

  function FormatDateString(year: int, month: int, day: int): string
  {
    Numeral(year) + "-" + PadStart(Numeral(month + 1), 2, '0') + "-" + PadStart(Numeral(day), 2, '0')
  }

  function Format(d: Date): string
  {
    FormatDateString(d.year, d.month, d.day)
  }

  function TwoDigits(n: int): string
  {
    PadStart(Numeral(n), 2, '0')
  }

  lemma TwoDigitsAre(n: nat)
    requires n < 100
    ensures TwoDigits(n) == [Digit(n / 10), Digit(n % 10)]
  {
    if n < 10 {
      assert PadStart([Digit(n)], 2, '0') == ['0'] + [Digit(n)];
    } else {
      assert Decimal(n) == Decimal(n / 10) + [Digit(n % 10)];
    }
  }

  lemma NumeralSign(n: int)
    ensures Numeral(n) != [] && (Numeral(n)[0] == '-' <==> n < 0)
  {
    if n >= 0 { assert Decimal(n)[0] in Decimal(n); }
  }

  lemma NumeralInjective(m: int, n: int)
    requires Numeral(m) == Numeral(n)
    ensures m == n
  {
    NumeralSign(m);
    NumeralSign(n);
    if m < 0 {
      assert Numeral(m)[1..] == Decimal(-m) && Numeral(n)[1..] == Decimal(-n);
      DecimalInjective(-m, -n);
    } else {
      DecimalInjective(m, n);
    }
  }

  lemma DigitInjective(m: nat, n: nat)
    requires m < 10 && n < 10 && Digit(m) == Digit(n)
    ensures m == n
  {
  }

  lemma TwoDigitsInjective(m: nat, n: nat)
    requires m < 100 && n < 100 && TwoDigits(m) == TwoDigits(n)
    ensures m == n
  {
    TwoDigitsAre(m);
    TwoDigitsAre(n);
    var tens, units := TwoDigits(m)[0], TwoDigits(m)[1];
    assert tens == Digit(m / 10) == Digit(n / 10);
    assert units == Digit(m % 10) == Digit(n % 10);
    DigitInjective(m / 10, n / 10);
    DigitInjective(m % 10, n % 10);
  }

  lemma PartsAlign(y: string, m: string, d: string)
    requires |m| == 2 && |d| == 2
    ensures var s := y + "-" + m + "-" + d; var n := |s|;
      n == |y| + 6 && s[..n - 6] == y && s[n - 5..n - 3] == m && s[n - 2..] == d
  {
  }

  lemma FormatParts(d: Date)
    requires Civil(d)
    ensures Format(d) == Numeral(d.year) + "-" + TwoDigits(d.month + 1) + "-" + TwoDigits(d.day)
  {
  }

  lemma TwoDigitsLong(d: Date)
    requires Civil(d)
    ensures |TwoDigits(d.month + 1)| == 2 && |TwoDigits(d.day)| == 2
  {
    TwoDigitsAre(d.month + 1);
    TwoDigitsAre(d.day);
  }

  /** Different dates have different strings. */
  lemma FormatInjective(a: Date, b: Date)
    requires Civil(a) && Civil(b) && Format(a) == Format(b)
    ensures a == b
  {
    FormatParts(a);
    FormatParts(b);
    TwoDigitsLong(a);
    TwoDigitsLong(b);
    PartsAlign(Numeral(a.year), TwoDigits(a.month + 1), TwoDigits(a.day));
    PartsAlign(Numeral(b.year), TwoDigits(b.month + 1), TwoDigits(b.day));
    NumeralInjective(a.year, b.year);
    TwoDigitsInjective(a.month + 1, b.month + 1);
    TwoDigitsInjective(a.day, b.day);
  }

  lemma TwoDigitsRead(n: nat)
    requires n < 100
    ensures |TwoDigits(n)| == 2 && Reading(TwoDigits(n)) == n
  {
    TwoDigitsAre(n);
    DigitPlace(n / 10);
    DigitPlace(n % 10);
    var s := TwoDigits(n);
    assert s[..1] == [s[0]] && [s[0]][..0] == "";
    assert Reading([s[0]]) == Place(s[0]);
  }

  /** The parts of a date string, read as numbers: the year, then the month counted from one and the day of the month
      in two digits each. */
  lemma FormatReads(d: Date)
    requires Civil(d)
    ensures var s := Format(d);
      var n := |s|;
      && n > 6 && s[n - 3] == s[n - 6] == '-'
      && (d.year >= 0 ==> Reading(s[..n - 6]) == d.year)
      && (d.year < 0 ==> s[0] == '-' && n > 7 && Reading(s[1..n - 6]) == -d.year)
      && Reading(s[n - 5..n - 3]) == d.month + 1 && Reading(s[n - 2..]) == d.day
  {
    var y, m, day := Numeral(d.year), TwoDigits(d.month + 1), TwoDigits(d.day);
    FormatParts(d);
    TwoDigitsRead(d.month + 1);
    TwoDigitsRead(d.day);
    PartsAlign(y, m, day);
    YearReads(d.year);
    var s := Format(d);
    assert s[|s| - 3] == '-' && s[|s| - 6] == '-';
    assert d.year < 0 ==> s[1..|s| - 6] == y[1..];
  }

  lemma YearReads(year: int)
    ensures year >= 0 ==> Reading(Numeral(year)) == year && Numeral(year) != ""
    ensures year < 0 ==> |Numeral(year)| > 1 && Numeral(year)[0] == '-' && Reading(Numeral(year)[1..]) == -year
  {
    if year >= 0 {
      DecimalReads(year);
    } else {
      DecimalReads(-year);
      assert Numeral(year)[1..] == Decimal(-year);
    }
  }

  /* ---------- the grid ---------- */

  datatype Cell = Cell(dayNum: int, dateStr: string, otherMonth: bool, isToday: bool)

  /** The day of `new Date(year, month, day)`: years 0 to 99 stand for 1900 to 1999. */
  function NewDate(year: int, month: int, day: int): int
  {
    MakeDay(if 0 <= year <= 99 then 1900 + year else year, month, day)
  }

  function CellOn(d: Date, year: int, month: int, today: Date): Cell
  {
    var other := d.year != year || d.month != month;
    Cell(d.day, Format(d), other, !other && d == today)
  }

  function FirstDayIndex(year: int, month: int): (w: int)
    ensures 0 <= w < 7
  {
    WeekDay(NewDate(year, month, 1))
  }

  /** How many days the month has, and how many the one before. */
  function TotalDays(year: int, month: int): (n: int)
    ensures 1 <= n <= 31
  {
    DateOf(NewDate(year, month + 1, 0)).day
  }

  function PrevTotalDays(year: int, month: int): (n: int)
    ensures 1 <= n <= 31
  {
    DateOf(NewDate(year, month, 0)).day
  }

  /** The date written into the k-th cell. */
  function Layout(year: int, month: int, first: int, total: int, prevTotal: int, k: int): Date
  {
    var before, after := Before(Date(year, month, 1)), After(Date(year, month, 1));
    if k < first then Date(before.year, before.month, prevTotal - (first - 1 - k))
    else if k < first + total then Date(year, month, k - first + 1)
    else Date(after.year, after.month, k - first - total + 1)
  }

  function CellDates(dateAt: int -> Date): (dates: seq<Date>)
    ensures |dates| == 42 && forall k :: 0 <= k < 42 ==> dates[k] == dateAt(k)
  {
    seq(42, k requires 0 <= k < 42 => dateAt(k))
  }

  function LayoutAll(year: int, month: int, first: int, total: int, prevTotal: int): (dates: seq<Date>)
    ensures |dates| == 42 && forall k :: 0 <= k < 42 ==> dates[k] == Layout(year, month, first, total, prevTotal, k)
  {
    CellDates(k => Layout(year, month, first, total, prevTotal, k))
  }

  lemma LayoutTail(year: int, month: int, first: int, total: int, prevTotal: int, k: int, day: int)
    requires k == first + total + day - 1 && total >= 0 && day >= 1
    ensures Layout(year, month, first, total, prevTotal, k) ==
      Date(if month == 11 then year + 1 else year, if month == 11 then 0 else month + 1, day)
  {
  }

  function GridDates(year: int, month: int): (dates: seq<Date>)
    ensures |dates| == 42
  {
    LayoutAll(year, month, FirstDayIndex(year, month), TotalDays(year, month), PrevTotalDays(year, month))
  }

  /** How the dates of this month are drawn. */
  function CellOf(year: int, month: int, today: Date): Date -> Cell
  {
    d => CellOn(d, year, month, today)
  }

  function Drawn(dates: seq<Date>, cellOf: Date -> Cell): (cells: seq<Cell>)
    ensures |cells| == |dates| && forall k :: 0 <= k < |dates| ==> cells[k] == cellOf(dates[k])
  {
    seq(|dates|, k requires 0 <= k < |dates| => cellOf(dates[k]))
  }

  lemma DrawnSnoc(dates: seq<Date>, cellOf: Date -> Cell, k: nat)
    requires k < |dates|
    ensures Drawn(dates[..k + 1], cellOf) == Drawn(dates[..k], cellOf) + [cellOf(dates[k])]
  {
  }

  function Grid(year: int, month: int, today: Date): (cells: seq<Cell>)
    ensures |cells| == 42
  {
    Drawn(GridDates(year, month), CellOf(year, month, today))
  }

  /** 42 civil dates in a row. */
  function DatesFrom(start: int): (dates: seq<Date>)
    ensures |dates| == 42 && forall k :: 0 <= k < 42 ==> dates[k] == DateOf(start + k)
  {
    CellDates(k => DateOf(start + k))
  }

  function Start(year: int, month: int): int
    requires 0 <= month < 12
  {
    DayOf(Date(year, month, 1)) - FirstDayIndex(year, month)
  }

  lemma SundayBefore(day: int)
    ensures WeekDay(day - WeekDay(day)) == 0
  {
    assert day - WeekDay(day) + 4 == 7 * ((day + 4) / 7);
  }

  lemma StartIsSunday(year: int, month: int)
    requires 0 <= month < 12 && !(0 <= year <= 99)
    ensures WeekDay(Start(year, month)) == 0
  {
    MakeDayOf(year, month, 1);
    SundayBefore(DayOf(Date(year, month, 1)));
  }

  lemma DayInMonth(year: int, month: int, day: int)
    requires 0 <= month < 12
    ensures DayOf(Date(year, month, day)) == DayOf(Date(year, month, 1)) + day - 1
  {
  }

  /** The month before ends where this one begins. */
  lemma MonthStepBack(year: int, month: int)
    requires 0 <= month < 12
    ensures var b := Before(Date(year, month, 1));
      0 <= b.month < 12 && DayOf(Date(b.year, b.month, 1)) + DaysInMonth(b.year, b.month) == DayOf(Date(year, month, 1))
  {
    var b := Before(Date(year, month, 1));
    MonthStep(b.year, b.month);
  }

  lemma LeadingDay(year: int, month: int, first: int, k: int)
    requires 0 <= month < 12 && 0 <= k < first < 7
    ensures var b := Before(Date(year, month, 1));
      var d := Date(b.year, b.month, DaysInMonth(b.year, b.month) - (first - 1 - k));
      Civil(d) && DayOf(d) == DayOf(Date(year, month, 1)) - first + k
  {
    var b := Before(Date(year, month, 1));
    MonthStepBack(year, month);
    DayInMonth(b.year, b.month, DaysInMonth(b.year, b.month) - (first - 1 - k));
  }

  lemma TrailingDay(year: int, month: int, day: int)
    requires 0 <= month < 12 && 1 <= day <= 28
    ensures var a := After(Date(year, month, 1));
      var d := Date(a.year, a.month, day);
      Civil(d) && DayOf(d) == DayOf(Date(year, month, 1)) + DaysInMonth(year, month) + day - 1
  {
    var a := After(Date(year, month, 1));
    MonthStep(year, month);
    DayInMonth(a.year, a.month, day);
  }

  /** The dates are consecutive, given the right lengths of the months. */
  lemma LayoutLaw(year: int, month: int, first: int, k: int)
    requires 0 <= month < 12 && 0 <= first < 7 && 0 <= k < 42
    ensures var b := Before(Date(year, month, 1));
      var d := Layout(year, month, first, DaysInMonth(year, month), DaysInMonth(b.year, b.month), k);
      Civil(d) && DayOf(d) == DayOf(Date(year, month, 1)) - first + k
  {
    var total := DaysInMonth(year, month);
    if k < first {
      LeadingDay(year, month, first, k);
    } else if k < first + total {
      DayInMonth(year, month, k - first + 1);
    } else {
      TrailingDay(year, month, k - first - total + 1);
    }
  }

  lemma LengthsAreRight(year: int, month: int)
    requires 0 <= month < 12 && !(0 <= year <= 99)
    ensures TotalDays(year, month) == DaysInMonth(year, month)
    ensures PrevTotalDays(year, month) == var b := Before(Date(year, month, 1)); DaysInMonth(b.year, b.month)
  {
    DayZero(year, month);
  }

  /** The k-th cell bears the k-th date from the Sunday on or before the first of the month. */
  lemma GridDateLaw(year: int, month: int, k: int)
    requires 0 <= month < 12 && !(0 <= year <= 99) && 0 <= k < 42
    ensures GridDates(year, month)[k] == DatesFrom(Start(year, month))[k]
  {
    GridDay(year, month, k);
    DayOfInjective(GridDates(year, month)[k], DatesFrom(Start(year, month))[k]);
  }

  lemma GridDay(year: int, month: int, k: int)
    requires 0 <= month < 12 && !(0 <= year <= 99) && 0 <= k < 42
    ensures Civil(GridDates(year, month)[k]) && DayOf(GridDates(year, month)[k]) == Start(year, month) + k
  {
    LengthsAreRight(year, month);
    LayoutLaw(year, month, FirstDayIndex(year, month), k);
  }

  lemma GridIsRight(year: int, month: int)
    requires 0 <= month < 12 && !(0 <= year <= 99)
    ensures WeekDay(Start(year, month)) == 0 && GridDates(year, month) == DatesFrom(Start(year, month))
  {
    StartIsSunday(year, month);
    forall k | 0 <= k < 42 ensures GridDates(year, month)[k] == DatesFrom(Start(year, month))[k] {
      GridDateLaw(year, month, k);
    }
  }

  lemma LeapShift(a: int, b: int, month: int)
    requires 0 <= month <= 12
    ensures DaysBefore(a, month) - DaysBefore(b, month) == if month >= 2 then DaysInYear(a) - DaysInYear(b) else 0
  {
  }

  lemma DaysPerCenturies(year: int)
    requires 0 <= year <= 99
    ensures DayFromYear(1900 + year) - DayFromYear(year) == if year == 0 then 693961 else 693960
  {
  }

  lemma WeekDayShift(a: int, b: int)
    requires 7 * 99137 < b - a < 7 * 99138
    ensures WeekDay(a) != WeekDay(b)
  {
  }

  lemma CenturyDays(year: int, month: int)
    requires 0 <= year <= 99 && 0 <= month < 12
    ensures 7 * 99137 < DayOf(Date(1900 + year, month, 1)) - DayOf(Date(year, month, 1)) < 7 * 99138
  {
    LeapShift(1900 + year, year, month);
    DaysPerCenturies(year);
    CenturyLengths(year);
  }

  lemma CenturyLengths(year: int)
    requires 0 <= year <= 99
    ensures DaysInYear(1900 + year) - DaysInYear(year) == if year == 0 then -1 else 0
  {
  }

  /** Dates of the years 0 to 99 fall on other days of the week than those of 1900 to 1999. */
  lemma CenturyShift(year: int, month: int)
    requires 0 <= year <= 99 && 0 <= month < 12
    ensures WeekDay(DayOf(Date(1900 + year, month, 1))) != WeekDay(DayOf(Date(year, month, 1)))
  {
    CenturyDays(year, month);
    WeekDayShift(DayOf(Date(year, month, 1)), DayOf(Date(1900 + year, month, 1)));
  }

  /** The grid shows 42 consecutive civil dates from a Sunday exactly when the year is not one of 0 to 99. */
  lemma GridLaw(year: int, month: int, today: Date)
    requires 0 <= month < 12
    ensures (exists start :: WeekDay(start) == 0
              && Grid(year, month, today) == Drawn(DatesFrom(start), CellOf(year, month, today)))
      <==> !(0 <= year <= 99)
  {
    if 0 <= year <= 99 {
      forall start | WeekDay(start) == 0
        ensures Grid(year, month, today) != Drawn(DatesFrom(start), CellOf(year, month, today))
      {
        FirstMisplaced(year, month, today, start);
      }
    } else {
      GridIsRight(year, month);
    }
  }

  lemma FirstMisplaced(year: int, month: int, today: Date, start: int)
    requires 0 <= month < 12 && 0 <= year <= 99 && WeekDay(start) == 0
    ensures Grid(year, month, today) != Drawn(DatesFrom(start), CellOf(year, month, today))
  {
    var first := FirstDayIndex(year, month);
    FirstCell(year, month);
    FirstElsewhere(year, month, start);
    NotThere(start, first, Date(year, month, 1));
    DrawingTells(GridDates(year, month), DatesFrom(start), year, month, today, first);
  }

  /** The cell of the first is not its day, counted from a Sunday. */
  lemma FirstElsewhere(year: int, month: int, start: int)
    requires 0 <= month < 12 && 0 <= year <= 99 && WeekDay(start) == 0
    ensures DayOf(Date(year, month, 1)) != start + FirstDayIndex(year, month)
  {
    WeekDayFrom(start, FirstDayIndex(year, month));
    FirstColumn(year, month);
    CenturyShift(year, month);
  }

  lemma NotThere(start: int, k: int, d: Date)
    requires 0 <= k < 42 && 0 <= d.month < 12 && DayOf(d) != start + k
    ensures Civil(DatesFrom(start)[k]) && DatesFrom(start)[k] != d
  {
    assert DatesFrom(start)[k] == DateOf(start + k);
  }

  /** Cells of different dates differ. */
  lemma CellsTell(a: Date, b: Date, year: int, month: int, today: Date)
    requires Civil(a) && Civil(b)
    ensures CellOn(a, year, month, today).dateStr == CellOn(b, year, month, today).dateStr <==> a == b
  {
    if Format(a) == Format(b) { FormatInjective(a, b); }
  }

  /** A drawing tells which date stands where. */
  lemma DrawingTells(a: seq<Date>, b: seq<Date>, year: int, month: int, today: Date, k: nat)
    requires k < |a| && k < |b| && Civil(a[k]) && Civil(b[k])
    requires a[k] != b[k]
    ensures Drawn(a, CellOf(year, month, today)) != Drawn(b, CellOf(year, month, today))
  {
    CellsTell(a[k], b[k], year, month, today);
  }

  lemma WeekDayFrom(start: int, k: int)
    requires WeekDay(start) == 0 && 0 <= k < 7
    ensures WeekDay(start + k) == k
  {
  }

  lemma FirstColumn(year: int, month: int)
    requires 0 <= month < 12 && 0 <= year <= 99
    ensures FirstDayIndex(year, month) == WeekDay(DayOf(Date(1900 + year, month, 1)))
  {
    MakeDayOf(1900 + year, month, 1);
  }

  lemma FirstCell(year: int, month: int)
    ensures GridDates(year, month)[FirstDayIndex(year, month)] == Date(year, month, 1)
  {
  }

  /** What the k-th cell shows: the day and the date string of the k-th day from the Sunday on or before the first of
      the month, as of another month exactly if it is. */
  lemma CellShows(year: int, month: int, today: Date, k: nat)
    requires 0 <= month < 12 && !(0 <= year <= 99) && k < 42
    ensures var d := DateOf(Start(year, month) + k);
      var cell := Grid(year, month, today)[k];
      && Civil(d) && DayOf(d) == DayOf(Date(year, month, 1)) - WeekDay(DayOf(Date(year, month, 1))) + k
      && cell.dayNum == d.day && cell.dateStr == Format(d) && (cell.otherMonth <==> d.year != year || d.month != month)
  {
    MakeDayOf(year, month, 1);
    GridIsRight(year, month);
    assert DatesFrom(Start(year, month))[k] == DateOf(Start(year, month) + k);
  }

  /** Every day of the shown month stands in exactly one cell, and only those days are shown as its own. */
  lemma EachDayOnce(year: int, month: int, today: Date)
    requires 0 <= month < 12 && !(0 <= year <= 99)
    ensures forall d: Date :: Civil(d) && d.year == year && d.month == month ==>
      exists k :: HoldsOnly(Grid(year, month, today), k, d)
    ensures forall k :: 0 <= k < 42 && !Grid(year, month, today)[k].otherMonth ==>
      exists d :: Civil(d) && d.year == year && d.month == month && HoldsOnly(Grid(year, month, today), k, d)
  {
    var cells, start := Grid(year, month, today), Start(year, month);
    var dates := DatesFrom(start);
    GridIsRight(year, month);
    forall d: Date | Civil(d) && d.year == year && d.month == month ensures exists k :: HoldsOnly(cells, k, d) {
      var k := OwnDay(d);
      DayHeldOnce(start, year, month, today, k);
      assert HoldsOnly(cells, k, d);
    }
    forall k | 0 <= k < 42 && !cells[k].otherMonth
      ensures exists d :: Civil(d) && d.year == year && d.month == month && HoldsOnly(cells, k, d)
    {
      DayHeldOnce(start, year, month, today, k);
      assert HoldsOnly(cells, k, dates[k]);
    }
  }

  lemma OwnDay(d: Date) returns (k: nat)
    requires Civil(d) && !(0 <= d.year <= 99)
    ensures k < 42 && GridDates(d.year, d.month)[k] == d
  {
    var first := FirstDayIndex(d.year, d.month);
    LengthsAreRight(d.year, d.month);
    k := first + d.day - 1;
    LayoutMiddle(d, first, TotalDays(d.year, d.month), PrevTotalDays(d.year, d.month));
  }

  lemma LayoutMiddle(d: Date, first: int, total: int, prevTotal: int)
    requires 1 <= d.day <= total
    ensures Layout(d.year, d.month, first, total, prevTotal, first + d.day - 1) == d
  {
  }

  lemma DayHeldOnce(start: int, year: int, month: int, today: Date, k: nat)
    requires k < 42 && DatesFrom(start)[k].year == year && DatesFrom(start)[k].month == month
    ensures HoldsOnly(Drawn(DatesFrom(start), CellOf(year, month, today)), k, DatesFrom(start)[k])
  {
    var dates := DatesFrom(start);
    var cells := Drawn(dates, CellOf(year, month, today));
    forall j | 0 <= j < 42 ensures cells[j].dateStr == Format(dates[k]) <==> j == k {
      CellsTell(dates[j], dates[k], year, month, today);
      assert DayOf(dates[j]) == start + j && DayOf(dates[k]) == start + k;
    }
  }

  /** This cell, and no other, is the date's. */
  ghost predicate HoldsOnly(cells: seq<Cell>, k: int, d: Date)
  {
    && 0 <= k < |cells| && cells[k].dayNum == d.day && !cells[k].otherMonth
    && forall j :: 0 <= j < |cells| ==> (cells[j].dateStr == Format(d) <==> j == k)
  }

  lemma HoldsWhatIsDrawn(start: int, year: int, month: int, today: Date, k: nat)
    requires k < 42 && Civil(today) && today.year == year && today.month == month
    ensures HoldsOnly(Drawn(DatesFrom(start), CellOf(year, month, today)), k, today) <==> DatesFrom(start)[k] == today
  {
    var d := DatesFrom(start)[k];
    assert d == DateOf(start + k);
    CellsTell(d, today, year, month, today);
    if d == today { DayHeldOnce(start, year, month, today, k); }
  }

  lemma DrawnMarks(start: int, year: int, month: int, today: Date, k: nat)
    requires k < 42
    ensures var d := DatesFrom(start)[k];
      Drawn(DatesFrom(start), CellOf(year, month, today))[k].isToday <==>
        d == today && d.year == year && d.month == month
  {
  }

  /** The cell marked as today is the one that holds today, in its own month; in other months there is none. */
  lemma TodayMarked(year: int, month: int, today: Date, k: nat)
    requires 0 <= month < 12 && !(0 <= year <= 99) && Civil(today) && k < 42
    ensures Grid(year, month, today)[k].isToday <==>
      today.year == year && today.month == month && HoldsOnly(Grid(year, month, today), k, today)
  {
    var start := Start(year, month);
    GridIsRight(year, month);
    DrawnMarks(start, year, month, today, k);
    if today.year == year && today.month == month { HoldsWhatIsDrawn(start, year, month, today, k); }
  }

  /* ---------- the application ---------- */

  datatype Click = Previous | Following

  function Clicked(view: Date, click: Click): Date
  {
    if click.Previous? then Before(view) else After(view)
  }

  function Shown(view: Date, clicks: seq<Click>): Date
  {
    if clicks == [] then view else Clicked(Shown(view, clicks[..|clicks| - 1]), clicks[|clicks| - 1])
  }

  function MonthIndex(view: Date): int
  {
    12 * view.year + view.month
  }

  function Count(clicks: seq<Click>, click: Click): int
  {
    multiset(clicks)[click]
  }

  lemma {:induction false} ShownIndex(view: Date, clicks: seq<Click>)
    requires 0 <= view.month < 12
    ensures var s := Shown(view, clicks);
      0 <= s.month < 12 && s.day == view.day
      && MonthIndex(s) == MonthIndex(view) + Count(clicks, Following) - Count(clicks, Previous)
  {
    if clicks != [] {
      var init, last := clicks[..|clicks| - 1], clicks[|clicks| - 1];
      ShownIndex(view, init);
      assert clicks == init + [last];
      assert multiset(clicks) == multiset(init)[last := multiset(init)[last] + 1];
    }
  }

  lemma IndexTells(a: Date, b: Date)
    requires 0 <= a.month < 12 && 0 <= b.month < 12 && a.day == b.day
    ensures a == b <==> MonthIndex(a) == MonthIndex(b)
  {
  }

  /** Two runs of clicks show the same month exactly when they went equally far; so previous and next undo each other
      wherever they stand. */
  lemma ClicksCancel(view: Date, a: seq<Click>, b: seq<Click>)
    requires 0 <= view.month < 12
    ensures Shown(view, a) == Shown(view, b) <==>
      Count(a, Following) - Count(a, Previous) == Count(b, Following) - Count(b, Previous)
  {
    ShownIndex(view, a);
    ShownIndex(view, b);
    IndexTells(Shown(view, a), Shown(view, b));
  }

  class CalendarApp {
    const today: Date
    var currentYear: int
    var currentMonth: int
    var cells: seq<Cell>

    predicate Valid()
      reads this
    {
      0 <= currentMonth < 12
    }

    ghost function View(): Date
      reads this
    {
      Date(currentYear, currentMonth, 1)
    }

    ghost predicate Rendered()
      reads this
    {
      cells == Grid(currentYear, currentMonth, today)
    }

    constructor (today: Date)
      requires Civil(today)
      ensures Valid() && View() == Date(today.year, today.month, 1) && Rendered() && this.today == today
    {
      this.today := today;
      currentYear, currentMonth := today.year, today.month;
      new;
      RenderMonthGrid();
    }

    method RenderMonthGrid()
      requires Valid()
      modifies this`cells
      ensures Rendered()
    {
      var firstDayIndex := FirstDayIndex(currentYear, currentMonth);
      var totalDays := TotalDays(currentYear, currentMonth);
      var prevTotalDays := PrevTotalDays(currentYear, currentMonth);
      RenderDays(firstDayIndex, totalDays, prevTotalDays);
    }

    method RenderDays(firstDayIndex: int, totalDays: int, prevTotalDays: int)
      requires Valid() && 0 <= firstDayIndex < 7 && 1 <= totalDays <= 31
      modifies this`cells
      ensures cells ==
        Drawn(LayoutAll(currentYear, currentMonth, firstDayIndex, totalDays, prevTotalDays),
              CellOf(currentYear, currentMonth, today))
    {
      ghost var dates := LayoutAll(currentYear, currentMonth, firstDayIndex, totalDays, prevTotalDays);
      ghost var cellOf := CellOf(currentYear, currentMonth, today);
      cells := [];
      var i := firstDayIndex - 1;
      while i >= 0
        invariant |cells| == firstDayIndex - 1 - i && -1 <= i
        invariant cells == Drawn(dates[..|cells|], cellOf)
      {
        var dayNum := prevTotalDays - i;
        var prevMonth := if currentMonth == 0 then 11 else currentMonth - 1;
        var prevYear := if currentMonth == 0 then currentYear - 1 else currentYear;
        CreateDayCell(dates, cellOf, Date(prevYear, prevMonth, dayNum), true, false);
        i := i - 1;
      }
      var dayNum := 1;
      while dayNum <= totalDays
        invariant 1 <= dayNum <= totalDays + 1 && |cells| == firstDayIndex + dayNum - 1
        invariant cells == Drawn(dates[..|cells|], cellOf)
      {
        var isToday := currentYear == today.year && currentMonth == today.month && dayNum == today.day;
        CreateDayCell(dates, cellOf, Date(currentYear, currentMonth, dayNum), false, isToday);
        dayNum := dayNum + 1;
      }
      var nextMonthDay := 1;
      while |cells| < 42
        invariant |cells| == firstDayIndex + totalDays + nextMonthDay - 1 <= 42 && 1 <= nextMonthDay
        invariant cells == Drawn(dates[..|cells|], cellOf)
        decreases 42 - |cells|
      {
        var nextMonth := if currentMonth == 11 then 0 else currentMonth + 1;
        var nextYear := if currentMonth == 11 then currentYear + 1 else currentYear;
        LayoutTail(currentYear, currentMonth, firstDayIndex, totalDays, prevTotalDays, |cells|, nextMonthDay);
        assert dates[|cells|] == Layout(currentYear, currentMonth, firstDayIndex, totalDays, prevTotalDays, |cells|);
        assert Date(nextYear, nextMonth, nextMonthDay) ==
          Layout(currentYear, currentMonth, firstDayIndex, totalDays, prevTotalDays, |cells|);
        CreateDayCell(dates, cellOf, Date(nextYear, nextMonth, nextMonthDay), true, false);
        nextMonthDay := nextMonthDay + 1;
      }
      assert dates[..42] == dates;
    }

    method CreateDayCell(ghost dates: seq<Date>, ghost cellOf: Date -> Cell, d: Date, otherMonth: bool, isToday: bool)
      requires |cells| < |dates| && dates[|cells|] == d
      requires cells == Drawn(dates[..|cells|], cellOf)
      requires cellOf == CellOf(currentYear, currentMonth, today)
      requires otherMonth <==> d.year != currentYear || d.month != currentMonth
      requires isToday <==> !otherMonth && d == today
      modifies this`cells
      ensures |cells| == |old(cells)| + 1
      ensures cells == Drawn(dates[..|cells|], cellOf)
    {
      DrawnSnoc(dates, cellOf, |cells|);
      cells := cells + [Cell(d.day, FormatDateString(d.year, d.month, d.day), otherMonth, isToday)];
    }

    method PreviousMonth()
      requires Valid()
      modifies this
      ensures Valid() && View() == Clicked(old(View()), Previous) && Rendered()
    {
      if currentMonth == 0 {
        currentMonth := 11;
        currentYear := currentYear - 1;
      } else {
        currentMonth := currentMonth - 1;
      }
      RenderMonthGrid();
    }

    method NextMonth()
      requires Valid()
      modifies this
      ensures Valid() && View() == Clicked(old(View()), Following) && Rendered()
    {
      if currentMonth == 11 {
        currentMonth := 0;
        currentYear := currentYear + 1;
      } else {
        currentMonth := currentMonth + 1;
      }
      RenderMonthGrid();
    }

    method JumpToday()
      requires Civil(today)
      modifies this
      ensures Valid() && View() == Date(today.year, today.month, 1) && Rendered()
    {
      currentYear := today.year;
      currentMonth := today.month;
      RenderMonthGrid();
    }
  }
}
