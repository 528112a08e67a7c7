/** Day-level calendar arithmetic of the `Date` extension.

    A date is modelled as a whole day: an integer day number in the proleptic
    Gregorian calendar, where day 1 is 1 January of year 1 (a Monday), so day 0
    is a Sunday. Weekdays follow Foundation's numbering, 1 = Sunday ... 7 = Saturday.
    The calendar is fixed (Gregorian, no time zones, no daylight saving time).
 */
module CalendarMath {

  /** A year/month/day triple, as `Calendar.component` reports it. */
  datatype Civil = Civil(year: int, month: int, day: int)

  predicate IsLeapYear(year: int) {
    (year % 4 == 0 && year % 100 != 0) || year % 400 == 0
  }

  function DaysInYear(year: int): int {
    if IsLeapYear(year) then 366 else 365
  }

  function DaysInMonth(year: int, month: int): (n: int)
    requires 1 <= month <= 12
    ensures 28 <= n <= 31
  {
    if month == 2 then (if IsLeapYear(year) then 29 else 28)
    else if month == 4 || month == 6 || month == 9 || month == 11 then 30
    else 31
  }

  /** Days of `year` before the first of `month`; month 13 stands for the end of the year. */
  function DaysBeforeMonth(year: int, month: int): int
    requires 1 <= month <= 13
  {
    var common :=
      if month == 1 then 0 else if month == 2 then 31 else if month == 3 then 59
      else if month == 4 then 90 else if month == 5 then 120 else if month == 6 then 151
      else if month == 7 then 181 else if month == 8 then 212 else if month == 9 then 243
      else if month == 10 then 273 else if month == 11 then 304 else if month == 12 then 334
      else 365;
    common + (if IsLeapYear(year) && month > 2 then 1 else 0)
  }

  /** Days of all years before `year`, counted from 1 January of year 1. */
  function DaysBeforeYear(year: int): int {
    var p := year - 1;
    365 * p + p / 4 - p / 100 + p / 400
  }

  predicate ValidCivil(c: Civil) {
    1 <= c.month <= 12 && 1 <= c.day <= DaysInMonth(c.year, c.month)
  }

  /** The day number of a calendar date. */
  function DayNumber(c: Civil): int
    requires 1 <= c.month <= 12
  {
    DaysBeforeYear(c.year) + DaysBeforeMonth(c.year, c.month) + c.day
  }

  /** The first day of the month after `year`/`month`, rolling December over to January. */
  function FirstOfNextMonth(year: int, month: int): Civil
    requires 1 <= month <= 12
  {
    if month == 12 then Civil(year + 1, 1, 1) else Civil(year, month + 1, 1)
  }

  lemma MonthStep(year: int, month: int)
    requires 1 <= month <= 12
    ensures DaysBeforeMonth(year, month + 1) == DaysBeforeMonth(year, month) + DaysInMonth(year, month)
    ensures DaysBeforeMonth(year, 13) == DaysInYear(year)
  {
  }

  lemma DaysBeforeMonthMonotonic(year: int, m1: int, m2: int)
    requires 1 <= m1 <= m2 <= 13
    ensures DaysBeforeMonth(year, m1) <= DaysBeforeMonth(year, m2)
  {
  }

  lemma Div4(y: int) ensures y / 4 - (y - 1) / 4 == if y % 4 == 0 then 1 else 0 {}
  lemma Div100(y: int) ensures y / 100 - (y - 1) / 100 == if y % 100 == 0 then 1 else 0 {}
  lemma Div400(y: int) ensures y / 400 - (y - 1) / 400 == if y % 400 == 0 then 1 else 0 {}

  /** Going from one year to the next adds exactly that year's length. */
  lemma YearStep(year: int)
    ensures DaysBeforeYear(year + 1) == DaysBeforeYear(year) + DaysInYear(year)
  {
    var leap4 := year / 4 - (year - 1) / 4;
    var leap100 := year / 100 - (year - 1) / 100;
    var leap400 := year / 400 - (year - 1) / 400;
    Div4(year);
    Div100(year);
    Div400(year);
    DivisibilityChain(year);
    assert DaysBeforeYear(year + 1) - DaysBeforeYear(year) == 365 + leap4 - leap100 + leap400;
    if IsLeapYear(year) {
      assert leap4 - leap100 + leap400 == 1;
    } else {
      assert leap4 - leap100 + leap400 == 0;
    }
  }

  lemma DivisibilityChain(y: int)
    ensures y % 400 == 0 ==> y % 100 == 0
    ensures y % 100 == 0 ==> y % 4 == 0
  {
    if y % 400 == 0 {
      var q := y / 400;
      assert y == 400 * q;
      assert y / 100 == 4 * q;
    }
    if y % 100 == 0 {
      var q := y / 100;
      assert y == 100 * q;
      assert y / 4 == 25 * q;
    }
  }

  lemma {:induction false} DaysBeforeYearMonotonic(y1: int, y2: int)
    requires y1 <= y2
    ensures DaysBeforeYear(y1) <= DaysBeforeYear(y2)
    decreases y2 - y1
  {
    if y1 < y2 {
      DaysBeforeYearMonotonic(y1, y2 - 1);
      YearStep(y2 - 1);
    }
  }

  /** Every 400-year era holds 146097 days. */
  lemma EraStart(era: int)
    ensures DaysBeforeYear(400 * era + 1) == 146097 * era
  {
    assert (400 * era) / 4 == 100 * era;
    assert (400 * era) / 100 == 4 * era;
    assert (400 * era) / 400 == era;
  }

  /** Finds the year holding the `dayOfYear`-th day counted from 1 January of `year`. */
  function FindYear(year: int, dayOfYear: int): (r: (int, int))
    requires dayOfYear >= 1
    ensures 1 <= r.1 <= DaysInYear(r.0)
    ensures DaysBeforeYear(r.0) + r.1 == DaysBeforeYear(year) + dayOfYear
    decreases dayOfYear
  {
    if dayOfYear <= DaysInYear(year) then (year, dayOfYear)
    else
      YearStep(year);
      FindYear(year + 1, dayOfYear - DaysInYear(year))
  }

  /** Finds the month holding the `dayOfMonth`-th day counted from the first of `month`. */
  function FindMonth(year: int, month: int, dayOfMonth: int): (r: (int, int))
    requires 1 <= month <= 12 && 1 <= dayOfMonth
    requires DaysBeforeMonth(year, month) + dayOfMonth <= DaysInYear(year)
    ensures 1 <= r.0 <= 12 && 1 <= r.1 <= DaysInMonth(year, r.0)
    ensures DaysBeforeMonth(year, r.0) + r.1 == DaysBeforeMonth(year, month) + dayOfMonth
    decreases 12 - month
  {
    MonthStep(year, month);
    if dayOfMonth <= DaysInMonth(year, month) then (month, dayOfMonth)
    else FindMonth(year, month + 1, dayOfMonth - DaysInMonth(year, month))
  }

  /** Every day number is the day number of some valid date: the era, then the year within
      the era, then the month within the year. */
  lemma CivilExists(date: int)
    ensures exists c :: ValidCivil(c) && DayNumber(c) == date
  {
    var era := (date - 1) / 146097;
    var rest := (date - 1) % 146097;
    EraStart(era);
    var yd := FindYear(400 * era + 1, rest + 1);
    var md := FindMonth(yd.0, 1, yd.1);
    var c := Civil(yd.0, md.0, md.1);
    assert ValidCivil(c) && DayNumber(c) == date;
  }

  /** The calendar date of a day number: `Calendar.component(.year/.month/.day, from:)`. */
  function ToCivil(date: int): (c: Civil)
    ensures ValidCivil(c) && DayNumber(c) == date
  {
    CivilExists(date);
    DayNumberInjectiveAll();
    var c :| ValidCivil(c) && DayNumber(c) == date;
    c
  }

  /** The first of the next month comes exactly one month length after the first of this month. */
  lemma NextMonthStep(year: int, month: int)
    requires 1 <= month <= 12
    ensures DayNumber(FirstOfNextMonth(year, month)) == DayNumber(Civil(year, month, 1)) + DaysInMonth(year, month)
  {
    MonthStep(year, month);
    YearStep(year);
  }

  lemma DayNumberBounds(c: Civil)
    requires ValidCivil(c)
    ensures DaysBeforeYear(c.year) < DayNumber(c) <= DaysBeforeYear(c.year + 1)
    ensures DayNumber(c) <= DaysBeforeYear(c.year) + DaysBeforeMonth(c.year, c.month + 1)
  {
    MonthStep(c.year, c.month);
    DaysBeforeMonthMonotonic(c.year, c.month + 1, 13);
    YearStep(c.year);
  }

  /** Distinct valid dates have distinct day numbers. */
  lemma DayNumberInjective(a: Civil, b: Civil)
    requires ValidCivil(a) && ValidCivil(b) && DayNumber(a) == DayNumber(b)
    ensures a == b
  {
    if a.year < b.year || (a.year == b.year && a.month < b.month) {
      DayNumberOrder(a, b);
    } else if b.year < a.year || (a.year == b.year && b.month < a.month) {
      DayNumberOrder(b, a);
    }
  }

  /** A date in an earlier year, or an earlier month of the same year, has a smaller day number. */
  lemma DayNumberOrder(x: Civil, y: Civil)
    requires ValidCivil(x) && ValidCivil(y)
    requires x.year < y.year || (x.year == y.year && x.month < y.month)
    ensures DayNumber(x) < DayNumber(y)
  {
    DayNumberBounds(x);
    if x.year < y.year {
      DayNumberBounds(y);
      DaysBeforeYearMonotonic(x.year + 1, y.year);
    } else {
      DaysBeforeMonthMonotonic(x.year, x.month + 1, y.month);
    }
  }

  lemma DayNumberInjectiveAll()
    ensures forall a, b :: ValidCivil(a) && ValidCivil(b) && DayNumber(a) == DayNumber(b) ==> a == b
  {
    forall a, b | ValidCivil(a) && ValidCivil(b) && DayNumber(a) == DayNumber(b)
      ensures a == b
    {
      DayNumberInjective(a, b);
    }
  }

  /** Converting a valid date to its day number and back gives the date again. */
  lemma {:induction false} CivilRoundTrip(c: Civil)
    requires ValidCivil(c)
    ensures ToCivil(DayNumber(c)) == c
  {
    DayNumberInjective(ToCivil(DayNumber(c)), c);
  }

  /** `startOfDay`: dates are whole days already. */
  function StartOfDay(date: int): (r: int)
    ensures r <= date < r + 1
  {
    date
  }

  /** `endOfDay`: the exclusive end of the day, i.e. the start of the next day. */
  function EndOfDay(date: int): (r: int)
    ensures ToCivil(r) == NextCivilDay(ToCivil(date))
  {
    NextDay(date);
    date + 1
  }

  /** The calendar date after `c`: the next day of the month, or the first of the next month. */
  function NextCivilDay(c: Civil): Civil
    requires ValidCivil(c)
  {
    if c.day < DaysInMonth(c.year, c.month) then Civil(c.year, c.month, c.day + 1)
    else FirstOfNextMonth(c.year, c.month)
  }

  lemma NextDay(date: int)
    ensures ToCivil(date + 1) == NextCivilDay(ToCivil(date))
  {
    if ToCivil(date).day < DaysInMonth(ToCivil(date).year, ToCivil(date).month) {
      NextDayInMonth(date);
    } else {
      NextDayNewMonth(date);
    }
  }

  lemma NextDayInMonth(date: int)
    requires ToCivil(date).day < DaysInMonth(ToCivil(date).year, ToCivil(date).month)
    ensures ToCivil(date + 1) == Civil(ToCivil(date).year, ToCivil(date).month, ToCivil(date).day + 1)
  {
    assert DayNumber(Civil(ToCivil(date).year, ToCivil(date).month, ToCivil(date).day + 1)) == date + 1;
    CivilRoundTrip(Civil(ToCivil(date).year, ToCivil(date).month, ToCivil(date).day + 1));
  }

  lemma NextDayNewMonth(date: int)
    requires ToCivil(date).day == DaysInMonth(ToCivil(date).year, ToCivil(date).month)
    ensures ToCivil(date + 1) == FirstOfNextMonth(ToCivil(date).year, ToCivil(date).month)
  {
    assert date + 1 == EndOfMonth(date);
  }

  /** `Calendar.component(.weekday, from:)`: 1 = Sunday ... 7 = Saturday. */
  function Weekday(date: int): (w: int)
    ensures 1 <= w <= 7
  {
    date % 7 + 1
  }

  /** Rounding a day back to the Sunday of its week, and forward to the Saturday of its week. */
  lemma WeekArithmetic(d: int)
    ensures Weekday(d - (Weekday(d) - 1)) == 1
    ensures Weekday(d + (7 - Weekday(d))) == 7
    ensures Weekday(d + 1) == if Weekday(d) == 7 then 1 else Weekday(d) + 1
  {
  }

  /** `startOfMonth`: the first day of the month holding `date`. */
  function StartOfMonth(date: int): (r: int)
    ensures r <= date
    ensures ToCivil(r) == Civil(ToCivil(date).year, ToCivil(date).month, 1)
  {
    var c := ToCivil(date);
    CivilRoundTrip(Civil(c.year, c.month, 1));
    DayNumber(Civil(c.year, c.month, 1))
  }

  /** `endOfMonth`: the exclusive end of the month, the first day of the next month. */
  function EndOfMonth(date: int): (r: int)
    ensures StartOfMonth(date) <= date < r
    ensures r == StartOfMonth(date) + DaysInMonth(ToCivil(date).year, ToCivil(date).month)
    ensures ToCivil(r) == FirstOfNextMonth(ToCivil(date).year, ToCivil(date).month)
  {
    var c := ToCivil(date);
    var next := FirstOfNextMonth(c.year, c.month);
    NextMonthStep(c.year, c.month);
    CivilRoundTrip(next);
    DayNumber(next)
  }

  /** `dayInt`: the day of the month. */
  function DayInt(date: int): (r: int)
    ensures 1 <= r <= 31
    ensures r == date - StartOfMonth(date) + 1
  {
    ToCivil(date).day
  }

  /** `monthInt`: the month of the year. */
  function MonthInt(date: int): (r: int)
    ensures 1 <= r <= 12
    ensures r == ToCivil(StartOfMonth(date)).month
  {
    ToCivil(date).month
  }

  /** `numberOfDaysInMonth`: the day of the month of the day before `endOfMonth`. */
  function NumberOfDaysInMonth(date: int): (r: int)
    ensures 28 <= r <= 31
    ensures r == EndOfMonth(date) - StartOfMonth(date)
    ensures r == DaysInMonth(ToCivil(date).year, ToCivil(date).month)
  {
    var c := ToCivil(date);
    var last := Civil(c.year, c.month, DaysInMonth(c.year, c.month));
    CivilRoundTrip(last);
    ToCivil(EndOfMonth(date) - 1).day
  }

  /** Every day from `startOfMonth` up to (not including) `endOfMonth` lies in the same month. */
  lemma SameMonth(date: int, t: int)
    requires StartOfMonth(date) <= t < EndOfMonth(date)
    ensures StartOfMonth(t) == StartOfMonth(date) && EndOfMonth(t) == EndOfMonth(date)
    ensures ToCivil(t).year == ToCivil(date).year && MonthInt(t) == MonthInt(date)
    ensures DayInt(t) == t - StartOfMonth(date) + 1
  {
    var c := ToCivil(date);
    var u := Civil(c.year, c.month, t - StartOfMonth(date) + 1);
    CivilRoundTrip(u);
  }

  /** `date(byAdding: .month, value: months, to:)`: same day of month, clamped to the target month's length. */
  function AddMonths(date: int, months: int): (r: int)
    ensures ToCivil(r).year * 12 + ToCivil(r).month == ToCivil(date).year * 12 + ToCivil(date).month + months
    ensures DayInt(r) == if DayInt(date) <= DaysInMonth(ToCivil(r).year, ToCivil(r).month)
                         then DayInt(date) else DaysInMonth(ToCivil(r).year, ToCivil(r).month)
  {
    var c := ToCivil(date);
    var index := c.year * 12 + (c.month - 1) + months;
    var y := index / 12;
    var m := index % 12 + 1;
    var d := if c.day <= DaysInMonth(y, m) then c.day else DaysInMonth(y, m);
    CivilRoundTrip(Civil(y, m, d));
    DayNumber(Civil(y, m, d))
  }

  /** Two month indices one apart name consecutive months. */
  lemma ConsecutiveMonths(py: int, pm: int, y: int, m: int)
    requires 1 <= pm <= 12 && 1 <= m <= 12
    requires py * 12 + pm + 1 == y * 12 + m
    ensures FirstOfNextMonth(py, pm) == Civil(y, m, 1)
  {
  }

  /** A day number is determined by its calendar date. */
  lemma SameCivilSameDate(a: int, b: int)
    requires ToCivil(a) == ToCivil(b)
    ensures a == b
  {
  }

  /** `startOfPreviousMonth`: the first day of the month before, across a January/December rollover too. */
  function StartOfPreviousMonth(date: int): (r: int)
    ensures ToCivil(r).day == 1 && r < StartOfMonth(date)
    ensures EndOfMonth(r) == StartOfMonth(date)
  {
    var c := ToCivil(date);
    var inPrevious := AddMonths(date, -1);
    var p := ToCivil(inPrevious);
    var r := StartOfMonth(inPrevious);
    ConsecutiveMonths(p.year, p.month, c.year, c.month);
    SameCivilSameDate(EndOfMonth(r), StartOfMonth(date));
    r
  }

  /** `startOfNextMonth`: the first day of the month after, which is `endOfMonth`. */
  function StartOfNextMonth(date: int): (r: int)
    ensures r == EndOfMonth(date)
  {
    var c := ToCivil(date);
    var inNext := AddMonths(date, 1);
    var n := ToCivil(inNext);
    var r := StartOfMonth(inNext);
    ConsecutiveMonths(c.year, c.month, n.year, n.month);
    SameCivilSameDate(r, EndOfMonth(date));
    r
  }

  /** The months on either side: each starts on its own first day, lasts at least 28 days,
      and the three months follow each other without a gap. */
  lemma NeighbourMonths(date: int)
    ensures var prev := StartOfPreviousMonth(date);
            StartOfMonth(prev) == prev && StartOfMonth(date) - prev >= 28
    ensures var next := StartOfNextMonth(date);
            StartOfMonth(next) == next && next == EndOfMonth(date) && EndOfMonth(next) - next >= 28
  {
    var prev := StartOfPreviousMonth(date);
    var next := StartOfNextMonth(date);
    SameCivilSameDate(StartOfMonth(prev), prev);
    SameCivilSameDate(StartOfMonth(next), next);
    assert NumberOfDaysInMonth(prev) >= 28;
    assert NumberOfDaysInMonth(next) >= 28;
  }

  /** The day before a month starts is the last day of the month before, so its day of the
      month is at least 28. */
  lemma LastDayOfPreviousMonth(date: int)
    ensures DayInt(StartOfMonth(date) - 1) >= 28
  {
    var prev := StartOfPreviousMonth(date);
    NeighbourMonths(date);
    SameMonth(prev, StartOfMonth(date) - 1);
  }

  /** `startOfCalendarWithPrefixDays`: back from `startOfMonth` to the Sunday that opens its week. */
  function StartOfCalendarWithPrefixDays(date: int): (r: int)
    ensures Weekday(r) == 1
    ensures 0 <= StartOfMonth(date) - r <= 6
    ensures Weekday(StartOfMonth(date)) == 1 ==> r == StartOfMonth(date)
  {
    var startOfMonth := StartOfMonth(date);
    WeekArithmetic(startOfMonth);
    var startOfMonthWeekday := Weekday(startOfMonth);
    var numberOfPrefixDays := startOfMonthWeekday - 1;
    startOfMonth - numberOfPrefixDays
  }

  /** `endOfCalendarWithSuffixDays`: forward from `endOfMonth` (the next month's first day) to a Saturday. */
  function EndOfCalendarWithSuffixDays(date: int): (r: int)
    ensures Weekday(r) == 7
    ensures 0 <= r - EndOfMonth(date) <= 6
    ensures r - EndOfMonth(date) == 7 - Weekday(EndOfMonth(date))
  {
    var endOfMonth := EndOfMonth(date);
    WeekArithmetic(endOfMonth);
    var endOfMonthWeekday := Weekday(endOfMonth);
    var numberOfSuffixDays := if endOfMonthWeekday == 7 then 0 else 7 - endOfMonthWeekday;
    endOfMonth + numberOfSuffixDays
  }

  /** The padded window is made of whole weeks (five or six of them) and covers the whole month. */
  lemma WindowShape(date: int)
    ensures var span := EndOfCalendarWithSuffixDays(date) - StartOfCalendarWithPrefixDays(date) + 1;
            span % 7 == 0 && (span == 35 || span == 42)
    ensures StartOfCalendarWithPrefixDays(date) <= StartOfMonth(date)
    ensures EndOfMonth(date) <= EndOfCalendarWithSuffixDays(date)
  {
    WholeWeeks(StartOfCalendarWithPrefixDays(date), StartOfMonth(date), EndOfMonth(date),
               EndOfCalendarWithSuffixDays(date));
  }

  lemma WholeWeeks(first: int, monthStart: int, monthEnd: int, last: int)
    requires Weekday(first) == 1 && Weekday(last) == 7
    requires 0 <= monthStart - first <= 6 && 0 <= last - monthEnd <= 6
    requires 28 <= monthEnd - monthStart <= 31
    ensures (last - first + 1) % 7 == 0
    ensures last - first + 1 == 35 || last - first + 1 == 42
  {
  }

  /** The suffix is measured on the next month's first day: a month whose last day is a Saturday
      gets a whole extra week, any other month ends on the Saturday closing its last week. */
  lemma SuffixAfterSaturdayMonthEnd(date: int)
    ensures var last := EndOfMonth(date) - 1;
            if Weekday(last) == 7 then EndOfCalendarWithSuffixDays(date) == last + 7
            else EndOfCalendarWithSuffixDays(date) == last + (7 - Weekday(last))
  {
    SuffixArithmetic(EndOfMonth(date), EndOfCalendarWithSuffixDays(date));
  }

  lemma SuffixArithmetic(endOfMonth: int, last: int)
    requires last - endOfMonth == 7 - Weekday(endOfMonth)
    ensures if Weekday(endOfMonth - 1) == 7 then last == endOfMonth - 1 + 7
            else last == endOfMonth - 1 + (7 - Weekday(endOfMonth - 1))
  {
    WeekArithmetic(endOfMonth - 1);
  }

  /** Foundation weekday numbering: 1 January of year 1 was a Monday, 18 February 2025 a Tuesday. */
  lemma KnownWeekdays()
    ensures Weekday(DayNumber(Civil(1, 1, 1))) == 2
    ensures Weekday(DayNumber(Civil(2025, 2, 18))) == 3
  {
  }

  /** The weekday of any day follows from its distance to 18 February 2025, a Tuesday. */
  lemma WeekdayFromKnownTuesday(date: int)
    ensures Weekday(date) == (date - DayNumber(Civil(2025, 2, 18)) + 2) % 7 + 1
  {
    KnownWeekdays();
    var q := DayNumber(Civil(2025, 2, 18)) / 7;
    assert DayNumber(Civil(2025, 2, 18)) == 7 * q + 2;
    assert (date - (7 * q + 2) + 2) % 7 == date % 7;
  }

  /** Inside the padded window, a day has the reference month's `monthInt` exactly when it lies in that month. */
  lemma MonthIntInWindow(date: int, t: int)
    requires StartOfCalendarWithPrefixDays(date) <= t <= EndOfCalendarWithSuffixDays(date)
    ensures MonthInt(t) == MonthInt(date) <==> StartOfMonth(date) <= t < EndOfMonth(date)
  {
    var prev := StartOfPreviousMonth(date);
    var next := StartOfNextMonth(date);
    if t < StartOfMonth(date) {
      SameMonth(prev, prev);
      assert StartOfMonth(prev) == prev;
      assert NumberOfDaysInMonth(prev) >= 28;
      SameMonth(prev, t);
      SameMonth(date, StartOfMonth(date));
    } else if t >= EndOfMonth(date) {
      SameMonth(next, next);
      SameMonth(date, StartOfMonth(date));
      assert StartOfMonth(next) == next;
      assert NumberOfDaysInMonth(next) >= 28;
      SameMonth(next, t);
    } else {
      SameMonth(date, t);
    }
  }
}
