/** The older record-count streak of the example app's `StreakView`, and its strict query window.

    The records are the window query's result, oldest first. Records whose day of the month
    is after today's are dropped; the rest are walked from the last to the first, each studied
    record adding one, an unstudied record on today's day of the month passed over, and any
    other unstudied record ending the walk. Dates are compared by day of the month only.
 */
module ExampleStreak {
  import opened Seqs
  import CalendarMath

  /** A SwiftData `Day`: the date is not optional here. */
  datatype Day = Day(date: int, didStudy: bool)

  /** `nonFutureDays`: the records whose `dayInt` is at most today's, in their order. */
  function NonFutureDays(days: seq<Day>, today: int): (kept: seq<Day>)
    ensures |kept| <= |days|
    ensures forall d :: d in kept <==> d in days && CalendarMath.DayInt(d.date) <= CalendarMath.DayInt(today)
  {
    Filter(days, (d: Day) => CalendarMath.DayInt(d.date) <= CalendarMath.DayInt(today))
  }

  /** The filter keeps order and duplicates: filtering a concatenation filters each part, and a
      single record is kept exactly when its `dayInt` is at most today's. */
  lemma NonFutureDaysKeepsOrder(a: seq<Day>, b: seq<Day>, today: int)
    ensures NonFutureDays(a + b, today) == NonFutureDays(a, today) + NonFutureDays(b, today)
    ensures forall d :: NonFutureDays([d], today) ==
                        if CalendarMath.DayInt(d.date) <= CalendarMath.DayInt(today) then [d] else []
  {
    FilterAppend(a, b, (d: Day) => CalendarMath.DayInt(d.date) <= CalendarMath.DayInt(today));
  }

  /** An unstudied record on a day of the month other than today's ends the walk. */
  predicate StopsWalk(d: Day, todayDay: int) {
    !d.didStudy && CalendarMath.DayInt(d.date) != todayDay
  }

  /** The reverse walk over the kept records, as a function of the records still to visit. */
  function RecordCountWalk(kept: seq<Day>, todayDay: int): (n: nat)
    ensures n <= |kept|
  {
    if kept == [] then 0
    else
      var day := kept[|kept| - 1];
      if day.didStudy then 1 + RecordCountWalk(kept[..|kept| - 1], todayDay)
      else if StopsWalk(day, todayDay) then 0
      else RecordCountWalk(kept[..|kept| - 1], todayDay)
  }

  /** The number of studied records. */
  function CountStudied(s: seq<Day>): (n: nat)
    ensures n <= |s|
    ensures n == |s| <==> forall i :: 0 <= i < |s| ==> s[i].didStudy
  {
    if s == [] then 0
    else CountStudied(s[..|s| - 1]) + (if s[|s| - 1].didStudy then 1 else 0)
  }

  /** The index of the last record that stops the walk, or -1 when there is none. */
  function LastStop(kept: seq<Day>, todayDay: int): (b: int)
    ensures -1 <= b < |kept|
    ensures b >= 0 ==> StopsWalk(kept[b], todayDay)
    ensures forall j :: b < j < |kept| ==> !StopsWalk(kept[j], todayDay)
  {
    if kept == [] then -1
    else if StopsWalk(kept[|kept| - 1], todayDay) then |kept| - 1
    else LastStop(kept[..|kept| - 1], todayDay)
  }

  /** The walk counts exactly the studied records after the last record that stops it:
      missing days in between do not matter, only records do. */
  lemma {:induction false} RecordCountWalkCountsAfterLastStop(kept: seq<Day>, todayDay: int)
    ensures RecordCountWalk(kept, todayDay) == CountStudied(kept[LastStop(kept, todayDay) + 1..])
  {
    if kept == [] {
    } else if StopsWalk(kept[|kept| - 1], todayDay) {
      assert kept[|kept|..] == [];
    } else {
      var front := kept[..|kept| - 1];
      var last := kept[|kept| - 1];
      var step := if last.didStudy then 1 else 0;
      assert RecordCountWalk(kept, todayDay) == RecordCountWalk(front, todayDay) + step;
      RecordCountWalkCountsAfterLastStop(front, todayDay);
      var b := LastStop(front, todayDay);
      assert LastStop(kept, todayDay) == b;
      var suffix := kept[b + 1..];
      assert suffix[..|suffix| - 1] == front[b + 1..];
      assert suffix[|suffix| - 1] == last;
      assert CountStudied(suffix) == CountStudied(front[b + 1..]) + step;
    }
  }

  /** When every kept record is studied, the walk counts them all. */
  lemma AllStudiedCountsEveryRecord(kept: seq<Day>, todayDay: int)
    requires forall i :: 0 <= i < |kept| ==> kept[i].didStudy
    ensures RecordCountWalk(kept, todayDay) == |kept|
  {
    RecordCountWalkCountsAfterLastStop(kept, todayDay);
    assert kept[0..] == kept;
  }

  /** One step of the walk: visiting the record at `i` after those after it. */
  lemma RecordCountWalkStep(kept: seq<Day>, i: nat, todayDay: int)
    requires i < |kept|
    ensures RecordCountWalk(kept[..i + 1], todayDay) ==
              if kept[i].didStudy then 1 + RecordCountWalk(kept[..i], todayDay)
              else if StopsWalk(kept[i], todayDay) then 0
              else RecordCountWalk(kept[..i], todayDay)
  {
    assert kept[..i + 1][..i] == kept[..i];
  }

  /** `calculateStreakValue()` of the example `StreakView`, with today passed in. */
  method CalculateStreakValue(days: seq<Day>, today: int) returns (streak: nat)
    ensures streak == RecordCountWalk(NonFutureDays(days, today), CalendarMath.DayInt(today))
    ensures streak <= |NonFutureDays(days, today)|
  {
    if days == [] {
      assert |NonFutureDays(days, today)| == 0;
      return 0;
    }
    var nonFutureDays := NonFutureDays(days, today);
    var todayDay := CalendarMath.DayInt(today);
    streak := 0;
    var i := |nonFutureDays|;
    assert nonFutureDays[..i] == nonFutureDays;
    while i > 0
      invariant 0 <= i <= |nonFutureDays|
      invariant streak + RecordCountWalk(nonFutureDays[..i], todayDay) == RecordCountWalk(nonFutureDays, todayDay)
      invariant streak <= |nonFutureDays| - i
    {
      i := i - 1;
      var day := nonFutureDays[i];
      RecordCountWalkStep(nonFutureDays, i, todayDay);
      if day.didStudy {
        streak := streak + 1;
      } else {
        if CalendarMath.DayInt(day.date) != todayDay {
          break;
        }
      }
    }
    assert nonFutureDays[..|nonFutureDays|] == nonFutureDays;
  }

  /** The query window `startOfCalendarWithPrefixDays < date < endOfMonth`, strict at both ends. */
  predicate InQueryWindow(date: int, now: int) {
    CalendarMath.StartOfCalendarWithPrefixDays(now) < date < CalendarMath.EndOfMonth(now)
  }

  /** The strict window leaves out its own first day and every suffix day, and it leaves out
      the first of the month exactly when the month begins on a Sunday; every other day of the
      month is inside. */
  lemma QueryWindowIsStrict(now: int)
    ensures !InQueryWindow(CalendarMath.StartOfCalendarWithPrefixDays(now), now)
    ensures forall t :: t >= CalendarMath.EndOfMonth(now) ==> !InQueryWindow(t, now)
    ensures forall t :: CalendarMath.StartOfMonth(now) < t < CalendarMath.EndOfMonth(now) ==> InQueryWindow(t, now)
    ensures !InQueryWindow(CalendarMath.StartOfMonth(now), now) <==> CalendarMath.Weekday(CalendarMath.StartOfMonth(now)) == 1
  {
  }

  /** The records of `store` inside the query window. */
  function QueryWindowDays(store: seq<Day>, now: int): (r: seq<Day>)
    ensures forall d :: d in r <==> d in store && InQueryWindow(d.date, now)
  {
    Filter(store, (d: Day) => InQueryWindow(d.date, now))
  }

  /** `fetched` is what the query returns: the records in the window, sorted by date, oldest first. */
  predicate IsWindowQuery(store: seq<Day>, fetched: seq<Day>, now: int) {
    multiset(fetched) == multiset(QueryWindowDays(store, now)) &&
    forall i, j :: 0 <= i < j < |fetched| ==> fetched[i].date <= fetched[j].date
  }

  /** A query result holds exactly the stored records that lie in the window. */
  lemma WindowQueryMembers(store: seq<Day>, fetched: seq<Day>, now: int)
    requires IsWindowQuery(store, fetched, now)
    ensures forall d :: d in fetched <==> d in store && InQueryWindow(d.date, now)
    ensures |fetched| == |QueryWindowDays(store, now)|
  {
    forall d
      ensures d in fetched <==> d in store && InQueryWindow(d.date, now)
    {
      assert d in fetched <==> d in multiset(fetched);
      assert d in QueryWindowDays(store, now) <==> d in multiset(QueryWindowDays(store, now));
    }
    assert |multiset(fetched)| == |multiset(QueryWindowDays(store, now))|;
  }

  /** Counting is by records: two studied days with a missing day between them still make 2. */
  lemma GapDoesNotBreakRecordCount(now: int)
    requires CalendarMath.DayInt(now) >= 3
    ensures var start := CalendarMath.StartOfMonth(now);
            RecordCountWalk(NonFutureDays([Day(start, true), Day(start + 2, true)], now), CalendarMath.DayInt(now)) == 2
  {
    var start := CalendarMath.StartOfMonth(now);
    CalendarMath.SameMonth(now, start);
    CalendarMath.SameMonth(now, start + 2);
    var days := [Day(start, true), Day(start + 2, true)];
    assert CalendarMath.DayInt(start) == 1 && CalendarMath.DayInt(start + 2) == 3;
    assert NonFutureDays(days, now) == days;
    assert days[..1] == [Day(start, true)];
    assert RecordCountWalk(days[..1], CalendarMath.DayInt(now)) == 1;
  }

  /** The last day of the previous month has a day of the month of at least 28, so before the
      28th it is dropped although it is in the past. */
  lemma PreviousMonthLastDayDropped(now: int, studied: bool)
    requires CalendarMath.DayInt(now) < 28
    ensures var prefixDay := Day(CalendarMath.StartOfMonth(now) - 1, studied);
            prefixDay !in NonFutureDays([prefixDay], now)
  {
    CalendarMath.LastDayOfPreviousMonth(now);
  }
}
