/** The month calendar screen: its window fetch, the months it materialises on appearing,
    the per-cell visibility rule and the `showOnlyMonthDays` setting.

    The Core Data context is a `ViewContext` object whose record list and settings list the
    methods append to. Nothing is ever deduplicated: creating a month twice leaves two records
    for each of its days.
 */
module CalendarView {
  import opened Models
  import opened Seqs
  import opened CalendarMath

  /** `n` default records, one per day from `first` on, none of them studied. */
  function DefaultRecords(first: int, n: nat): (r: seq<DayRecord>)
    ensures |r| == n
  {
    if n == 0 then [] else DefaultRecords(first, n - 1) + [DayRecord(Some(first + n - 1), false)]
  }

  /** The records `createMonthDays(for: date)` adds: one per day of the month of `date`. */
  function MonthDays(date: int): seq<DayRecord> {
    DefaultRecords(StartOfMonth(date), NumberOfDaysInMonth(date))
  }

  /** How many records of `s` are dated `date`. */
  function CountDated(s: seq<DayRecord>, date: int): nat {
    if s == [] then 0
    else CountDated(s[..|s| - 1], date) + (if s[|s| - 1].date == Some(date) then 1 else 0)
  }

  lemma {:induction false} CountDatedAppend(a: seq<DayRecord>, b: seq<DayRecord>, date: int)
    ensures CountDated(a + b, date) == CountDated(a, date) + CountDated(b, date)
  {
    if b != [] {
      assert (a + b)[..|a + b| - 1] == a + b[..|b| - 1];
      assert (a + b)[|a + b| - 1] == b[|b| - 1];
      CountDatedAppend(a, b[..|b| - 1], date);
    } else {
      assert a + b == a;
    }
  }

  /** The k-th default record is dated `first + k` and unstudied, so each date in the range
      has exactly one record and every other date none. */
  lemma {:induction false} DefaultRecordsContents(first: int, n: nat)
    ensures forall k :: 0 <= k < n ==> DefaultRecords(first, n)[k] == DayRecord(Some(first + k), false)
    ensures forall date :: CountDated(DefaultRecords(first, n), date) ==
                           if first <= date < first + n then 1 else 0
  {
    if n > 0 {
      DefaultRecordsContents(first, n - 1);
      assert DefaultRecords(first, n)[..n - 1] == DefaultRecords(first, n - 1);
    }
  }

  /** A month's records: as many as the month has days, consecutive from `startOfMonth` and
      all unstudied. */
  lemma MonthDaysContents(date: int)
    ensures |MonthDays(date)| == EndOfMonth(date) - StartOfMonth(date)
    ensures forall k :: 0 <= k < |MonthDays(date)| ==>
      MonthDays(date)[k] == DayRecord(Some(StartOfMonth(date) + k), false)
  {
    DefaultRecordsContents(StartOfMonth(date), NumberOfDaysInMonth(date));
  }

  /** A month's records hold exactly one record per date of the month and none elsewhere. */
  lemma MonthDaysCount(date: int)
    ensures forall t :: CountDated(MonthDays(date), t) ==
                        if StartOfMonth(date) <= t < EndOfMonth(date) then 1 else 0
  {
    DefaultRecordsContents(StartOfMonth(date), NumberOfDaysInMonth(date));
  }

  /** Creating the same month twice leaves two records on each of its dates. */
  lemma CreateTwiceDuplicates(store: seq<DayRecord>, date: int, t: int)
    requires StartOfMonth(date) <= t < EndOfMonth(date)
    ensures CountDated(store + MonthDays(date) + MonthDays(date), t) == CountDated(store, t) + 2
  {
    MonthDaysCount(date);
    CountDatedAppend(store + MonthDays(date), MonthDays(date), t);
    CountDatedAppend(store, MonthDays(date), t);
  }

  /** The records `onAppear` creates, given how many records the window fetch returned:
      the previous, current and next months for none, the current and next months for fewer
      than ten (only prefix days were there), nothing otherwise. */
  function AppearCreates(fetchCount: nat, now: int): seq<DayRecord> {
    if fetchCount == 0 then MonthDays(StartOfPreviousMonth(now)) + MonthDays(now) + MonthDays(StartOfNextMonth(now))
    else if fetchCount < 10 then MonthDays(now) + MonthDays(StartOfNextMonth(now))
    else []
  }

  /** Appending the previous, current and next months one after the other appends what a
      first appearance creates. */
  lemma FirstAppearAppends(d0: seq<DayRecord>, d1: seq<DayRecord>, d2: seq<DayRecord>, d3: seq<DayRecord>, now: int)
    requires d1 == d0 + MonthDays(StartOfPreviousMonth(now))
    requires d2 == d1 + MonthDays(now)
    requires d3 == d2 + MonthDays(StartOfNextMonth(now))
    ensures d3 == d0 + AppearCreates(0, now)
  {
    SeqAppendThree(d0, d1, d2, d3, MonthDays(StartOfPreviousMonth(now)), MonthDays(now), MonthDays(StartOfNextMonth(now)));
  }

  /** Appending the current and next months appends what an appearance with a few records
      in the window creates. */
  lemma SparseAppearAppends(d0: seq<DayRecord>, d1: seq<DayRecord>, d2: seq<DayRecord>, fetchCount: nat, now: int)
    requires 0 < fetchCount < 10
    requires d1 == d0 + MonthDays(now)
    requires d2 == d1 + MonthDays(StartOfNextMonth(now))
    ensures d2 == d0 + AppearCreates(fetchCount, now)
  {
    SeqAppendTwo(d0, d1, d2, MonthDays(now), MonthDays(StartOfNextMonth(now)));
  }

  /** The fetch window `startOfCalendarWithPrefixDays <= date <= endOfCalendarWithSuffixDays`. */
  predicate InCalendarWindow(date: int, now: int) {
    StartOfCalendarWithPrefixDays(now) <= date <= EndOfCalendarWithSuffixDays(now)
  }

  /** The window predicate on records; an undated record compares as false. */
  function WindowPredicate(now: int): DayRecord -> bool {
    (x: DayRecord) => x.date.Some? && InCalendarWindow(x.date.value, now)
  }

  /** The records the window predicate admits. */
  function WindowRecords(store: seq<DayRecord>, now: int): (r: seq<DayRecord>)
    ensures forall x :: x in r <==> x in store && x.date.Some? && InCalendarWindow(x.date.value, now)
  {
    Filter(store, WindowPredicate(now))
  }

  /** `fetched` is what the view's fetch request returns: the window's records, oldest first. */
  predicate IsWindowFetch(store: seq<DayRecord>, fetched: seq<DayRecord>, now: int) {
    multiset(fetched) == multiset(WindowRecords(store, now)) &&
    forall i, j :: 0 <= i < j < |fetched| ==>
      fetched[i].date.Some? && fetched[j].date.Some? && fetched[i].date.value <= fetched[j].date.value
  }

  /** A fetch result holds exactly the stored records in the window, all of them dated. */
  lemma WindowFetchMembers(store: seq<DayRecord>, fetched: seq<DayRecord>, now: int)
    requires IsWindowFetch(store, fetched, now)
    ensures |fetched| == |WindowRecords(store, now)|
    ensures forall x :: x in fetched <==> x in store && x.date.Some? && InCalendarWindow(x.date.value, now)
  {
    forall x
      ensures x in fetched <==> x in store && x.date.Some? && InCalendarWindow(x.date.value, now)
    {
      assert x in fetched <==> x in multiset(fetched);
      assert x in WindowRecords(store, now) <==> x in multiset(WindowRecords(store, now));
    }
    assert |multiset(fetched)| == |multiset(WindowRecords(store, now))|;
  }

  /** The padded window lies inside the previous, current and next months. */
  lemma WindowInsideThreeMonths(now: int)
    ensures StartOfPreviousMonth(now) <= StartOfCalendarWithPrefixDays(now)
    ensures EndOfCalendarWithSuffixDays(now) < EndOfMonth(StartOfNextMonth(now))
  {
    NeighbourMonths(now);
  }

  /** Three runs of records, each holding one record per date of its range, the ranges
      following each other, hold one record per date of the whole range. */
  lemma CountDatedConsecutive(a: seq<DayRecord>, b: seq<DayRecord>, c: seq<DayRecord>,
                              a0: int, a1: int, b0: int, b1: int, c0: int, c1: int)
    requires forall t :: CountDated(a, t) == if a0 <= t < a1 then 1 else 0
    requires forall t :: CountDated(b, t) == if b0 <= t < b1 then 1 else 0
    requires forall t :: CountDated(c, t) == if c0 <= t < c1 then 1 else 0
    requires a0 <= a1 == b0 <= b1 == c0 <= c1
    ensures forall t :: CountDated(a + b + c, t) == if a0 <= t < c1 then 1 else 0
  {
    forall t
      ensures CountDated(a + b + c, t) == if a0 <= t < c1 then 1 else 0
    {
      CountDatedAppend(a, b, t);
      CountDatedAppend(a + b, c, t);
    }
  }

  /** Appearing with no record in the window creates one record for every date of the
      previous, current and next months and none elsewhere. */
  lemma FirstAppearMaterialisesWindow(now: int)
    ensures forall t :: CountDated(AppearCreates(0, now), t) ==
                        if StartOfPreviousMonth(now) <= t < EndOfMonth(StartOfNextMonth(now)) then 1 else 0
  {
    NeighbourMonths(now);
    ThreeMonthsCount(StartOfPreviousMonth(now), now, StartOfNextMonth(now));
  }

  /** The records of three consecutive months hold one record per date of the three. */
  lemma ThreeMonthsCount(prev: int, date: int, next: int)
    requires StartOfMonth(prev) == prev
    requires EndOfMonth(prev) == StartOfMonth(date) && EndOfMonth(date) == StartOfMonth(next)
    ensures forall t :: CountDated(MonthDays(prev) + MonthDays(date) + MonthDays(next), t) ==
                        if prev <= t < EndOfMonth(next) then 1 else 0
  {
    MonthDaysCount(prev);
    MonthDaysCount(date);
    MonthDaysCount(next);
    CountDatedConsecutive(MonthDays(prev), MonthDays(date), MonthDays(next),
                          StartOfMonth(prev), EndOfMonth(prev), StartOfMonth(date), EndOfMonth(date),
                          StartOfMonth(next), EndOfMonth(next));
  }

  /** So after an appearance whose window fetch came back empty, every date of the window
      has exactly one record in the store. */
  lemma FirstAppearCoversWindow(store: seq<DayRecord>, now: int)
    requires |WindowRecords(store, now)| == 0
    ensures forall t :: InCalendarWindow(t, now) ==> CountDated(store + AppearCreates(0, now), t) == 1
  {
    forall t | InCalendarWindow(t, now)
      ensures CountDated(store + AppearCreates(0, now), t) == 1
    {
      FirstAppearCreatesWindowDay(now, t);
      EmptyWindowNoRecords(store, now, t);
      CountDatedAppend(store, AppearCreates(0, now), t);
    }
  }

  /** What a first appearance creates holds one record on each date of the window. */
  lemma FirstAppearCreatesWindowDay(now: int, t: int)
    requires InCalendarWindow(t, now)
    ensures CountDated(AppearCreates(0, now), t) == 1
  {
    FirstAppearMaterialisesWindow(now);
    WindowInsideThreeMonths(now);
  }

  /** An empty window fetch means the store holds no record on any date of the window. */
  lemma EmptyWindowNoRecords(store: seq<DayRecord>, now: int, t: int)
    requires |WindowRecords(store, now)| == 0 && InCalendarWindow(t, now)
    ensures CountDated(store, t) == 0
  {
    assert forall x :: x in store && x.date == Some(t) ==> x in WindowRecords(store, now);
    CountDatedAbsent(store, t);
  }

  /** A date no record carries has no records. */
  lemma {:induction false} CountDatedAbsent(s: seq<DayRecord>, t: int)
    requires forall x :: x in s ==> x.date != Some(t)
    ensures CountDated(s, t) == 0
  {
    if s != [] {
      assert s[|s| - 1] in s;
      assert forall x :: x in s[..|s| - 1] ==> x in s;
      CountDatedAbsent(s[..|s| - 1], t);
    }
  }

  /** Every record of the current month lies in the window. */
  lemma MonthDaysInWindow(now: int)
    ensures forall x :: x in MonthDays(now) ==> WindowPredicate(now)(x)
  {
    MonthDaysContents(now);
    WindowShape(now);
    forall x | x in MonthDays(now)
      ensures WindowPredicate(now)(x)
    {
      var k :| 0 <= k < |MonthDays(now)| && MonthDays(now)[k] == x;
    }
  }

  /** Adding a run that holds the current month's records puts at least 28 records in the window. */
  lemma CurrentMonthFillsWindow(store: seq<DayRecord>, before: seq<DayRecord>, after: seq<DayRecord>, now: int)
    ensures |WindowRecords(store + (before + MonthDays(now) + after), now)| >= 28
  {
    MonthDaysInWindow(now);
    FilterKeepsPassingPart(store, before, MonthDays(now), after, WindowPredicate(now));
  }

  /** Whatever the first appearance found, afterwards the window holds at least the current
      month's records. */
  lemma AppearFillsWindow(store: seq<DayRecord>, now: int)
    ensures |WindowRecords(store + AppearCreates(|WindowRecords(store, now)|, now), now)| >= 28 ||
            AppearCreates(|WindowRecords(store, now)|, now) == []
  {
    if |WindowRecords(store, now)| == 0 {
      CurrentMonthFillsWindow(store, MonthDays(StartOfPreviousMonth(now)), MonthDays(StartOfNextMonth(now)), now);
    } else if |WindowRecords(store, now)| < 10 {
      SparseAppearFillsWindow(store, |WindowRecords(store, now)|, now);
    }
  }

  lemma SparseAppearFillsWindow(store: seq<DayRecord>, count: nat, now: int)
    requires 0 < count < 10
    ensures |WindowRecords(store + AppearCreates(count, now), now)| >= 28
  {
    MonthDaysInWindow(now);
    FilterKeepsPassingPrefix(store, MonthDays(now), MonthDays(StartOfNextMonth(now)), WindowPredicate(now));
  }

  /** A second appearance creates nothing, whatever the first one found. */
  lemma SecondAppearCreatesNothing(store: seq<DayRecord>, now: int)
    ensures var after := store + AppearCreates(|WindowRecords(store, now)|, now);
            AppearCreates(|WindowRecords(after, now)|, now) == []
  {
    AppearFillsWindow(store, now);
    var count := |WindowRecords(store, now)|;
    if AppearCreates(count, now) == [] {
      assert count >= 10;
      assert store + AppearCreates(count, now) == store;
    }
  }

  /** `showOnlyMonthDays`: the first settings object's flag, false when there is none. */
  function ShowOnlyMonthDays(settings: seq<CalendarViewSettings>): (r: bool)
    ensures r ==> settings != []
  {
    settings != [] && settings[0].showOnlyMonthDays
  }

  /** A grid cell for one fetched record: its day number when every day is shown or the
      record is in the current month, a clear placeholder otherwise. */
  function Cell(record: DayRecord, showOnlyMonthDays: bool, now: int): (cell: GridCell)
    requires record.date.Some?
    ensures cell.DayCell? ==> 1 <= cell.day <= 31 && cell.studied == record.didStudy
    ensures !showOnlyMonthDays ==> cell.DayCell?
  {
    if !showOnlyMonthDays || MonthInt(record.date.value) == MonthInt(now)
    then DayCell(DayInt(record.date.value), record.didStudy)
    else Blank
  }

  /** The grid: one cell per fetched record, in fetch order. */
  function GridCells(fetched: seq<DayRecord>, showOnlyMonthDays: bool, now: int): (cells: seq<GridCell>)
    requires forall i :: 0 <= i < |fetched| ==> fetched[i].date.Some?
    ensures |cells| == |fetched|
  {
    if fetched == [] then []
    else [Cell(fetched[0], showOnlyMonthDays, now)] + GridCells(fetched[1..], showOnlyMonthDays, now)
  }

  /** On a window fetch, the grid shows every record by its day of the month, blanking exactly
      the prefix and suffix days when only the month's days are to be shown. */
  lemma {:induction false} GridShowsMonth(store: seq<DayRecord>, fetched: seq<DayRecord>, showOnlyMonthDays: bool, now: int)
    requires IsWindowFetch(store, fetched, now)
    ensures forall i :: 0 <= i < |fetched| ==> fetched[i].date.Some?
    ensures var cells := GridCells(fetched, showOnlyMonthDays, now);
            |cells| == |fetched| &&
            forall i :: 0 <= i < |fetched| ==>
              (cells[i].Blank? <==> showOnlyMonthDays && !(StartOfMonth(now) <= fetched[i].date.value < EndOfMonth(now))) &&
              (cells[i].DayCell? ==> cells[i].day == DayInt(fetched[i].date.value) && cells[i].studied == fetched[i].didStudy)
  {
    WindowFetchMembers(store, fetched, now);
    forall i | 0 <= i < |fetched|
      ensures fetched[i].date.Some? && InCalendarWindow(fetched[i].date.value, now)
    {
      assert fetched[i] in fetched;
    }
    CellsInWindow(fetched, showOnlyMonthDays, now);
  }

  lemma {:induction false} CellsInWindow(fetched: seq<DayRecord>, showOnlyMonthDays: bool, now: int)
    requires forall i :: 0 <= i < |fetched| ==> fetched[i].date.Some? && InCalendarWindow(fetched[i].date.value, now)
    ensures var cells := GridCells(fetched, showOnlyMonthDays, now);
            forall i :: 0 <= i < |fetched| ==>
              (cells[i].Blank? <==> showOnlyMonthDays && !(StartOfMonth(now) <= fetched[i].date.value < EndOfMonth(now))) &&
              (cells[i].DayCell? ==> cells[i].day == DayInt(fetched[i].date.value) && cells[i].studied == fetched[i].didStudy)
  {
    if fetched != [] {
      CellsInWindow(fetched[1..], showOnlyMonthDays, now);
      MonthIntInWindow(now, fetched[0].date.value);
      var cells := GridCells(fetched, showOnlyMonthDays, now);
      forall i | 0 <= i < |fetched|
        ensures (cells[i].Blank? <==> showOnlyMonthDays && !(StartOfMonth(now) <= fetched[i].date.value < EndOfMonth(now))) &&
                (cells[i].DayCell? ==> cells[i].day == DayInt(fetched[i].date.value) && cells[i].studied == fetched[i].didStudy)
      {
        if i > 0 {
          assert cells[i] == GridCells(fetched[1..], showOnlyMonthDays, now)[i - 1];
          assert fetched[i] == fetched[1..][i - 1];
        }
      }
    }
  }

  /** The Core Data view context: the stored day records and settings objects. */
  class ViewContext {
    var days: seq<DayRecord>
    var settings: seq<CalendarViewSettings>

    constructor(days: seq<DayRecord>, settings: seq<CalendarViewSettings>)
      ensures this.days == days && this.settings == settings
    {
      this.days := days;
      this.settings := settings;
    }

    /** `createMonthDays(for: date)`: insert one unstudied record per day of the month. */
    method CreateMonthDays(date: int)
      modifies this
      ensures days == old(days) + MonthDays(date)
      ensures settings == old(settings)
    {
      var startOfMonth := StartOfMonth(date);
      for dayOffset := 0 to NumberOfDaysInMonth(date)
        invariant days == old(days) + DefaultRecords(startOfMonth, dayOffset)
        invariant settings == old(settings)
      {
        days := days + [DayRecord(Some(startOfMonth + dayOffset), false)];
      }
    }

    /** `onAppear`, with the clock's current day passed in as `now`: create the months the
        window fetch calls for, then a default settings object if there is none. */
    method OnAppear(now: int)
      modifies this
      ensures days == old(days) + AppearCreates(|WindowRecords(old(days), now)|, now)
      ensures settings == if old(settings) == [] then [CalendarViewSettings(false)] else old(settings)
      ensures !ShowOnlyMonthDays(settings) <== old(settings) == []
      ensures old(settings) != [] ==> ShowOnlyMonthDays(settings) == ShowOnlyMonthDays(old(settings))
    {
      var fetchCount := |WindowRecords(days, now)|;
      if fetchCount == 0 {
        ghost var d0 := days;
        CreateMonthDays(StartOfPreviousMonth(now));
        ghost var d1 := days;
        CreateMonthDays(now);
        ghost var d2 := days;
        CreateMonthDays(StartOfNextMonth(now));
        FirstAppearAppends(d0, d1, d2, days, now);
      } else if fetchCount < 10 {
        ghost var d0 := days;
        CreateMonthDays(now);
        ghost var d1 := days;
        CreateMonthDays(StartOfNextMonth(now));
        SparseAppearAppends(d0, d1, days, fetchCount, now);
      } else {
        assert days == old(days) + [];
      }
      if settings == [] {
        settings := settings + [CalendarViewSettings(false)];
      }
    }

    /** The setter of the settings toggle's binding: it changes the first settings object,
        if any, and reading the flag back gives the new value. */
    method SetShowOnlyMonthDays(newValue: bool)
      modifies this
      ensures settings == if old(settings) == [] then [] else [CalendarViewSettings(newValue)] + old(settings)[1..]
      ensures days == old(days)
      ensures ShowOnlyMonthDays(settings) == (old(settings) != [] && newValue)
    {
      if settings != [] {
        settings := [CalendarViewSettings(newValue)] + settings[1..];
      }
    }
  }

}
