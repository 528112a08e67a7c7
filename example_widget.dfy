/** The example app's home-screen widget: its timeline entry, its streak, its fetch window and
    its month grid, which blanks every record outside the current month.

    The widget's fetch uses the same strict window as the example `StreakView`, and its streak
    is the same record-count walk over the entry's records.
 */
module ExampleWidget {
  import opened Models
  import opened CalendarMath
  import ExampleStreak
  import CalendarView

  /** A timeline entry: the entry's date and the records fetched for it. */
  datatype CalendarEntry = CalendarEntry(date: int, days: seq<ExampleStreak.Day>)

  /** `calculateStreakValue()` of the widget view, with today passed in: the same filter and
      reverse walk as the example `StreakView`, over the entry's records. */
  method CalculateStreakValue(entry: CalendarEntry, today: int) returns (streak: nat)
    ensures streak == ExampleStreak.RecordCountWalk(ExampleStreak.NonFutureDays(entry.days, today), DayInt(today))
    ensures streak <= |entry.days|
    ensures entry.days == [] ==> streak == 0
  {
    if entry.days == [] {
      return 0;
    }
    streak := ExampleStreak.CalculateStreakValue(entry.days, today);
  }

  /** A grid cell for one record: blank when its month differs from the current one, its day
      of the month otherwise. */
  function Cell(day: ExampleStreak.Day, now: int): GridCell {
    if MonthInt(day.date) != MonthInt(now) then Blank else DayCell(DayInt(day.date), day.didStudy)
  }

  /** The widget grid: one cell per record of the entry, in order. */
  function Cells(days: seq<ExampleStreak.Day>, now: int): (cells: seq<GridCell>)
    ensures |cells| == |days|
  {
    if days == [] then [] else [Cell(days[0], now)] + Cells(days[1..], now)
  }

  /** On a window query, the widget grid blanks exactly the prefix days before the month and
      shows every other record by its day of the month, counted from `startOfMonth`. */
  lemma CellsOnWindowQuery(store: seq<ExampleStreak.Day>, fetched: seq<ExampleStreak.Day>, now: int)
    requires ExampleStreak.IsWindowQuery(store, fetched, now)
    ensures var cells := Cells(fetched, now);
            forall i :: 0 <= i < |fetched| ==>
              (cells[i].Blank? <==> fetched[i].date < StartOfMonth(now)) &&
              (cells[i].DayCell? ==> cells[i].day == fetched[i].date - StartOfMonth(now) + 1 &&
                                     cells[i].studied == fetched[i].didStudy)
  {
    ExampleStreak.WindowQueryMembers(store, fetched, now);
    forall i | 0 <= i < |fetched|
      ensures ExampleStreak.InQueryWindow(fetched[i].date, now)
    {
      assert fetched[i] in fetched;
    }
    CellsInQueryWindow(fetched, now);
  }

  lemma {:induction false} CellsInQueryWindow(days: seq<ExampleStreak.Day>, now: int)
    requires forall i :: 0 <= i < |days| ==> ExampleStreak.InQueryWindow(days[i].date, now)
    ensures var cells := Cells(days, now);
            forall i :: 0 <= i < |days| ==>
              (cells[i].Blank? <==> days[i].date < StartOfMonth(now)) &&
              (cells[i].DayCell? ==> cells[i].day == days[i].date - StartOfMonth(now) + 1 &&
                                     cells[i].studied == days[i].didStudy)
  {
    if days != [] {
      assert forall i :: 0 <= i < |days[1..]| ==> days[1..][i] == days[i + 1];
      CellsInQueryWindow(days[1..], now);
      var d := days[0].date;
      assert ExampleStreak.InQueryWindow(d, now);
      WindowShape(now);
      MonthIntInWindow(now, d);
      if StartOfMonth(now) <= d {
        SameMonth(now, d);
      }
      var cells := Cells(days, now);
      forall i | 0 <= i < |days|
        ensures (cells[i].Blank? <==> days[i].date < StartOfMonth(now)) &&
                (cells[i].DayCell? ==> cells[i].day == days[i].date - StartOfMonth(now) + 1 &&
                                       cells[i].studied == days[i].didStudy)
      {
        if i > 0 {
          assert cells[i] == Cells(days[1..], now)[i - 1];
          assert days[i] == days[1..][i - 1];
        }
      }
    }
  }

  /** The widget's records as the Core Data app's records. */
  function AsRecords(days: seq<ExampleStreak.Day>): (records: seq<DayRecord>)
    ensures |records| == |days|
    ensures forall i :: 0 <= i < |days| ==> records[i] == DayRecord(Some(days[i].date), days[i].didStudy)
  {
    if days == [] then [] else [DayRecord(Some(days[0].date), days[0].didStudy)] + AsRecords(days[1..])
  }

  /** The widget grid is the month calendar's grid with `showOnlyMonthDays` on. */
  lemma {:induction false} CellsMatchMonthOnlyCalendar(days: seq<ExampleStreak.Day>, now: int)
    ensures Cells(days, now) == CalendarView.GridCells(AsRecords(days), true, now)
  {
    if days != [] {
      CellsMatchMonthOnlyCalendar(days[1..], now);
      assert AsRecords(days)[1..] == AsRecords(days[1..]);
    }
  }
}
