/** The expected-date streak walk of `calculateStreakValue(days:)` and `getStreakValue(context:)`.

    The records come newest first. The walk expects a record dated today; each studied
    record on the expected date counts and moves the expected date back one day; an
    unstudied record dated today is passed over; anything else dated on or before the
    expected date ends the walk, while records dated after it are skipped.
 */
module Calculations {
  import opened Models
  import opened Seqs
  import CalendarMath

  /** Some studied record of `days` is dated `date`. */
  predicate StudiedOn(days: seq<DayRecord>, date: int) {
    DayRecord(Some(date), true) in days
  }

  /** Dated records are strictly newest first: one record per date, in descending order. */
  predicate NewestFirst(days: seq<DayRecord>) {
    forall i, j :: 0 <= i < j < |days| && days[i].date.Some? && days[j].date.Some? ==>
      days[j].date.value < days[i].date.value
  }

  /** The streak the walk still adds when it reaches `days` expecting `expected`. */
  function ExpectedDateWalk(days: seq<DayRecord>, expected: int, today: int): (r: nat)
    ensures r <= |days|
  {
    if days == [] then 0
    else match days[0].date
      case None => ExpectedDateWalk(days[1..], expected, today)
      case Some(d) =>
        var date := CalendarMath.StartOfDay(d);
        if date > expected then ExpectedDateWalk(days[1..], expected, today)
        else if date < expected then 0
        else if days[0].didStudy then 1 + ExpectedDateWalk(days[1..], expected - 1, today)
        else if date != today then 0
        else ExpectedDateWalk(days[1..], expected, today)
  }

  /** `calculateStreakValue(days:)`, with the current day passed in as `today`. */
  method CalculateStreakValue(days: seq<DayRecord>, today: int) returns (streak: nat)
    ensures streak == ExpectedDateWalk(days, today, today)
    ensures streak <= |days|
    ensures forall d :: today - streak < d <= today ==> StudiedOn(days, d)
    ensures NewestFirst(days) ==> !StudiedOn(days, today - streak)
  {
    if days == [] {
      return 0;
    }
    streak := 0;
    var expectedDate := CalendarMath.StartOfDay(today);
    for i := 0 to |days|
      invariant expectedDate == today - streak
      invariant streak <= i
      invariant streak + ExpectedDateWalk(days[i..], expectedDate, today) == ExpectedDateWalk(days, today, today)
    {
      assert days[i..][0] == days[i] && days[i..][1..] == days[i + 1..];
      var day := days[i];
      if day.date.None? {
        continue;
      }
      var date := CalendarMath.StartOfDay(day.date.value);
      if date > expectedDate {
        continue;
      }
      if date < expectedDate {
        break;
      }
      if day.didStudy {
        streak := streak + 1;
        expectedDate := expectedDate - 1;
      } else {
        if date != today {
          break;
        }
      }
    }
    WalkCoversStudiedRun(days, today, today);
    if NewestFirst(days) {
      WalkEndsAtGap(days, today, today);
    }
  }

  /** Every day the walk counts, from the expected date back, has a studied record. */
  lemma {:induction false} WalkCoversStudiedRun(days: seq<DayRecord>, expected: int, today: int)
    ensures forall d :: expected - ExpectedDateWalk(days, expected, today) < d <= expected ==> StudiedOn(days, d)
  {
    if days != [] {
      var rest := days[1..];
      assert days == [days[0]] + rest;
      var date := days[0].date;
      if date.None? || date.value > expected || (date.value == expected && !days[0].didStudy && date.value == today) {
        assert ExpectedDateWalk(days, expected, today) == ExpectedDateWalk(rest, expected, today);
        WalkCoversStudiedRun(rest, expected, today);
        StudiedOnTail(days);
      } else if date.value == expected && days[0].didStudy {
        assert ExpectedDateWalk(days, expected, today) == 1 + ExpectedDateWalk(rest, expected - 1, today);
        WalkCoversStudiedRun(rest, expected - 1, today);
        StudiedOnTail(days);
      }
    }
  }

  lemma StudiedOnTail(days: seq<DayRecord>)
    requires days != []
    ensures forall d :: StudiedOn(days[1..], d) ==> StudiedOn(days, d)
  {
    assert days == [days[0]] + days[1..];
  }

  /** On records newest first, the day where the walk stops has no studied record: the
      streak is the whole run of studied days back from the expected date. */
  lemma {:induction false} WalkEndsAtGap(days: seq<DayRecord>, expected: int, today: int)
    requires NewestFirst(days)
    ensures !StudiedOn(days, expected - ExpectedDateWalk(days, expected, today))
  {
    if days != [] {
      var rest := days[1..];
      NewestFirstTail(days);
      var date := days[0].date;
      if date.None? || date.value > expected || (date.value == expected && !days[0].didStudy && date.value == today) {
        assert ExpectedDateWalk(days, expected, today) == ExpectedDateWalk(rest, expected, today);
        WalkEndsAtGap(rest, expected, today);
        StudiedOnTail(days);
      } else if date.value == expected && days[0].didStudy {
        assert ExpectedDateWalk(days, expected, today) == 1 + ExpectedDateWalk(rest, expected - 1, today);
        WalkEndsAtGap(rest, expected - 1, today);
        StudiedOnTail(days);
      } else {
        assert ExpectedDateWalk(days, expected, today) == 0;
        StudiedOnTail(days);
      }
    }
  }

  /** Records after the first of a newest-first list are newest first and strictly older. */
  lemma NewestFirstTail(days: seq<DayRecord>)
    requires days != [] && NewestFirst(days)
    ensures NewestFirst(days[1..])
    ensures days[0].date.Some? ==> forall d :: d >= days[0].date.value ==> !StudiedOn(days[1..], d)
  {
    var rest := days[1..];
    forall i, j | 0 <= i < j < |rest| && rest[i].date.Some? && rest[j].date.Some?
      ensures rest[j].date.value < rest[i].date.value
    {
      assert rest[i] == days[i + 1] && rest[j] == days[j + 1];
    }
    assert forall k :: 0 <= k < |rest| ==> rest[k] == days[k + 1];
  }

  /** An undated record, or one dated after the expected date, is skipped wherever it stands:
      inserting it anywhere leaves the streak unchanged, so a studied future-dated record never
      adds to it. */
  lemma {:induction false} SkippedRecordNeverCounts(days: seq<DayRecord>, k: nat, r: DayRecord, expected: int, today: int)
    requires k <= |days|
    requires r.date.None? || r.date.value > expected
    ensures ExpectedDateWalk(days[..k] + [r] + days[k..], expected, today) == ExpectedDateWalk(days, expected, today)
  {
    var withR := days[..k] + [r] + days[k..];
    if k == 0 {
      assert withR[1..] == days;
    } else {
      assert withR[0] == days[0];
      assert withR[1..] == days[1..][..k - 1] + [r] + days[1..][k - 1..];
      var d := days[0].date;
      if d.None? || d.value > expected {
        SkippedRecordNeverCounts(days[1..], k - 1, r, expected, today);
      } else if d.value == expected && days[0].didStudy {
        SkippedRecordNeverCounts(days[1..], k - 1, r, expected - 1, today);
      } else if d.value == expected && d.value == today {
        SkippedRecordNeverCounts(days[1..], k - 1, r, expected, today);
      }
    }
  }

  /** The walk only counts once it meets a studied record on the expected date: with no such
      record (today's record missing or unstudied), the streak is 0 whatever else is there. */
  lemma {:induction false} NoStudiedExpectedDayNoStreak(days: seq<DayRecord>, expected: int, today: int)
    requires !StudiedOn(days, expected)
    ensures ExpectedDateWalk(days, expected, today) == 0
  {
    if days != [] {
      assert forall x :: x in days[1..] ==> x in days;
      NoStudiedExpectedDayNoStreak(days[1..], expected, today);
    }
  }

  /** The records `getStreakValue` fetches: dated no later than `limit`. */
  function UpTo(store: seq<DayRecord>, limit: int): (r: seq<DayRecord>)
    ensures forall x :: x in r <==> x in store && x.date.Some? && x.date.value <= limit
  {
    Filter(store, (x: DayRecord) => x.date.Some? && x.date.value <= limit)
  }

  /** `fetched` is what the fetch request returns: the records of `store` dated no later
      than `limit`, sorted by date, newest first (equal dates in any order). */
  predicate IsDescendingFetch(store: seq<DayRecord>, fetched: seq<DayRecord>, limit: int) {
    multiset(fetched) == multiset(UpTo(store, limit)) &&
    forall i, j :: 0 <= i < j < |fetched| ==>
      fetched[i].date.Some? && fetched[j].date.Some? && fetched[j].date.value <= fetched[i].date.value
  }

  /** Studied records on or before `limit` are the same in the store and in its fetch. */
  lemma FetchKeepsStudiedDays(store: seq<DayRecord>, fetched: seq<DayRecord>, limit: int, date: int)
    requires IsDescendingFetch(store, fetched, limit)
    ensures StudiedOn(fetched, date) ==> StudiedOn(store, date)
    ensures date <= limit && StudiedOn(store, date) ==> StudiedOn(fetched, date)
  {
    var x := DayRecord(Some(date), true);
    assert x in fetched <==> x in multiset(fetched);
    assert x in UpTo(store, limit) <==> x in multiset(UpTo(store, limit));
  }

  /** `getStreakValue(context:)` from the fetch on, with the current day passed in as `today`:
      `fetchResult` is `None` when the fetch fails, otherwise the fetched records (see
      `IsDescendingFetch`). A failed or empty fetch gives 0; otherwise the same expected-date
      walk runs over the fetched records. */
  method GetStreakValue(fetchResult: Option<seq<DayRecord>>, today: int) returns (streak: nat)
    ensures fetchResult.None? ==> streak == 0
    ensures fetchResult.Some? ==> streak == ExpectedDateWalk(fetchResult.value, today, today)
    ensures fetchResult.Some? ==> forall d :: today - streak < d <= today ==> StudiedOn(fetchResult.value, d)
    ensures fetchResult.Some? && NewestFirst(fetchResult.value) ==> !StudiedOn(fetchResult.value, today - streak)
  {
    if fetchResult.None? || fetchResult.value == [] {
      return 0;
    }
    var days := fetchResult.value;
    streak := 0;
    var expectedDate := CalendarMath.StartOfDay(today);
    for i := 0 to |days|
      invariant expectedDate == today - streak
      invariant streak + ExpectedDateWalk(days[i..], expectedDate, today) == ExpectedDateWalk(days, today, today)
    {
      assert days[i..][0] == days[i] && days[i..][1..] == days[i + 1..];
      var day := days[i];
      if day.date.None? {
        continue;
      }
      var date := CalendarMath.StartOfDay(day.date.value);
      if date > expectedDate {
        continue;
      }
      if date < expectedDate {
        break;
      }
      if day.didStudy {
        streak := streak + 1;
        expectedDate := expectedDate - 1;
      } else {
        if date != today {
          break;
        }
      }
    }
    WalkCoversStudiedRun(days, today, today);
    if NewestFirst(days) {
      WalkEndsAtGap(days, today, today);
    }
  }

  /** On what the fetch of `getStreakValue` returns (records dated up to the end of today,
      newest first), the days the walk counts are studied in the store, and on strictly
      newest-first records the day it stops at is not: the streak is the store's run of
      studied days ending today. */
  lemma FetchedWalkInStore(store: seq<DayRecord>, fetched: seq<DayRecord>, today: int, streak: nat)
    requires IsDescendingFetch(store, fetched, CalendarMath.EndOfDay(today))
    requires streak == ExpectedDateWalk(fetched, today, today)
    ensures forall d :: today - streak < d <= today ==> StudiedOn(store, d)
    ensures NewestFirst(fetched) ==> !StudiedOn(store, today - streak)
  {
    WalkCoversStudiedRun(fetched, today, today);
    forall d | today - ExpectedDateWalk(fetched, today, today) < d <= today
      ensures StudiedOn(store, d)
    {
      FetchKeepsStudiedDays(store, fetched, CalendarMath.EndOfDay(today), d);
    }
    if NewestFirst(fetched) {
      WalkEndsAtGap(fetched, today, today);
      FetchKeepsStudiedDays(store, fetched, CalendarMath.EndOfDay(today), today - ExpectedDateWalk(fetched, today, today));
    }
  }

  /** Today and yesterday studied, the day before not: a streak of 2. */
  lemma TwoStudiedDays(today: int)
    ensures ExpectedDateWalk([DayRecord(Some(today), true), DayRecord(Some(today - 1), true),
                              DayRecord(Some(today - 2), false)], today, today) == 2
  {
    var days := [DayRecord(Some(today), true), DayRecord(Some(today - 1), true), DayRecord(Some(today - 2), false)];
    assert ExpectedDateWalk(days[2..], today - 2, today) == 0;
    assert ExpectedDateWalk(days[1..], today - 1, today) == 1;
  }

  /** Today not (yet) studied ends the walk at the record for yesterday: there is no grace day. */
  lemma UnstudiedTodayGivesZero(today: int)
    ensures ExpectedDateWalk([DayRecord(Some(today), false), DayRecord(Some(today - 1), true),
                              DayRecord(Some(today - 2), true)], today, today) == 0
  {
  }
}
