/** The record types the calendar and streak logic work on. */
module Models {

  datatype Option<T> = None | Some(value: T)

  /** A stored `Day`: its `date` attribute is optional in the Core Data model, and holds a
      whole day (see CalendarMath); `didStudy` is the study flag. */
  datatype DayRecord = DayRecord(date: Option<int>, didStudy: bool)

  /** A stored `CalendarViewSettings` object. */
  datatype CalendarViewSettings = CalendarViewSettings(showOnlyMonthDays: bool)

  /** One cell of a 7-column calendar grid: the day of the month with its study flag, or a blank. */
  datatype GridCell = DayCell(day: int, studied: bool) | Blank
}

/** Sequence helpers: the `filter` the views and fetch predicates apply. */
module Seqs {

  /** The elements of `s` that satisfy `p`, in their original order. */
  function Filter<T(!new)>(s: seq<T>, p: T -> bool): (r: seq<T>)
    ensures |r| <= |s|
    ensures forall x :: x in r <==> x in s && p(x)
    ensures (forall x :: x in s ==> p(x)) ==> r == s
  {
    if s == [] then []
    else (if p(s[0]) then [s[0]] else []) + Filter(s[1..], p)
  }

  /** Filtering a concatenation filters each part. */
  lemma {:induction false} FilterAppend<T(!new)>(a: seq<T>, b: seq<T>, p: T -> bool)
    ensures Filter(a + b, p) == Filter(a, p) + Filter(b, p)
  {
    if a == [] {
      assert a + b == b;
    } else {
      assert (a + b)[1..] == a[1..] + b;
      FilterAppend(a[1..], b, p);
    }
  }

  /** Appending three runs one after the other appends their concatenation. */
  lemma SeqAppendThree<T>(d0: seq<T>, d1: seq<T>, d2: seq<T>, d3: seq<T>, a: seq<T>, b: seq<T>, c: seq<T>)
    requires d1 == d0 + a && d2 == d1 + b && d3 == d2 + c
    ensures d3 == d0 + (a + b + c)
  {
  }

  /** Appending two runs one after the other appends their concatenation. */
  lemma SeqAppendTwo<T>(d0: seq<T>, d1: seq<T>, d2: seq<T>, a: seq<T>, b: seq<T>)
    requires d1 == d0 + a && d2 == d1 + b
    ensures d2 == d0 + (a + b)
  {
  }

  /** Filtering keeps every element of a part whose elements all pass. */
  lemma FilterKeepsPassingPart<T(!new)>(s: seq<T>, a: seq<T>, b: seq<T>, c: seq<T>, p: T -> bool)
    requires forall x :: x in b ==> p(x)
    ensures |Filter(s + (a + b + c), p)| >= |b|
  {
    FilterAppend(s, a + b + c, p);
    FilterAppend(a + b, c, p);
    FilterAppend(a, b, p);
  }

  /** The same for a part at the front of the appended run. */
  lemma FilterKeepsPassingPrefix<T(!new)>(s: seq<T>, b: seq<T>, c: seq<T>, p: T -> bool)
    requires forall x :: x in b ==> p(x)
    ensures |Filter(s + (b + c), p)| >= |b|
  {
    FilterAppend(s, b + c, p);
    FilterAppend(b, c, p);
  }
}
