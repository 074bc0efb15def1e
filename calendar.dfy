/**
 * Values shared by every part of the timetable: nullable values, the
 * browser's `Date` objects, half-hour times of day, and the two ways the
 * grids decide that two dates are "the same".
 */
module Calendar {

  /** A value that may be `null` (or `undefined`). */
  datatype Option<T> = None | Some(value: T)

  const MsPerDay: int := 86_400_000

  type MsOfDay = x: int | 0 <= x < 86_400_000

  /**
   * A `Date`, in local time: the number of the calendar day it falls on and
   * the milliseconds elapsed since that day's midnight.
   */
  datatype Instant = Instant(day: int, ms: MsOfDay)

  /** `getTime()`: milliseconds since the epoch. */
  function Time(d: Instant): int
  {
    d.day * MsPerDay + d.ms
  }

  /** Local midnight of a day, the date `new Date(year, month, day)` builds. */
  function Midnight(day: int): (d: Instant)
    ensures d.day == day && d.ms == 0
  {
    Instant(day, 0)
  }

  /** Two dates have the same `getTime()` exactly when they are the same instant. */
  lemma TimeInjective(a: Instant, b: Instant)
    ensures Time(a) == Time(b) <==> a == b
  {
    if a.day < b.day {
      assert Time(a) < (a.day + 1) * MsPerDay <= Time(b);
    } else if b.day < a.day {
      assert Time(b) < (b.day + 1) * MsPerDay <= Time(a);
    }
  }

  /** Ordering by `getTime()` is ordering by day, then by time within the day. */
  lemma TimeOrder(a: Instant, b: Instant)
    ensures Time(a) < Time(b) <==> a.day < b.day || (a.day == b.day && a.ms < b.ms)
  {
    if a.day < b.day {
      assert Time(a) < (a.day + 1) * MsPerDay <= Time(b);
    } else if b.day < a.day {
      assert Time(b) < (b.day + 1) * MsPerDay <= Time(a);
    }
  }

  /** `a.getTime() <= b.getTime()`, stated without the multiplication. */
  predicate NotLater(a: Instant, b: Instant)
  {
    a.day < b.day || (a.day == b.day && a.ms <= b.ms)
  }

  lemma NotLaterIsTimeOrder(a: Instant, b: Instant)
    ensures NotLater(a, b) <==> Time(a) <= Time(b)
  {
    TimeOrder(a, b);
    TimeInjective(a, b);
  }

  /** An `{ hour, minute }` pair of the timetable. */
  datatype TimeOfDay = TimeOfDay(hour: int, minute: int)

  /** `hour * 60 + minute`: minutes since midnight. */
  function Minutes(t: TimeOfDay): int
  {
    t.hour * 60 + t.minute
  }

  /**
   * The admin grid finds a slot by comparing `getTime()` (ExactTime); the
   * mentor/applicant grid and the store compare `toDateString()`
   * (CalendarDay), which ignores the time of day.
   */
  datatype DateEquality = ExactTime | CalendarDay

  /** The part of a date that a comparison of the given kind looks at. */
  function DateKey(eq: DateEquality, d: Instant): (k: Instant)
    ensures k.day == d.day
    ensures eq == ExactTime ==> k == d
  {
    match eq
    case ExactTime => d
    case CalendarDay => Midnight(d.day)
  }

  predicate SameDate(eq: DateEquality, a: Instant, b: Instant)
  {
    DateKey(eq, a) == DateKey(eq, b)
  }

  /** No two dates of the list fall on the same calendar day. */
  predicate DistinctDays(dates: seq<Instant>)
  {
    forall i, j :: 0 <= i < j < |dates| ==> dates[i].day != dates[j].day
  }

  /** What each kind of comparison means, stated without DateKey. */
  lemma SameDateMeaning(a: Instant, b: Instant)
    ensures SameDate(ExactTime, a, b) <==> Time(a) == Time(b)
    ensures SameDate(CalendarDay, a, b) <==> a.day == b.day
    ensures SameDate(ExactTime, a, b) ==> SameDate(CalendarDay, a, b)
  {
    TimeInjective(a, b);
  }
}

/** Small facts about sequences used by both grids. */
module Sequences {

  /** No element occurs twice. */
  predicate Distinct<T(==)>(s: seq<T>)
  {
    forall i, j :: 0 <= i < j < |s| ==> s[i] != s[j]
  }

  lemma DistinctConcat<T>(a: seq<T>, b: seq<T>)
    requires Distinct(a) && Distinct(b)
    requires forall x :: x in a ==> x !in b
    ensures Distinct(a + b)
  {
    forall i, j | 0 <= i < j < |a + b|
      ensures (a + b)[i] != (a + b)[j]
    {
      if j < |a| {
        assert (a + b)[i] == a[i] && (a + b)[j] == a[j];
      } else if i >= |a| {
        assert (a + b)[i] == b[i - |a|] && (a + b)[j] == b[j - |a|];
      } else {
        assert (a + b)[i] == a[i] && (a + b)[j] == b[j - |a|];
        assert a[i] in a && b[j - |a|] in b;
      }
    }
  }
}
