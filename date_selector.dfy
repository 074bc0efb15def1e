/**
 * The admin's date picker (`DateSelector`): picking a calendar day adds it
 * to the list, kept in time order, or removes it when that day is already
 * there; chips remove one entry; "clear all" empties the list.
 */
module DateSelector {
  import opened Calendar

  /** Ascending by `getTime()` (see `NotLaterIsTimeOrder`). */
  predicate SortedByTime(s: seq<Instant>)
  {
    forall i, j :: 0 <= i < j < |s| ==> NotLater(s[i], s[j])
  }

  /** Some entry has the calendar day (`toDateString()` equality). */
  predicate HasDay(dates: seq<Instant>, day: int)
  {
    exists i :: 0 <= i < |dates| && dates[i].day == day
  }

  /** `filter((d) => d.toDateString() !== date.toDateString())`. */
  function WithoutDay(dates: seq<Instant>, day: int): (r: seq<Instant>)
    ensures forall x :: x in r <==> x in dates && x.day != day
    ensures !HasDay(r, day)
  {
    if dates == [] then []
    else (if dates[0].day != day then [dates[0]] else []) + WithoutDay(dates[1..], day)
  }

  lemma {:induction false} WithoutDayKeepsOrder(dates: seq<Instant>, day: int)
    requires SortedByTime(dates)
    ensures SortedByTime(WithoutDay(dates, day))
  {
    if dates != [] {
      WithoutDayKeepsOrder(dates[1..], day);
      var rest := WithoutDay(dates[1..], day);
      forall x | x in rest ensures NotLater(dates[0], x) {
        var k :| 0 <= k < |dates[1..]| && dates[1..][k] == x;
        assert dates[k + 1] == x;
      }
    }
  }

  lemma {:induction false} WithoutDayKeepsDistinctDays(dates: seq<Instant>, day: int)
    requires DistinctDays(dates)
    ensures DistinctDays(WithoutDay(dates, day))
  {
    if dates != [] {
      assert DistinctDays(dates[1..]) by {
        forall i, j | 0 <= i < j < |dates[1..]| ensures dates[1..][i].day != dates[1..][j].day {
          assert dates[1..][i] == dates[i + 1] && dates[1..][j] == dates[j + 1];
        }
      }
      WithoutDayKeepsDistinctDays(dates[1..], day);
      var rest := WithoutDay(dates[1..], day);
      forall x | x in rest ensures x.day != dates[0].day {
        var k :| 0 <= k < |dates[1..]| && dates[1..][k] == x;
        assert dates[k + 1] == x;
      }
    }
  }

  /** Insert into a time-ordered list after every entry that is not later. */
  function InsertByTime(x: Instant, s: seq<Instant>): (r: seq<Instant>)
    ensures multiset(r) == multiset(s) + multiset{x}
  {
    if s == [] then [x]
    else if !NotLater(s[0], x) then [x] + s
    else
      assert s == [s[0]] + s[1..];
      [s[0]] + InsertByTime(x, s[1..])
  }

  /** Every element of an insertion is the inserted date or one of the list's. */
  lemma InsertElements(x: Instant, s: seq<Instant>, y: Instant)
    requires y in InsertByTime(x, s)
    ensures y == x || y in s
  {
    assert y in multiset(InsertByTime(x, s));
  }

  lemma {:induction false} InsertKeepsOrder(x: Instant, s: seq<Instant>)
    requires SortedByTime(s)
    ensures SortedByTime(InsertByTime(x, s))
  {
    if s != [] && NotLater(s[0], x) {
      var tail := s[1..];
      assert SortedByTime(tail) by {
        forall i, j | 0 <= i < j < |tail| ensures NotLater(tail[i], tail[j]) {
          assert tail[i] == s[i + 1] && tail[j] == s[j + 1];
        }
      }
      InsertKeepsOrder(x, tail);
      var rest := InsertByTime(x, tail);
      var r := [s[0]] + rest;
      forall i, j | 0 <= i < j < |r| ensures NotLater(r[i], r[j]) {
        if i == 0 {
          assert r[j] == rest[j - 1];
          InsertElements(x, tail, rest[j - 1]);
          if rest[j - 1] != x {
            var k :| 0 <= k < |tail| && tail[k] == rest[j - 1];
            assert s[k + 1] == rest[j - 1];
          }
        } else {
          assert r[i] == rest[i - 1] && r[j] == rest[j - 1];
        }
      }
    } else if s != [] {
      var r := [x] + s;
      forall i, j | 0 <= i < j < |r| ensures NotLater(r[i], r[j]) {
        if i == 0 {
          assert r[j] == s[j - 1];
          assert NotLater(s[0], s[j - 1]) || j - 1 == 0;
        } else {
          assert r[i] == s[i - 1] && r[j] == s[j - 1];
        }
      }
    }
  }

  /** `sort((a, b) => a.getTime() - b.getTime())`: an insertion sort. */
  function SortByTime(s: seq<Instant>): (r: seq<Instant>)
    ensures SortedByTime(r)
    ensures multiset(r) == multiset(s)
  {
    if s == [] then []
    else
      assert s == s[..|s| - 1] + [s[|s| - 1]];
      InsertKeepsOrder(s[|s| - 1], SortByTime(s[..|s| - 1]));
      InsertByTime(s[|s| - 1], SortByTime(s[..|s| - 1]))
  }

  /** Two lists holding the same dates have the same calendar days. */
  lemma SameElementsSameDays(a: seq<Instant>, b: seq<Instant>, day: int)
    requires multiset(a) == multiset(b)
    ensures HasDay(a, day) <==> HasDay(b, day)
  {
    if HasDay(a, day) {
      var i :| 0 <= i < |a| && a[i].day == day;
      assert a[i] in multiset(b);
      var j :| 0 <= j < |b| && b[j] == a[i];
    }
    if HasDay(b, day) {
      var i :| 0 <= i < |b| && b[i].day == day;
      assert b[i] in multiset(a);
      var j :| 0 <= j < |a| && a[j] == b[i];
    }
  }

  lemma {:induction false} InsertKeepsDistinctDays(x: Instant, s: seq<Instant>)
    requires DistinctDays(s) && !HasDay(s, x.day)
    ensures DistinctDays(InsertByTime(x, s))
  {
    if s != [] && NotLater(s[0], x) {
      assert DistinctDays(s[1..]) by {
        forall i, j | 0 <= i < j < |s[1..]| ensures s[1..][i].day != s[1..][j].day {
          assert s[1..][i] == s[i + 1] && s[1..][j] == s[j + 1];
        }
      }
      assert !HasDay(s[1..], x.day) by {
        forall i | 0 <= i < |s[1..]| ensures s[1..][i].day != x.day {
          assert s[1..][i] == s[i + 1];
        }
      }
      InsertKeepsDistinctDays(x, s[1..]);
      var rest := InsertByTime(x, s[1..]);
      forall y | y in rest ensures y.day != s[0].day {
        InsertElements(x, s[1..], y);
        if y != x {
          var k :| 0 <= k < |s[1..]| && s[1..][k] == y;
          assert s[k + 1] == y;
        } else {
          assert s[0].day != x.day;
        }
      }
      var r := [s[0]] + rest;
      forall i, j | 0 <= i < j < |r| ensures r[i].day != r[j].day {
        if i == 0 {
          assert r[j] == rest[j - 1] && r[j] in rest;
        } else {
          assert r[i] == rest[i - 1] && r[j] == rest[j - 1];
        }
      }
    } else if s != [] {
      var r := [x] + s;
      forall i, j | 0 <= i < j < |r| ensures r[i].day != r[j].day {
        if i == 0 {
          assert r[j] == s[j - 1];
        } else {
          assert r[i] == s[i - 1] && r[j] == s[j - 1];
        }
      }
    }
  }

  lemma {:induction false} SortKeepsDistinctDays(s: seq<Instant>)
    requires DistinctDays(s)
    ensures DistinctDays(SortByTime(s))
  {
    if s != [] {
      var init := s[..|s| - 1];
      var x := s[|s| - 1];
      assert DistinctDays(init) by {
        forall i, j | 0 <= i < j < |init| ensures init[i].day != init[j].day {
          assert init[i] == s[i] && init[j] == s[j];
        }
      }
      SortKeepsDistinctDays(init);
      assert !HasDay(init, x.day) by {
        forall i | 0 <= i < |init| ensures init[i].day != x.day {
          assert init[i] == s[i];
        }
      }
      SameElementsSameDays(SortByTime(init), init, x.day);
      InsertKeepsDistinctDays(x, SortByTime(init));
    }
  }

  /**
   * `handleSelect`: no date does nothing; a day already in the list is
   * removed; any other date is added and the list re-sorted by time.
   */
  function HandleSelect(dates: seq<Instant>, date: Option<Instant>): (r: seq<Instant>)
    ensures date.None? ==> r == dates
    ensures date.Some? && !HasDay(dates, date.value.day) ==>
              SortedByTime(r) && multiset(r) == multiset(dates) + multiset{date.value}
  {
    if date.None? then dates
    else if HasDay(dates, date.value.day) then WithoutDay(dates, date.value.day)
    else SortByTime(dates + [date.value])
  }

  /** Picking a date flips whether its calendar day is in the list and leaves every other day alone. */
  lemma HandleSelectToggles(dates: seq<Instant>, date: Instant, day: int)
    ensures HasDay(HandleSelect(dates, Some(date)), date.day) <==> !HasDay(dates, date.day)
    ensures day != date.day ==> (HasDay(HandleSelect(dates, Some(date)), day) <==> HasDay(dates, day))
  {
    var r := HandleSelect(dates, Some(date));
    if HasDay(dates, date.day) {
      if day != date.day && HasDay(dates, day) {
        var i :| 0 <= i < |dates| && dates[i].day == day;
        assert dates[i] in r;
      }
    } else {
      var added := dates + [date];
      SameElementsSameDays(r, added, date.day);
      SameElementsSameDays(r, added, day);
      assert added[|dates|] == date;
      if HasDay(added, day) && day != date.day {
        var i :| 0 <= i < |added| && added[i].day == day;
        assert added[i] == dates[i];
      }
    }
  }

  /** The list stays in time order and never holds two dates of one calendar day. */
  lemma HandleSelectKeepsInvariant(dates: seq<Instant>, date: Option<Instant>)
    requires SortedByTime(dates) && DistinctDays(dates)
    ensures SortedByTime(HandleSelect(dates, date)) && DistinctDays(HandleSelect(dates, date))
  {
    if date.Some? {
      if HasDay(dates, date.value.day) {
        WithoutDayKeepsOrder(dates, date.value.day);
        WithoutDayKeepsDistinctDays(dates, date.value.day);
      } else {
        var added := dates + [date.value];
        forall i, j | 0 <= i < j < |added| ensures added[i].day != added[j].day {
          if j == |dates| {
            assert added[i] == dates[i];
          } else {
            assert added[i] == dates[i] && added[j] == dates[j];
          }
        }
        SortKeepsDistinctDays(added);
      }
    }
  }

  /** The chip's remove button: `filter((_, i) => i !== index)`. */
  function RemoveAt(dates: seq<Instant>, index: int): (r: seq<Instant>)
    ensures 0 <= index < |dates| ==> |r| == |dates| - 1 && multiset(r) + multiset{dates[index]} == multiset(dates)
    ensures !(0 <= index < |dates|) ==> r == dates
  {
    if 0 <= index < |dates| then
      assert dates == dates[..index] + [dates[index]] + dates[index + 1..];
      dates[..index] + dates[index + 1..]
    else dates
  }

  lemma RemoveAtKeepsInvariant(dates: seq<Instant>, index: int)
    requires SortedByTime(dates) && DistinctDays(dates)
    ensures SortedByTime(RemoveAt(dates, index)) && DistinctDays(RemoveAt(dates, index))
  {
    if 0 <= index < |dates| {
      var r := RemoveAt(dates, index);
      assert forall k :: 0 <= k < |r| ==> r[k] == if k < index then dates[k] else dates[k + 1];
    }
  }
}
