/**
 * The time axis of both grids: 49 half-hour points from 00:00 to 24:00,
 * cut down to the configured half-open window `[startTime, endTime)`.
 */
module TimeAxis {
  import opened Calendar
  import opened Sequences

  const BlockCount: int := 49

  /** The i-th point of the full axis: `Math.floor(i / 2)` hours and `(i % 2) * 30` minutes. */
  function Block(i: nat): TimeOfDay
  {
    TimeOfDay(i / 2, (i % 2) * 30)
  }

  /** `timeBlocks`: every half hour from 00:00 to 24:00 inclusive. */
  function TimeBlocks(): seq<TimeOfDay>
  {
    seq(BlockCount, i requires 0 <= i < BlockCount => Block(i))
  }

  predicate InWindow(t: TimeOfDay, startMinutes: int, endMinutes: int)
  {
    startMinutes <= Minutes(t) < endMinutes
  }

  /** The `filter` callback applied to every point, in order. */
  function FilterWindow(ts: seq<TimeOfDay>, startMinutes: int, endMinutes: int): seq<TimeOfDay>
  {
    if ts == [] then []
    else (if InWindow(ts[0], startMinutes, endMinutes) then [ts[0]] else [])
         + FilterWindow(ts[1..], startMinutes, endMinutes)
  }

  /**
   * `filteredTimeBlocks`: all 49 points when either bound is null, otherwise
   * the points at or after the start and strictly before the end.
   */
  function VisibleTimes(start: Option<TimeOfDay>, end: Option<TimeOfDay>): seq<TimeOfDay>
  {
    if start.None? || end.None? then TimeBlocks()
    else FilterWindow(TimeBlocks(), Minutes(start.value), Minutes(end.value))
  }

  /** The label-only last row, showing the end bound, is rendered. */
  predicate ShowsEndLabel(end: Option<TimeOfDay>, visible: seq<TimeOfDay>)
  {
    end.Some? && |visible| > 0
  }

  // ---------------------------------------------------------------------
  // A closed form of the filtered axis

  /** The points `Block(a)`, ..., `Block(b - 1)`. */
  function BlockRange(a: nat, b: nat): (r: seq<TimeOfDay>)
    ensures |r| == if a < b then b - a else 0
    ensures forall k :: 0 <= k < |r| ==> r[k] == Block(a + k)
    decreases b - a
  {
    if a >= b then [] else [Block(a)] + BlockRange(a + 1, b)
  }

  /** The index of the first axis point at or after `m` minutes, kept within 0..49. */
  function FirstIndexAtOrAfter(m: int): (k: nat)
    ensures k <= BlockCount
  {
    var c := (m + 29) / 30;
    if c < 0 then 0 else if c > BlockCount then BlockCount else c
  }

  lemma FirstIndexBound(m: int, i: nat)
    requires i < BlockCount
    ensures m <= 30 * i <==> FirstIndexAtOrAfter(m) <= i
  {
  }

  lemma BlockMinutes(i: nat)
    ensures Minutes(Block(i)) == 30 * i
  {
  }

  lemma {:induction false} FilterSuffix(a: nat, startMinutes: int, endMinutes: int)
    requires a <= BlockCount
    decreases BlockCount - a
    ensures var lo := FirstIndexAtOrAfter(startMinutes);
            var hi := FirstIndexAtOrAfter(endMinutes);
            FilterWindow(BlockRange(a, BlockCount), startMinutes, endMinutes)
              == BlockRange(if a < lo then lo else a, hi)
  {
    var lo := FirstIndexAtOrAfter(startMinutes);
    var hi := FirstIndexAtOrAfter(endMinutes);
    if a < BlockCount {
      var rest := BlockRange(a + 1, BlockCount);
      assert BlockRange(a, BlockCount)[1..] == rest;
      FilterSuffix(a + 1, startMinutes, endMinutes);
      BlockMinutes(a);
      FirstIndexBound(startMinutes, a);
      FirstIndexBound(endMinutes, a);
      if InWindow(Block(a), startMinutes, endMinutes) {
        assert lo <= a < hi;
      }
    }
  }

  /** With both bounds set, the axis is exactly the run of points from the start up to the end. */
  lemma VisibleWindow(start: TimeOfDay, end: TimeOfDay)
    ensures VisibleTimes(Some(start), Some(end))
              == BlockRange(FirstIndexAtOrAfter(Minutes(start)), FirstIndexAtOrAfter(Minutes(end)))
  {
    assert TimeBlocks() == BlockRange(0, BlockCount);
    FilterSuffix(0, Minutes(start), Minutes(end));
  }

  /** Facts about the full axis, kept apart from the filter so that the solver does not unfold it. */
  lemma FullAxis()
    ensures |TimeBlocks()| == 49 && TimeBlocks()[0] == TimeOfDay(0, 0) && TimeBlocks()[48] == TimeOfDay(24, 0)
    ensures forall i :: 0 <= i < 49 ==> Minutes(TimeBlocks()[i]) == 30 * i
  {
    FullAxisEnds();
    FullAxisAscends();
  }

  lemma FullAxisEnds()
    ensures |TimeBlocks()| == 49 && TimeBlocks()[0] == TimeOfDay(0, 0) && TimeBlocks()[48] == TimeOfDay(24, 0)
  {
  }

  lemma FullAxisAscends()
    ensures forall i :: 0 <= i < 49 ==> Minutes(TimeBlocks()[i]) == 30 * i
  {
    forall i | 0 <= i < 49 ensures Minutes(TimeBlocks()[i]) == 30 * i {
      BlockMinutes(i);
    }
  }

  lemma RangeElementInWindow(lo: nat, hi: nat, startMinutes: int, endMinutes: int, k: nat)
    requires lo == FirstIndexAtOrAfter(startMinutes) && hi == FirstIndexAtOrAfter(endMinutes)
    requires k < |BlockRange(lo, hi)|
    ensures BlockRange(lo, hi)[k] in TimeBlocks()
    ensures InWindow(BlockRange(lo, hi)[k], startMinutes, endMinutes)
  {
    BlockMinutes(lo + k);
    FirstIndexBound(startMinutes, lo + k);
    FirstIndexBound(endMinutes, lo + k);
    assert TimeBlocks()[lo + k] == BlockRange(lo, hi)[k];
  }

  lemma WindowElementInRange(lo: nat, hi: nat, startMinutes: int, endMinutes: int, i: nat)
    requires lo == FirstIndexAtOrAfter(startMinutes) && hi == FirstIndexAtOrAfter(endMinutes)
    requires i < BlockCount && InWindow(Block(i), startMinutes, endMinutes)
    ensures Block(i) in BlockRange(lo, hi)
  {
    BlockMinutes(i);
    FirstIndexBound(startMinutes, i);
    FirstIndexBound(endMinutes, i);
    var k := i - lo;
    assert lo + k == i;
    assert BlockRange(lo, hi)[k] == Block(i);
  }

  lemma RangeMembership(lo: nat, hi: nat, startMinutes: int, endMinutes: int)
    requires lo == FirstIndexAtOrAfter(startMinutes) && hi == FirstIndexAtOrAfter(endMinutes)
    ensures forall t :: t in BlockRange(lo, hi) <==> t in TimeBlocks() && InWindow(t, startMinutes, endMinutes)
    ensures forall i, j :: 0 <= i < j < |BlockRange(lo, hi)| ==>
              Minutes(BlockRange(lo, hi)[i]) < Minutes(BlockRange(lo, hi)[j])
  {
    var v := BlockRange(lo, hi);
    forall t | t in v ensures t in TimeBlocks() && InWindow(t, startMinutes, endMinutes) {
      var k :| 0 <= k < |v| && v[k] == t;
      RangeElementInWindow(lo, hi, startMinutes, endMinutes, k);
    }
    forall t | t in TimeBlocks() && InWindow(t, startMinutes, endMinutes) ensures t in v {
      var i :| 0 <= i < BlockCount && TimeBlocks()[i] == t;
      WindowElementInRange(lo, hi, startMinutes, endMinutes, i);
    }
    forall i, j | 0 <= i < j < |v| ensures Minutes(v[i]) < Minutes(v[j]) {
      BlockMinutes(lo + i);
      BlockMinutes(lo + j);
    }
  }

  /**
   * With both bounds set, a time is shown exactly when it is one of the 49
   * points and lies in `[start, end)`; the shown times strictly ascend.
   */
  lemma VisibleTimesExact(start: TimeOfDay, end: TimeOfDay)
    ensures var v := VisibleTimes(Some(start), Some(end));
            && (forall t :: t in v <==> t in TimeBlocks() && InWindow(t, Minutes(start), Minutes(end)))
            && (forall i, j :: 0 <= i < j < |v| ==> Minutes(v[i]) < Minutes(v[j]))
  {
    VisibleWindow(start, end);
    RangeMembership(FirstIndexAtOrAfter(Minutes(start)), FirstIndexAtOrAfter(Minutes(end)),
                    Minutes(start), Minutes(end));
  }

  /** The shown times never repeat, so a drag visits each of them once per date. */
  lemma VisibleTimesDistinct(start: Option<TimeOfDay>, end: Option<TimeOfDay>)
    ensures Distinct(VisibleTimes(start, end))
  {
    if start.None? || end.None? {
      FullAxis();
      var v := TimeBlocks();
      forall i, j | 0 <= i < j < |v| ensures v[i] != v[j] {
        assert Minutes(v[i]) < Minutes(v[j]);
      }
    } else {
      VisibleTimesExact(start.value, end.value);
    }
  }

  /** With either bound null, all 49 points from 00:00 to 24:00 are kept. */
  lemma UnboundedAxis(start: Option<TimeOfDay>, end: Option<TimeOfDay>)
    requires start.None? || end.None?
    ensures VisibleTimes(start, end) == TimeBlocks()
    ensures var v := VisibleTimes(start, end);
            |v| == 49 && v[0] == TimeOfDay(0, 0) && v[48] == TimeOfDay(24, 0)
            && forall i :: 0 <= i < |v| ==> Minutes(v[i]) == 30 * i
  {
    assert VisibleTimes(start, end) == TimeBlocks();
    FullAxis();
  }

  /** A start at or after the end leaves no row, and so no end label either. */
  lemma InvertedWindowIsEmpty(start: TimeOfDay, end: TimeOfDay)
    requires Minutes(start) >= Minutes(end)
    ensures VisibleTimes(Some(start), Some(end)) == []
    ensures !ShowsEndLabel(Some(end), VisibleTimes(Some(start), Some(end)))
  {
    VisibleWindow(start, end);
  }

  lemma NineToElevenRange()
    ensures BlockRange(18, 22) == [TimeOfDay(9, 0), TimeOfDay(9, 30), TimeOfDay(10, 0), TimeOfDay(10, 30)]
  {
    var r := BlockRange(18, 22);
    assert r[0] == Block(18) && r[1] == Block(19) && r[2] == Block(20) && r[3] == Block(21);
  }

  lemma WindowOfFourRows(start: TimeOfDay, end: TimeOfDay)
    requires Minutes(start) == 540 && Minutes(end) == 660
    ensures VisibleTimes(Some(start), Some(end))
              == [TimeOfDay(9, 0), TimeOfDay(9, 30), TimeOfDay(10, 0), TimeOfDay(10, 30)]
  {
    VisibleWindow(start, end);
    assert FirstIndexAtOrAfter(Minutes(start)) == 18;
    assert FirstIndexAtOrAfter(Minutes(end)) == 22;
    NineToElevenRange();
  }

  /** A 09:00 to 11:00 window shows 09:00, 09:30, 10:00, 10:30 and an 11:00 end label. */
  lemma NineToEleven()
    ensures var v := VisibleTimes(Some(TimeOfDay(9, 0)), Some(TimeOfDay(11, 0)));
            v == [TimeOfDay(9, 0), TimeOfDay(9, 30), TimeOfDay(10, 0), TimeOfDay(10, 30)]
            && ShowsEndLabel(Some(TimeOfDay(11, 0)), v)
  {
    WindowOfFourRows(TimeOfDay(9, 0), TimeOfDay(11, 0));
  }

  /** An 11:00 to 09:00 window shows no row. */
  lemma ElevenToNine()
    ensures VisibleTimes(Some(TimeOfDay(11, 0)), Some(TimeOfDay(9, 0))) == []
  {
    InvertedWindowIsEmpty(TimeOfDay(11, 0), TimeOfDay(9, 0));
  }
}
