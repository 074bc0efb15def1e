/**
 * The admin grid (`BlockGrid`): the picked dates as columns, the visible
 * time axis as rows, and a drag gesture that blocks or unblocks every cell
 * of a rectangle in the page's draft. Records are found by exact timestamp
 * (`getTime()`), and every lookup reads the draft as it was when the
 * gesture began, not the list being built.
 */
module BlockGrid {
  import opened Calendar
  import opened Sequences
  import opened TimeAxis
  import opened SlotSet
  import opened DragArea
  import opened AdminDashboard

  /**
   * `setSlotBlocked(slots, ...)`: a missing date leaves `slots` as it is;
   * otherwise the cell is looked up in `original` (the `blockedSlots` prop)
   * and the entry at that index of `slots` gets `blocked`, or a new record
   * is pushed when the lookup finds nothing.
   */
  function SetSlotBlocked(original: seq<Slot>, slots: seq<Slot>, dates: seq<Instant>,
                          dateIndex: int, hour: int, minute: int, blocked: bool): (r: seq<Slot>)
    requires |original| <= |slots|
    ensures !(0 <= dateIndex < |dates|) ==> r == slots
    ensures 0 <= dateIndex < |dates| && StateAt(ExactTime, original, dates[dateIndex], hour, minute).Some? ==>
              var i := IndexOf(original, ExactTime, dates[dateIndex], hour, minute);
              && |r| == |slots|
              && KeyOf(ExactTime, r[i]) == KeyOf(ExactTime, slots[i]) && r[i].state == blocked
              && forall k :: 0 <= k < |slots| && k != i ==> r[k] == slots[k]
    ensures 0 <= dateIndex < |dates| && StateAt(ExactTime, original, dates[dateIndex], hour, minute).None? ==>
              r == slots + [Slot(dates[dateIndex], hour, minute, blocked)]
    ensures |slots| <= |r| && forall k {:trigger KeyOf(ExactTime, r[k])} :: 0 <= k < |slots| ==> KeyOf(ExactTime, r[k]) == KeyOf(ExactTime, slots[k])
  {
    if !(0 <= dateIndex < |dates|) then slots
    else
      var i := IndexOf(original, ExactTime, dates[dateIndex], hour, minute);
      if i != -1 then slots[i := slots[i].(state := blocked)]
      else slots + [Slot(dates[dateIndex], hour, minute, blocked)]
  }

  /** With the list itself as `original` (the keyboard path), `setSlotBlocked` is the plain insert-or-update. */
  lemma SetSlotBlockedOnItself(slots: seq<Slot>, dates: seq<Instant>, dateIndex: int, hour: int, minute: int, blocked: bool)
    requires 0 <= dateIndex < |dates|
    ensures SetSlotBlocked(slots, slots, dates, dateIndex, hour, minute, blocked)
            == Upsert(ExactTime, slots, dates[dateIndex], hour, minute, blocked)
  {
  }

  /** The successive `setSlotBlocked` calls of `selectArea`, one per visited cell, all looking up in `original`. */
  function ApplyBlocked(original: seq<Slot>, slots: seq<Slot>, dates: seq<Instant>,
                        cells: seq<Cell>, blocked: bool): (r: seq<Slot>)
    requires |original| <= |slots|
    ensures |slots| <= |r|
    ensures forall k {:trigger KeyOf(ExactTime, r[k])} :: 0 <= k < |slots| ==> KeyOf(ExactTime, r[k]) == KeyOf(ExactTime, slots[k])
  {
    if cells == [] then slots
    else
      var c := cells[|cells| - 1];
      SetSlotBlocked(original, ApplyBlocked(original, slots, dates, cells[..|cells| - 1], blocked), dates,
                     c.dateIndex, c.hour, c.minute, blocked)
  }

  lemma ApplyBlockedSnoc(original: seq<Slot>, slots: seq<Slot>, dates: seq<Instant>,
                         cells: seq<Cell>, c: Cell, blocked: bool)
    requires |original| <= |slots|
    ensures ApplyBlocked(original, slots, dates, cells + [c], blocked)
            == SetSlotBlocked(original, ApplyBlocked(original, slots, dates, cells, blocked), dates,
                              c.dateIndex, c.hour, c.minute, blocked)
  {
    assert (cells + [c])[..|cells|] == cells;
  }

  /** Visiting `first` and then `second` is visiting `first + second`. */
  lemma {:induction false} ApplyBlockedConcat(original: seq<Slot>, slots: seq<Slot>, dates: seq<Instant>,
                                              first: seq<Cell>, second: seq<Cell>, blocked: bool)
    requires |original| <= |slots|
    ensures ApplyBlocked(original, slots, dates, first + second, blocked)
            == ApplyBlocked(original, ApplyBlocked(original, slots, dates, first, blocked), dates, second, blocked)
  {
    if second == [] {
      assert first + second == first;
    } else {
      var init := second[..|second| - 1];
      var c := second[|second| - 1];
      assert second == init + [c];
      assert first + second == (first + init) + [c];
      ApplyBlockedConcat(original, slots, dates, first, init, blocked);
      ApplyBlockedSnoc(original, slots, dates, first + init, c, blocked);
      ApplyBlockedSnoc(original, ApplyBlocked(original, slots, dates, first, blocked), dates, init, c, blocked);
    }
  }

  /**
   * A list that extends `original` with the same keys in its first entries
   * finds every key of `original` at the same index, and every other key,
   * if at all, only past the end of `original`.
   */
  lemma IndexOfExtension(original: seq<Slot>, slots: seq<Slot>, date: Instant, hour: int, minute: int)
    requires |original| <= |slots|
    requires forall k :: 0 <= k < |original| ==> KeyOf(ExactTime, slots[k]) == KeyOf(ExactTime, original[k])
    ensures IndexOf(original, ExactTime, date, hour, minute) != -1 ==>
              IndexOf(slots, ExactTime, date, hour, minute) == IndexOf(original, ExactTime, date, hour, minute)
    ensures IndexOf(original, ExactTime, date, hour, minute) == -1 ==>
              IndexOf(slots, ExactTime, date, hour, minute) == -1
              || IndexOf(slots, ExactTime, date, hour, minute) >= |original|
  {
    assert forall k :: 0 <= k < |original| ==>
      (Matches(ExactTime, slots[k], date, hour, minute) <==> Matches(ExactTime, original[k], date, hour, minute));
  }

  /** Some visited cell has an existing date equal to `date` and the given time. */
  predicate Written(dates: seq<Instant>, cells: seq<Cell>, date: Instant, hour: int, minute: int)
  {
    exists c :: c in cells && 0 <= c.dateIndex < |dates| && dates[c.dateIndex] == date
                && c.hour == hour && c.minute == minute
  }

  /**
   * One `setSlotBlocked` call, read back: the visited date and time reports
   * the direction and every other one what it did before, provided a key
   * missing from `original` is either missing from the list being built or
   * already set to the direction.
   */
  lemma SetSlotBlockedReadBack(original: seq<Slot>, slots: seq<Slot>, dates: seq<Instant>,
                               dateIndex: int, hour: int, minute: int, blocked: bool,
                               date: Instant, hour': int, minute': int)
    requires |original| <= |slots|
    requires forall k :: 0 <= k < |original| ==> KeyOf(ExactTime, slots[k]) == KeyOf(ExactTime, original[k])
    requires 0 <= dateIndex < |dates| && StateAt(ExactTime, original, dates[dateIndex], hour, minute).None? ==>
               StateAt(ExactTime, slots, dates[dateIndex], hour, minute) in {None, Some(blocked)}
    ensures StateAt(ExactTime, SetSlotBlocked(original, slots, dates, dateIndex, hour, minute, blocked), date, hour', minute')
            == if 0 <= dateIndex < |dates| && dates[dateIndex] == date && hour == hour' && minute == minute'
               then Some(blocked)
               else StateAt(ExactTime, slots, date, hour', minute')
  {
    if 0 <= dateIndex < |dates| {
      var d := dates[dateIndex];
      var hit := d == date && hour == hour' && minute == minute';
      var r := SetSlotBlocked(original, slots, dates, dateIndex, hour, minute, blocked);
      var i := IndexOf(original, ExactTime, d, hour, minute);
      IndexOfExtension(original, slots, d, hour, minute);
      if i != -1 {
        IndexOfSameKeys(ExactTime, slots, r, date, hour', minute');
        if hit {
          IndexOfByKey(ExactTime, slots, d, hour, minute, date, hour', minute');
        } else {
          assert IndexOf(slots, ExactTime, date, hour', minute') != i;
        }
      } else {
        IndexOfAppend(ExactTime, slots, Slot(d, hour, minute, blocked), date, hour', minute');
        if hit {
          IndexOfByKey(ExactTime, slots, d, hour, minute, date, hour', minute');
        }
      }
    }
  }

  /**
   * The lookup in `original` is harmless: after the visits, every date and
   * time that a visited cell has reports the drag's direction, and every
   * other one reports what it did in `original`, even when a cell is
   * visited twice.
   */
  lemma {:induction false} ApplyBlockedReadBack(original: seq<Slot>, dates: seq<Instant>, cells: seq<Cell>, blocked: bool,
                                                date: Instant, hour: int, minute: int)
    ensures StateAt(ExactTime, ApplyBlocked(original, original, dates, cells, blocked), date, hour, minute)
            == if Written(dates, cells, date, hour, minute) then Some(blocked)
               else StateAt(ExactTime, original, date, hour, minute)
  {
    if cells != [] {
      var init := cells[..|cells| - 1];
      var c := cells[|cells| - 1];
      assert cells == init + [c];
      var acc := ApplyBlocked(original, original, dates, init, blocked);
      ApplyBlockedReadBack(original, dates, init, blocked, date, hour, minute);
      if 0 <= c.dateIndex < |dates| {
        ApplyBlockedReadBack(original, dates, init, blocked, dates[c.dateIndex], c.hour, c.minute);
      }
      SetSlotBlockedReadBack(original, acc, dates, c.dateIndex, c.hour, c.minute, blocked, date, hour, minute);
      if Written(dates, cells, date, hour, minute) && !Written(dates, init, date, hour, minute) {
        var w :| w in cells && 0 <= w.dateIndex < |dates| && dates[w.dateIndex] == date
                 && w.hour == hour && w.minute == minute;
        assert w == c;
      }
    }
  }

  /** No two visited cells with existing dates stand for the same date and time. */
  predicate DistinctCellKeys(dates: seq<Instant>, cells: seq<Cell>)
  {
    forall i, j :: 0 <= i < j < |cells| && 0 <= cells[i].dateIndex < |dates| && 0 <= cells[j].dateIndex < |dates| ==>
      CellKey(ExactTime, dates[cells[i].dateIndex], cells[i].hour, cells[i].minute)
      != CellKey(ExactTime, dates[cells[j].dateIndex], cells[j].hour, cells[j].minute)
  }

  /**
   * One `setSlotBlocked` call keeps keys unique when a key missing from
   * `original` is also missing from the list being built.
   */
  lemma SetSlotBlockedKeepsUniqueKeys(original: seq<Slot>, slots: seq<Slot>, dates: seq<Instant>,
                                      dateIndex: int, hour: int, minute: int, blocked: bool)
    requires |original| <= |slots|
    requires UniqueKeys(ExactTime, slots)
    requires 0 <= dateIndex < |dates| && StateAt(ExactTime, original, dates[dateIndex], hour, minute).None? ==>
               StateAt(ExactTime, slots, dates[dateIndex], hour, minute).None?
    ensures UniqueKeys(ExactTime, SetSlotBlocked(original, slots, dates, dateIndex, hour, minute, blocked))
  {
    if 0 <= dateIndex < |dates| {
      var d := dates[dateIndex];
      var r := SetSlotBlocked(original, slots, dates, dateIndex, hour, minute, blocked);
      if IndexOf(original, ExactTime, d, hour, minute) == -1 {
        forall k | 0 <= k < |slots| ensures KeyOf(ExactTime, r[k]) != KeyOf(ExactTime, r[|slots|]) {
          assert r[k] == slots[k];
          assert !Matches(ExactTime, slots[k], d, hour, minute);
        }
      } else {
        assert |r| == |slots| && forall k :: 0 <= k < |slots| ==> KeyOf(ExactTime, r[k]) == KeyOf(ExactTime, slots[k]);
      }
    }
  }

  /** With distinct cell keys, the last visited cell's date and time is not written by the earlier cells. */
  lemma LastCellNotWrittenBefore(dates: seq<Instant>, cells: seq<Cell>)
    requires cells != [] && DistinctCellKeys(dates, cells)
    requires 0 <= cells[|cells| - 1].dateIndex < |dates|
    ensures var c := cells[|cells| - 1];
            !Written(dates, cells[..|cells| - 1], dates[c.dateIndex], c.hour, c.minute)
  {
    var init := cells[..|cells| - 1];
    var c := cells[|cells| - 1];
    var d := dates[c.dateIndex];
    forall w | w in init && 0 <= w.dateIndex < |dates|
      ensures CellKey(ExactTime, dates[w.dateIndex], w.hour, w.minute) != CellKey(ExactTime, d, c.hour, c.minute)
    {
      var k :| 0 <= k < |init| && init[k] == w;
      assert cells[k] == w;
    }
  }

  /**
   * The lookup in `original` keeps keys unique as long as no key is visited
   * twice: a pushed record is for a key neither `original` nor an earlier
   * visit holds.
   */
  lemma {:induction false} ApplyBlockedKeepsUniqueKeys(original: seq<Slot>, dates: seq<Instant>, cells: seq<Cell>, blocked: bool)
    requires UniqueKeys(ExactTime, original)
    requires DistinctCellKeys(dates, cells)
    ensures UniqueKeys(ExactTime, ApplyBlocked(original, original, dates, cells, blocked))
  {
    if cells != [] {
      var init := cells[..|cells| - 1];
      var c := cells[|cells| - 1];
      assert cells == init + [c];
      assert DistinctCellKeys(dates, init) by {
        forall i, j | 0 <= i < j < |init| ensures init[i] == cells[i] && init[j] == cells[j] { }
      }
      ApplyBlockedKeepsUniqueKeys(original, dates, init, blocked);
      var acc := ApplyBlocked(original, original, dates, init, blocked);
      if 0 <= c.dateIndex < |dates| {
        LastCellNotWrittenBefore(dates, cells);
        ApplyBlockedReadBack(original, dates, init, blocked, dates[c.dateIndex], c.hour, c.minute);
      }
      SetSlotBlockedKeepsUniqueKeys(original, acc, dates, c.dateIndex, c.hour, c.minute, blocked);
    }
  }

  /** The cells of a drag over distinct dates and a distinct axis stand for distinct dates and times. */
  lemma DragCellKeysDistinct(a: Cell, b: Cell, dates: seq<Instant>, times: seq<TimeOfDay>)
    requires DistinctDays(dates) && Distinct(times)
    ensures DistinctCellKeys(dates, DragCells(a, b, |dates|, times))
  {
    var cells := DragCells(a, b, |dates|, times);
    DragCellsDistinct(a, b, |dates|, times);
    forall i, j | 0 <= i < j < |cells| && 0 <= cells[i].dateIndex < |dates| && 0 <= cells[j].dateIndex < |dates|
      ensures CellKey(ExactTime, dates[cells[i].dateIndex], cells[i].hour, cells[i].minute)
              != CellKey(ExactTime, dates[cells[j].dateIndex], cells[j].hour, cells[j].minute)
    {
      if cells[i].dateIndex != cells[j].dateIndex {
        assert dates[cells[i].dateIndex].day != dates[cells[j].dateIndex].day;
      }
    }
  }

  /**
   * The effect of releasing a drag between the corners `a` and `b`, for any
   * cell, when the columns are distinct days: every cell of the rectangle
   * with an existing date on a visible row shows the drag's direction; every
   * other cell shows what it did before. If the keys were unique they stay
   * unique.
   */
  lemma SelectAreaEffect(slots: seq<Slot>, dates: seq<Instant>, a: Cell, b: Cell, times: seq<TimeOfDay>,
                         blocked: bool, dateIndex: int, hour: int, minute: int)
    requires DistinctDays(dates)
    ensures IsOn(ExactTime, ApplyBlocked(slots, slots, dates, DragCells(a, b, |dates|, times), blocked),
                 dates, dateIndex, hour, minute)
            == if InArea(a, b, Cell(dateIndex, hour, minute)) && TimeOfDay(hour, minute) in times && 0 <= dateIndex < |dates|
               then blocked
               else IsOn(ExactTime, slots, dates, dateIndex, hour, minute)
    ensures UniqueKeys(ExactTime, slots) && Distinct(times) ==>
              UniqueKeys(ExactTime, ApplyBlocked(slots, slots, dates, DragCells(a, b, |dates|, times), blocked))
  {
    var cells := DragCells(a, b, |dates|, times);
    if 0 <= dateIndex < |dates| {
      ApplyBlockedReadBack(slots, dates, cells, blocked, dates[dateIndex], hour, minute);
      DragCellsMembership(a, b, |dates|, times);
      if Written(dates, cells, dates[dateIndex], hour, minute) {
        var w :| w in cells && 0 <= w.dateIndex < |dates| && dates[w.dateIndex] == dates[dateIndex]
                 && w.hour == hour && w.minute == minute;
        assert w.dateIndex == dateIndex;
      }
    }
    if UniqueKeys(ExactTime, slots) && Distinct(times) {
      DragCellKeysDistinct(a, b, dates, times);
      ApplyBlockedKeepsUniqueKeys(slots, dates, cells, blocked);
    }
  }

  /**
   * The keyboard path: `setSlotBlocked(blockedSlots, ..., !isBlocked)`
   * flips exactly the pressed cell, and keeps keys unique.
   */
  function KeyToggle(slots: seq<Slot>, dates: seq<Instant>, dateIndex: int, hour: int, minute: int): (r: seq<Slot>)
    ensures !(0 <= dateIndex < |dates|) ==> r == slots
    ensures UniqueKeys(ExactTime, slots) ==> UniqueKeys(ExactTime, r)
  {
    if 0 <= dateIndex < |dates| then
      SetSlotBlockedOnItself(slots, dates, dateIndex, hour, minute, !IsOn(ExactTime, slots, dates, dateIndex, hour, minute));
      SetSlotBlocked(slots, slots, dates, dateIndex, hour, minute, !IsOn(ExactTime, slots, dates, dateIndex, hour, minute))
    else slots
  }

  /** The pressed cell shows the opposite of before; a cell at another date or time is unchanged. */
  lemma KeyToggleFlips(slots: seq<Slot>, dates: seq<Instant>, dateIndex: int, hour: int, minute: int,
                       otherIndex: int, hour': int, minute': int)
    requires 0 <= dateIndex < |dates|
    ensures IsOn(ExactTime, KeyToggle(slots, dates, dateIndex, hour, minute), dates, dateIndex, hour, minute)
            == !IsOn(ExactTime, slots, dates, dateIndex, hour, minute)
    ensures 0 <= otherIndex < |dates| && (dates[otherIndex] != dates[dateIndex] || hour' != hour || minute' != minute)
            ==> IsOn(ExactTime, KeyToggle(slots, dates, dateIndex, hour, minute), dates, otherIndex, hour', minute')
                == IsOn(ExactTime, slots, dates, otherIndex, hour', minute')
  {
    var on := IsOn(ExactTime, slots, dates, dateIndex, hour, minute);
    UpsertReadBack(ExactTime, slots, dates[dateIndex], hour, minute, !on, dates[dateIndex], hour, minute);
    if 0 <= otherIndex < |dates| {
      UpsertReadBack(ExactTime, slots, dates[dateIndex], hour, minute, !on, dates[otherIndex], hour', minute');
    }
  }

  /**
   * The inner `forEach` of `selectArea` for one date column: every visible
   * row inside the minute range is set, top to bottom, looking up in
   * `original`.
   */
  method SelectRow(original: seq<Slot>, slots: seq<Slot>, dates: seq<Instant>, dateIndex: int,
                   times: seq<TimeOfDay>, minTime: int, maxTime: int, blocked: bool) returns (r: seq<Slot>)
    requires |original| <= |slots|
    ensures r == ApplyBlocked(original, slots, dates, RowCells(dateIndex, times, minTime, maxTime), blocked)
  {
    r := slots;
    var k := 0;
    while k < |times|
      invariant 0 <= k <= |times|
      invariant r == ApplyBlocked(original, slots, dates, RowCells(dateIndex, times[..k], minTime, maxTime), blocked)
    {
      var t := times[k];
      assert times[..k + 1][..k] == times[..k] && times[..k + 1][k] == t;
      assert RowCells(dateIndex, times[..k + 1], minTime, maxTime)
          == RowCells(dateIndex, times[..k], minTime, maxTime)
             + (if minTime <= Minutes(t) <= maxTime then [Cell(dateIndex, t.hour, t.minute)] else []);
      if minTime <= t.hour * 60 + t.minute <= maxTime {
        ApplyBlockedSnoc(original, slots, dates, RowCells(dateIndex, times[..k], minTime, maxTime),
                         Cell(dateIndex, t.hour, t.minute), blocked);
        r := SetSlotBlocked(original, r, dates, dateIndex, t.hour, t.minute, blocked);
        assert r == ApplyBlocked(original, slots, dates,
                                 RowCells(dateIndex, times[..k], minTime, maxTime) + [Cell(dateIndex, t.hour, t.minute)], blocked);
      } else {
        assert RowCells(dateIndex, times[..k + 1], minTime, maxTime) == RowCells(dateIndex, times[..k], minTime, maxTime);
      }
      assert r == ApplyBlocked(original, slots, dates, RowCells(dateIndex, times[..k + 1], minTime, maxTime), blocked);
      k := k + 1;
    }
    assert times[..|times|] == times;
  }

  /**
   * The fold over one more date index: the fold over that column's row
   * cells applied after the earlier ones, or the earlier fold unchanged when
   * the index has no date. Before the first index nothing is visited.
   */
  lemma ApplyBlockedNextColumn(original: seq<Slot>, dates: seq<Instant>, times: seq<TimeOfDay>,
                               first: int, last: int, minTime: int, maxTime: int, blocked: bool)
    ensures last < first ==>
              ApplyBlocked(original, original, dates, AreaCells(|dates|, times, first, last, minTime, maxTime), blocked)
              == original
    ensures first <= last ==>
              var before := ApplyBlocked(original, original, dates,
                                         AreaCells(|dates|, times, first, last - 1, minTime, maxTime), blocked);
              ApplyBlocked(original, original, dates, AreaCells(|dates|, times, first, last, minTime, maxTime), blocked)
              == if 0 <= last < |dates|
                 then ApplyBlocked(original, before, dates, RowCells(last, times, minTime, maxTime), blocked)
                 else before
  {
    if first <= last {
      AreaCellsNextColumn(|dates|, times, first, last, minTime, maxTime);
      if 0 <= last < |dates| {
        ApplyBlockedConcat(original, original, dates, AreaCells(|dates|, times, first, last - 1, minTime, maxTime),
                           RowCells(last, times, minTime, maxTime), blocked);
      } else {
        assert AreaCells(|dates|, times, first, last, minTime, maxTime)
            == AreaCells(|dates|, times, first, last - 1, minTime, maxTime);
      }
    }
  }

  /**
   * The two loops of `selectArea` for the corners `a` and `b`, starting from
   * a copy of `original` and looking up every cell in `original`.
   */
  method SelectCells(original: seq<Slot>, dates: seq<Instant>, times: seq<TimeOfDay>,
                     a: Cell, b: Cell, blocked: bool) returns (r: seq<Slot>)
    ensures r == ApplyBlocked(original, original, dates, DragCells(a, b, |dates|, times), blocked)
  {
    var startDateIndex := Min(a.dateIndex, b.dateIndex);
    var endDateIndex := Max(a.dateIndex, b.dateIndex);
    var minTime := Min(CellMinutes(a), CellMinutes(b));
    var maxTime := Max(CellMinutes(a), CellMinutes(b));
    r := original;
    ApplyBlockedNextColumn(original, dates, times, startDateIndex, startDateIndex - 1, minTime, maxTime, blocked);
    for dateIndex := startDateIndex to endDateIndex + 1
      invariant r == ApplyBlocked(original, original, dates,
                                  AreaCells(|dates|, times, startDateIndex, dateIndex - 1, minTime, maxTime), blocked)
    {
      ApplyBlockedNextColumn(original, dates, times, startDateIndex, dateIndex, minTime, maxTime, blocked);
      if 0 <= dateIndex < |dates| {
        r := SelectRow(original, r, dates, dateIndex, times, minTime, maxTime, blocked);
      }
    }
  }

  // ---------------------------------------------------------------------
  // The component

  class Grid {
    const dashboard: Dashboard
    var isDragging: bool
    var isBlocking: bool
    var dragStart: Option<Cell>
    var dragEnd: Option<Cell>

    /** A drag is under way exactly when both corners are set. */
    predicate Valid()
      reads this
    {
      isDragging == dragStart.Some? && dragStart.Some? == dragEnd.Some?
    }

    constructor (dashboard: Dashboard)
      ensures this.dashboard == dashboard
      ensures !isDragging && isBlocking && dragStart == None && dragEnd == None
      ensures Valid()
    {
      this.dashboard := dashboard;
      isDragging := false;
      isBlocking := true;
      dragStart := None;
      dragEnd := None;
    }

    /** `filteredTimeBlocks` for the store's window. */
    function Visible(): seq<TimeOfDay>
      reads dashboard, dashboard.store
    {
      VisibleTimes(dashboard.store.startTime, dashboard.store.endTime)
    }

    /** `isBlocked` of the rendered cell. */
    predicate Blocked(c: Cell)
      reads dashboard
    {
      IsOn(ExactTime, dashboard.localBlockedSlots, dashboard.selectedDates, c.dateIndex, c.hour, c.minute)
    }

    /**
     * `isInDragArea`: the cell is highlighted while a drag is under way and
     * it lies in the rectangle of the two corners, taken in either order.
     */
    function IsInDragArea(c: Cell): (r: bool)
      reads this
      ensures r ==> isDragging
      ensures r <==> isDragging && dragStart.Some? && dragEnd.Some? && InArea(dragEnd.value, dragStart.value, c)
    {
      if isDragging && dragStart.Some? && dragEnd.Some? then
        InAreaSymmetric(dragStart.value, dragEnd.value, c);
        InArea(dragStart.value, dragEnd.value, c)
      else false
    }

    /**
     * The highlight shows exactly what a release will write: a cell with an
     * existing date on a visible row is highlighted exactly when the release
     * visits it.
     */
    lemma HighlightIsReleaseArea(c: Cell)
      requires Valid() && isDragging
      requires CellTime(c) in Visible() && 0 <= c.dateIndex < |dashboard.selectedDates|
      ensures IsInDragArea(c) <==> c in DragCells(dragStart.value, dragEnd.value, |dashboard.selectedDates|, Visible())
    {
      DragCellsMembership(dragStart.value, dragEnd.value, |dashboard.selectedDates|, Visible());
    }

    /**
     * `handleMouseDown`: a non-left button is ignored; otherwise the drag
     * starts and ends at the cell, and its direction is "block" unless the
     * cell is already blocked. Blocked cells can be pressed too.
     */
    method MouseDown(button: int, c: Cell)
      requires Valid()
      modifies this
      ensures Valid()
      ensures button != 0 ==>
                isDragging == old(isDragging) && isBlocking == old(isBlocking)
                && dragStart == old(dragStart) && dragEnd == old(dragEnd)
      ensures button == 0 ==>
                isDragging && dragStart == Some(c) && dragEnd == Some(c) && isBlocking == !Blocked(c)
    {
      if button != 0 { return; }
      var slotIndex := SlotIndex(ExactTime, dashboard.localBlockedSlots, dashboard.selectedDates, c.dateIndex, c.hour, c.minute);
      isBlocking := slotIndex == -1 || !dashboard.localBlockedSlots[slotIndex].state;
      isDragging := true;
      dragStart := Some(c);
      dragEnd := Some(c);
    }

    /** `handleMouseOver`: while dragging, the cell becomes the moving corner; otherwise nothing happens. */
    method MouseOver(c: Cell)
      requires Valid()
      modifies this
      ensures Valid()
      ensures dragEnd == if old(isDragging) then Some(c) else old(dragEnd)
      ensures isDragging == old(isDragging) && isBlocking == old(isBlocking) && dragStart == old(dragStart)
    {
      if isDragging {
        dragEnd := Some(c);
      }
    }

    /**
     * `selectArea`: walk the date columns of the rectangle and, in each
     * existing one, the visible rows inside the minute range, setting every
     * cell to the drag's direction; then hand the list to the page.
     */
    method SelectArea()
      modifies dashboard
      ensures dragStart.None? || dragEnd.None? ==> dashboard.localBlockedSlots == old(dashboard.localBlockedSlots)
      ensures dragStart.Some? && dragEnd.Some? ==>
                dashboard.localBlockedSlots
                == ApplyBlocked(old(dashboard.localBlockedSlots), old(dashboard.localBlockedSlots), dashboard.selectedDates,
                                DragCells(dragStart.value, dragEnd.value, |dashboard.selectedDates|, Visible()),
                                isBlocking)
      ensures dashboard.selectedDates == old(dashboard.selectedDates)
    {
      if dragStart.None? || dragEnd.None? { return; }
      var updated := SelectCells(dashboard.localBlockedSlots, dashboard.selectedDates, Visible(),
                                 dragStart.value, dragEnd.value, isBlocking);
      dashboard.SetLocalBlockedSlots(updated);
    }

    /**
     * `handleMouseUp` on the grid: a drag under way is applied once and the
     * gesture returns to idle; while idle nothing changes.
     */
    method MouseUp()
      requires Valid()
      modifies this, dashboard
      ensures Valid() && !isDragging && isBlocking == old(isBlocking)
      ensures dashboard.selectedDates == old(dashboard.selectedDates)
      ensures old(isDragging) ==>
                dragStart == None && dragEnd == None
                && dashboard.localBlockedSlots
                   == ApplyBlocked(old(dashboard.localBlockedSlots), old(dashboard.localBlockedSlots), dashboard.selectedDates,
                                   DragCells(old(dragStart).value, old(dragEnd).value, |dashboard.selectedDates|, Visible()),
                                   isBlocking)
      ensures !old(isDragging) ==>
                dragStart == old(dragStart) && dragEnd == old(dragEnd)
                && dashboard.localBlockedSlots == old(dashboard.localBlockedSlots)
    {
      if isDragging && dragStart.Some? && dragEnd.Some? {
        SelectArea();
        isDragging := false;
        dragStart := None;
        dragEnd := None;
      }
    }

    /** Enter or Space on a cell sets it to the negation of what it shows; any other key changes nothing. */
    method KeyDown(key: string, c: Cell)
      modifies dashboard
      ensures dashboard.localBlockedSlots ==
                if key == "Enter" || key == " "
                then KeyToggle(old(dashboard.localBlockedSlots), dashboard.selectedDates, c.dateIndex, c.hour, c.minute)
                else old(dashboard.localBlockedSlots)
      ensures dashboard.selectedDates == old(dashboard.selectedDates)
    {
      if key == "Enter" || key == " " {
        var dates := dashboard.selectedDates;
        var slots := dashboard.localBlockedSlots;
        var isBlocked := IsOn(ExactTime, slots, dates, c.dateIndex, c.hour, c.minute);
        var newSlots := if 0 <= c.dateIndex < |dates| then SetSlotBlocked(slots, slots, dates, c.dateIndex, c.hour, c.minute, !isBlocked)
                        else slots;
        dashboard.SetLocalBlockedSlots(newSlots);
      }
    }
  }
}
