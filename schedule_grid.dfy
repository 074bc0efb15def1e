/**
 * The mentor/applicant grid (`ScheduleGrid`): the admin's dates as columns,
 * the visible time axis as rows, and a drag gesture that selects or
 * deselects every available cell of a rectangle. Slots are found by calendar
 * day (`toDateString()`).
 */
module ScheduleGrid {
  import opened Calendar
  import opened TimeAxis
  import opened SlotSet
  import opened DragArea
  import opened ScheduleContext
  import opened ScheduleForm

  /** `isCellAvailable`: the date exists and the store does not report the cell blocked. */
  function IsCellAvailable(blocked: BlockedList, dates: seq<Instant>, dateIndex: int, hour: int, minute: int): (r: bool)
    ensures r ==> 0 <= dateIndex < |dates|
  {
    0 <= dateIndex < |dates| && !IsTimeSlotBlocked(blocked, Date(dates[dateIndex]), hour, minute)
  }

  /**
   * A cell is available exactly when its date exists and no date-keyed
   * record on the same calendar day, hour and minute is blocked; legacy
   * day-keyed records never make a cell unavailable.
   */
  lemma AvailabilityMeaning(blocked: BlockedList, dates: seq<Instant>, dateIndex: int, hour: int, minute: int)
    ensures IsCellAvailable(blocked, dates, dateIndex, hour, minute) <==>
              && 0 <= dateIndex < |dates|
              && !(&& blocked.DatedBlocks?
                   && exists i :: 0 <= i < |blocked.slots|
                        && blocked.slots[i].date.day == dates[dateIndex].day
                        && blocked.slots[i].hour == hour && blocked.slots[i].minute == minute
                        && blocked.slots[i].state)
  {
    if 0 <= dateIndex < |dates| && blocked.DatedBlocks? {
      var hit := AnyDatedHit(blocked.slots, dates[dateIndex], hour, minute);
      if hit {
        var i :| 0 <= i < |blocked.slots| && DatedHit(blocked.slots[i], dates[dateIndex], hour, minute);
        assert blocked.slots[i].date.day == dates[dateIndex].day;
      }
    }
  }

  /** Availability depends on the calendar day of the column, not on which column it is. */
  lemma AvailabilityByCalendarDay(blocked: BlockedList, dates: seq<Instant>, i: int, j: int, hour: int, minute: int)
    requires 0 <= i < |dates| && 0 <= j < |dates| && dates[i].day == dates[j].day
    ensures IsCellAvailable(blocked, dates, i, hour, minute) == IsCellAvailable(blocked, dates, j, hour, minute)
  {
    DateQueryByCalendarDay(blocked, dates[i], dates[j], hour, minute);
  }

  /**
   * `setSlotSelected`: unavailable cells are left alone; otherwise the record
   * of the cell's calendar day and time, looked up in the list being built,
   * gets `selected`, or a new record is pushed.
   */
  function SetSlotSelected(blocked: BlockedList, dates: seq<Instant>, slots: seq<Slot>,
                           dateIndex: int, hour: int, minute: int, selected: bool): (r: seq<Slot>)
    ensures |slots| <= |r| <= |slots| + 1
    ensures UniqueKeys(CalendarDay, slots) ==> UniqueKeys(CalendarDay, r)
  {
    if !IsCellAvailable(blocked, dates, dateIndex, hour, minute) then slots
    else Upsert(CalendarDay, slots, dates[dateIndex], hour, minute, selected)
  }

  /** An unavailable cell (missing date, or blocked by the store) leaves the list exactly as it was. */
  lemma SetSlotSelectedSkipsUnavailable(blocked: BlockedList, dates: seq<Instant>, slots: seq<Slot>,
                                        dateIndex: int, hour: int, minute: int, selected: bool)
    requires !IsCellAvailable(blocked, dates, dateIndex, hour, minute)
    ensures SetSlotSelected(blocked, dates, slots, dateIndex, hour, minute, selected) == slots
  {
  }

  /** What a lookup reports after `setSlotSelected`, for any calendar day and time. */
  lemma SetSlotSelectedReadBack(blocked: BlockedList, dates: seq<Instant>, slots: seq<Slot>,
                                dateIndex: int, hour: int, minute: int, selected: bool,
                                date: Instant, hour': int, minute': int)
    ensures StateAt(CalendarDay, SetSlotSelected(blocked, dates, slots, dateIndex, hour, minute, selected), date, hour', minute')
            == if && IsCellAvailable(blocked, dates, dateIndex, hour, minute)
                  && dates[dateIndex].day == date.day && hour == hour' && minute == minute'
               then Some(selected)
               else StateAt(CalendarDay, slots, date, hour', minute')
  {
    if IsCellAvailable(blocked, dates, dateIndex, hour, minute) {
      UpsertReadBack(CalendarDay, slots, dates[dateIndex], hour, minute, selected, date, hour', minute');
    }
  }

  /** The successive `setSlotSelected` calls of `selectArea`, one per visited cell, in order. */
  function ApplySelected(blocked: BlockedList, dates: seq<Instant>, slots: seq<Slot>,
                         cells: seq<Cell>, selected: bool): (r: seq<Slot>)
    ensures |slots| <= |r|
    ensures UniqueKeys(CalendarDay, slots) ==> UniqueKeys(CalendarDay, r)
  {
    if cells == [] then slots
    else
      var c := cells[|cells| - 1];
      SetSlotSelected(blocked, dates, ApplySelected(blocked, dates, slots, cells[..|cells| - 1], selected),
                      c.dateIndex, c.hour, c.minute, selected)
  }

  lemma ApplySelectedSnoc(blocked: BlockedList, dates: seq<Instant>, slots: seq<Slot>,
                          cells: seq<Cell>, c: Cell, selected: bool)
    ensures ApplySelected(blocked, dates, slots, cells + [c], selected)
            == SetSlotSelected(blocked, dates, ApplySelected(blocked, dates, slots, cells, selected),
                               c.dateIndex, c.hour, c.minute, selected)
  {
    assert (cells + [c])[..|cells|] == cells;
  }

  /** Visiting `first` and then `second` is visiting `first + second`. */
  lemma {:induction false} ApplySelectedConcat(blocked: BlockedList, dates: seq<Instant>, slots: seq<Slot>,
                                               first: seq<Cell>, second: seq<Cell>, selected: bool)
    ensures ApplySelected(blocked, dates, slots, first + second, selected)
            == ApplySelected(blocked, dates, ApplySelected(blocked, dates, slots, first, selected), second, selected)
  {
    if second == [] {
      assert first + second == first;
    } else {
      var init := second[..|second| - 1];
      var c := second[|second| - 1];
      assert second == init + [c];
      assert first + second == (first + init) + [c];
      ApplySelectedConcat(blocked, dates, slots, first, init, selected);
      ApplySelectedSnoc(blocked, dates, slots, first + init, c, selected);
      ApplySelectedSnoc(blocked, dates, ApplySelected(blocked, dates, slots, first, selected), init, c, selected);
    }
  }

  /**
   * The inner `forEach` of `selectArea` for one date column: every visible
   * row inside the minute range is set, top to bottom.
   */
  method SelectRow(blocked: BlockedList, dates: seq<Instant>, slots: seq<Slot>, dateIndex: int,
                   times: seq<TimeOfDay>, minTime: int, maxTime: int, selected: bool) returns (r: seq<Slot>)
    ensures r == ApplySelected(blocked, dates, slots, RowCells(dateIndex, times, minTime, maxTime), selected)
  {
    r := slots;
    var k := 0;
    while k < |times|
      invariant 0 <= k <= |times|
      invariant r == ApplySelected(blocked, dates, slots, RowCells(dateIndex, times[..k], minTime, maxTime), selected)
    {
      var t := times[k];
      assert times[..k + 1][..k] == times[..k] && times[..k + 1][k] == t;
      assert RowCells(dateIndex, times[..k + 1], minTime, maxTime)
          == RowCells(dateIndex, times[..k], minTime, maxTime)
             + (if minTime <= Minutes(t) <= maxTime then [Cell(dateIndex, t.hour, t.minute)] else []);
      if minTime <= t.hour * 60 + t.minute <= maxTime {
        ApplySelectedSnoc(blocked, dates, slots, RowCells(dateIndex, times[..k], minTime, maxTime),
                          Cell(dateIndex, t.hour, t.minute), selected);
        r := SetSlotSelected(blocked, dates, r, dateIndex, t.hour, t.minute, selected);
        assert r == ApplySelected(blocked, dates, slots, RowCells(dateIndex, times[..k], minTime, maxTime) + [Cell(dateIndex, t.hour, t.minute)], selected);
      } else {
        assert RowCells(dateIndex, times[..k + 1], minTime, maxTime) == RowCells(dateIndex, times[..k], minTime, maxTime);
      }
      assert r == ApplySelected(blocked, dates, slots, RowCells(dateIndex, times[..k + 1], minTime, maxTime), selected);
      k := k + 1;
    }
    assert times[..|times|] == times;
  }

  /**
   * The fold over one more date index: the fold over that column's row
   * cells applied after the earlier ones, or the earlier fold unchanged when
   * the index has no date. Before the first index nothing is visited.
   */
  lemma ApplySelectedNextColumn(blocked: BlockedList, dates: seq<Instant>, slots: seq<Slot>, times: seq<TimeOfDay>,
                                first: int, last: int, minTime: int, maxTime: int, selected: bool)
    ensures last < first ==>
              ApplySelected(blocked, dates, slots, AreaCells(|dates|, times, first, last, minTime, maxTime), selected) == slots
    ensures first <= last ==>
              var before := ApplySelected(blocked, dates, slots,
                                          AreaCells(|dates|, times, first, last - 1, minTime, maxTime), selected);
              ApplySelected(blocked, dates, slots, AreaCells(|dates|, times, first, last, minTime, maxTime), selected)
              == if 0 <= last < |dates|
                 then ApplySelected(blocked, dates, before, RowCells(last, times, minTime, maxTime), selected)
                 else before
  {
    if first <= last {
      AreaCellsNextColumn(|dates|, times, first, last, minTime, maxTime);
      if 0 <= last < |dates| {
        ApplySelectedConcat(blocked, dates, slots, AreaCells(|dates|, times, first, last - 1, minTime, maxTime),
                            RowCells(last, times, minTime, maxTime), selected);
      } else {
        assert AreaCells(|dates|, times, first, last, minTime, maxTime)
            == AreaCells(|dates|, times, first, last - 1, minTime, maxTime);
      }
    }
  }

  /**
   * The list after the outer loop of `selectArea` has handled the date
   * indices `first..last`, column by column, skipping an index with no date.
   */
  function SelectedColumns(blocked: BlockedList, dates: seq<Instant>, slots: seq<Slot>, times: seq<TimeOfDay>,
                           first: int, last: int, minTime: int, maxTime: int, selected: bool): seq<Slot>
    decreases last - first
  {
    if last < first then slots
    else
      var before := SelectedColumns(blocked, dates, slots, times, first, last - 1, minTime, maxTime, selected);
      if 0 <= last < |dates| then ApplySelected(blocked, dates, before, RowCells(last, times, minTime, maxTime), selected)
      else before
  }

  /** Column by column is the same as visiting every cell of those columns in order. */
  lemma {:induction false} SelectedColumnsVisitsArea(blocked: BlockedList, dates: seq<Instant>, slots: seq<Slot>,
                                                     times: seq<TimeOfDay>, first: int, last: int,
                                                     minTime: int, maxTime: int, selected: bool)
    ensures SelectedColumns(blocked, dates, slots, times, first, last, minTime, maxTime, selected)
            == ApplySelected(blocked, dates, slots, AreaCells(|dates|, times, first, last, minTime, maxTime), selected)
    decreases last - first
  {
    ApplySelectedNextColumn(blocked, dates, slots, times, first, last, minTime, maxTime, selected);
    if first <= last {
      SelectedColumnsVisitsArea(blocked, dates, slots, times, first, last - 1, minTime, maxTime, selected);
    }
  }

  /**
   * The two loops of `selectArea` for the corners `a` and `b`: the date
   * columns from the smaller index to the larger, skipping a missing date
   * (`continue`), and in each the visible rows whose minutes lie between
   * the corners' minutes.
   */
  method SelectCells(blocked: BlockedList, dates: seq<Instant>, slots: seq<Slot>, times: seq<TimeOfDay>,
                     a: Cell, b: Cell, selected: bool) returns (r: seq<Slot>)
    ensures r == ApplySelected(blocked, dates, slots, DragCells(a, b, |dates|, times), selected)
  {
    var startDateIndex := Min(a.dateIndex, b.dateIndex);
    var endDateIndex := Max(a.dateIndex, b.dateIndex);
    var minTime := Min(CellMinutes(a), CellMinutes(b));
    var maxTime := Max(CellMinutes(a), CellMinutes(b));
    r := slots;
    for dateIndex := startDateIndex to endDateIndex + 1
      invariant r == SelectedColumns(blocked, dates, slots, times, startDateIndex, dateIndex - 1, minTime, maxTime, selected)
    {
      if 0 <= dateIndex < |dates| {
        r := SelectRow(blocked, dates, r, dateIndex, times, minTime, maxTime, selected);
      }
    }
    assert DragCells(a, b, |dates|, times) == AreaCells(|dates|, times, startDateIndex, endDateIndex, minTime, maxTime);
    SelectedColumnsVisitsArea(blocked, dates, slots, times, startDateIndex, endDateIndex, minTime, maxTime, selected);
  }

  /** Some visited cell is available and has the given calendar day and time. */
  predicate Written(blocked: BlockedList, dates: seq<Instant>, cells: seq<Cell>, date: Instant, hour: int, minute: int)
  {
    exists c :: c in cells && IsCellAvailable(blocked, dates, c.dateIndex, c.hour, c.minute)
                && dates[c.dateIndex].day == date.day && c.hour == hour && c.minute == minute
  }

  /**
   * After the visits, every calendar day and time that an available visited
   * cell has reports `selected`; every other one reports what it did before.
   */
  lemma {:induction false} ApplySelectedReadBack(blocked: BlockedList, dates: seq<Instant>, slots: seq<Slot>,
                                                 cells: seq<Cell>, selected: bool,
                                                 date: Instant, hour: int, minute: int)
    ensures StateAt(CalendarDay, ApplySelected(blocked, dates, slots, cells, selected), date, hour, minute)
            == if Written(blocked, dates, cells, date, hour, minute) then Some(selected)
               else StateAt(CalendarDay, slots, date, hour, minute)
  {
    if cells != [] {
      var init := cells[..|cells| - 1];
      var c := cells[|cells| - 1];
      assert cells == init + [c];
      ApplySelectedReadBack(blocked, dates, slots, init, selected, date, hour, minute);
      SetSlotSelectedReadBack(blocked, dates, ApplySelected(blocked, dates, slots, init, selected),
                              c.dateIndex, c.hour, c.minute, selected, date, hour, minute);
      if Written(blocked, dates, cells, date, hour, minute) && !Written(blocked, dates, init, date, hour, minute) {
        var w :| w in cells && IsCellAvailable(blocked, dates, w.dateIndex, w.hour, w.minute)
                 && dates[w.dateIndex].day == date.day && w.hour == hour && w.minute == minute;
        assert w == c;
      }
    }
  }

  /**
   * The effect of releasing a drag between the corners `a` and `b`, for any
   * cell, when the columns are distinct calendar days: an available cell of
   * the rectangle on a visible row shows `selected`; every other cell shows
   * what it did before.
   */
  lemma SelectAreaEffect(blocked: BlockedList, dates: seq<Instant>, slots: seq<Slot>, a: Cell, b: Cell,
                         times: seq<TimeOfDay>, selected: bool, dateIndex: int, hour: int, minute: int)
    requires DistinctDays(dates)
    ensures IsOn(CalendarDay, ApplySelected(blocked, dates, slots, DragCells(a, b, |dates|, times), selected),
                 dates, dateIndex, hour, minute)
            == if && InArea(a, b, Cell(dateIndex, hour, minute)) && TimeOfDay(hour, minute) in times
                  && IsCellAvailable(blocked, dates, dateIndex, hour, minute)
               then selected
               else IsOn(CalendarDay, slots, dates, dateIndex, hour, minute)
  {
    var cells := DragCells(a, b, |dates|, times);
    if 0 <= dateIndex < |dates| {
      ApplySelectedReadBack(blocked, dates, slots, cells, selected, dates[dateIndex], hour, minute);
      DragCellsMembership(a, b, |dates|, times);
      var c := Cell(dateIndex, hour, minute);
      if Written(blocked, dates, cells, dates[dateIndex], hour, minute) {
        var w :| w in cells && IsCellAvailable(blocked, dates, w.dateIndex, w.hour, w.minute)
                 && dates[w.dateIndex].day == dates[dateIndex].day && w.hour == hour && w.minute == minute;
        assert w == c;
      }
    }
  }

  /**
   * A cell the admin blocked is never changed by a drag, wherever the drag
   * runs, even when two columns share a calendar day.
   */
  lemma BlockedCellsUntouched(blocked: BlockedList, dates: seq<Instant>, slots: seq<Slot>,
                              cells: seq<Cell>, selected: bool, dateIndex: int, hour: int, minute: int)
    requires !IsCellAvailable(blocked, dates, dateIndex, hour, minute)
    ensures IsOn(CalendarDay, ApplySelected(blocked, dates, slots, cells, selected), dates, dateIndex, hour, minute)
            == IsOn(CalendarDay, slots, dates, dateIndex, hour, minute)
  {
    if 0 <= dateIndex < |dates| {
      ApplySelectedReadBack(blocked, dates, slots, cells, selected, dates[dateIndex], hour, minute);
    }
  }

  // ---------------------------------------------------------------------
  // The keyboard path

  /**
   * `toggleSlot` as written: on an available cell it writes the grid's
   * current `isSelecting`, whatever the cell's own state.
   */
  function ToggleSlotAsWritten(blocked: BlockedList, dates: seq<Instant>, slots: seq<Slot>, isSelecting: bool,
                               dateIndex: int, hour: int, minute: int): (r: seq<Slot>)
    ensures !IsCellAvailable(blocked, dates, dateIndex, hour, minute) ==> r == slots
  {
    SetSlotSelected(blocked, dates, slots, dateIndex, hour, minute, isSelecting)
  }

  /** On an available cell the as-written toggle leaves the cell showing `isSelecting`. */
  lemma ToggleAsWrittenWritesDirection(blocked: BlockedList, dates: seq<Instant>, slots: seq<Slot>,
                                       isSelecting: bool, dateIndex: int, hour: int, minute: int)
    requires IsCellAvailable(blocked, dates, dateIndex, hour, minute)
    ensures IsOn(CalendarDay, ToggleSlotAsWritten(blocked, dates, slots, isSelecting, dateIndex, hour, minute),
                 dates, dateIndex, hour, minute) == isSelecting
  {
    SetSlotSelectedReadBack(blocked, dates, slots, dateIndex, hour, minute, isSelecting,
                            dates[dateIndex], hour, minute);
  }

  /**
   * The discrepancy: with `isSelecting` at its initial `true`, pressing
   * Enter on a selected cell leaves it selected instead of toggling it off.
   */
  lemma ToggleAsWrittenDoesNotToggle()
    ensures var dates := [Midnight(0)];
            var slots := [Slot(Midnight(0), 9, 0, true)];
            && IsOn(CalendarDay, slots, dates, 0, 9, 0)
            && IsOn(CalendarDay, ToggleSlotAsWritten(DatedBlocks([]), dates, slots, true, 0, 9, 0), dates, 0, 9, 0)
  {
    var dates := [Midnight(0)];
    var slots := [Slot(Midnight(0), 9, 0, true)];
    assert IndexOf(slots, CalendarDay, dates[0], 9, 0) == 0;
    ToggleAsWrittenWritesDirection(DatedBlocks([]), dates, slots, true, 0, 9, 0);
  }

  /** The keyboard toggle as intended: the cell's own state is negated. */
  function ToggleSlot(blocked: BlockedList, dates: seq<Instant>, slots: seq<Slot>,
                      dateIndex: int, hour: int, minute: int): (r: seq<Slot>)
    ensures !IsCellAvailable(blocked, dates, dateIndex, hour, minute) ==> r == slots
  {
    SetSlotSelected(blocked, dates, slots, dateIndex, hour, minute, !IsOn(CalendarDay, slots, dates, dateIndex, hour, minute))
  }

  /**
   * The corrected toggle flips exactly the pressed cell: it shows the
   * opposite of before, and every cell on another calendar day or at another
   * time is unchanged.
   */
  lemma ToggleSlotFlips(blocked: BlockedList, dates: seq<Instant>, slots: seq<Slot>,
                        dateIndex: int, hour: int, minute: int, otherIndex: int, hour': int, minute': int)
    requires IsCellAvailable(blocked, dates, dateIndex, hour, minute)
    ensures IsOn(CalendarDay, ToggleSlot(blocked, dates, slots, dateIndex, hour, minute), dates, dateIndex, hour, minute)
            == !IsOn(CalendarDay, slots, dates, dateIndex, hour, minute)
    ensures 0 <= otherIndex < |dates| && (dates[otherIndex].day != dates[dateIndex].day || hour' != hour || minute' != minute)
            ==> IsOn(CalendarDay, ToggleSlot(blocked, dates, slots, dateIndex, hour, minute), dates, otherIndex, hour', minute')
                == IsOn(CalendarDay, slots, dates, otherIndex, hour', minute')
  {
    var on := IsOn(CalendarDay, slots, dates, dateIndex, hour, minute);
    SetSlotSelectedReadBack(blocked, dates, slots, dateIndex, hour, minute, !on, dates[dateIndex], hour, minute);
    if 0 <= otherIndex < |dates| {
      SetSlotSelectedReadBack(blocked, dates, slots, dateIndex, hour, minute, !on, dates[otherIndex], hour', minute');
    }
  }

  // ---------------------------------------------------------------------
  // The component

  class Grid {
    const store: ScheduleStore
    const form: Form
    var isDragging: bool
    var isSelecting: bool
    var dragStart: Option<Cell>
    var dragEnd: Option<Cell>

    /** A drag is under way exactly when both corners are set. */
    predicate Valid()
      reads this
    {
      isDragging == dragStart.Some? && dragStart.Some? == dragEnd.Some?
    }

    constructor (store: ScheduleStore, form: Form)
      ensures this.store == store && this.form == form
      ensures !isDragging && isSelecting && dragStart == None && dragEnd == None
      ensures Valid()
    {
      this.store := store;
      this.form := form;
      isDragging := false;
      isSelecting := true;
      dragStart := None;
      dragEnd := None;
    }

    /** `filteredTimeBlocks` for the store's window. */
    function Visible(): seq<TimeOfDay>
      reads store
    {
      VisibleTimes(store.startTime, store.endTime)
    }

    predicate Available(c: Cell)
      reads store
    {
      IsCellAvailable(store.blockedTimeSlots, store.scheduledDates, c.dateIndex, c.hour, c.minute)
    }

    /** `isSelected` of the rendered cell. */
    predicate Selected(c: Cell)
      reads this, form, store
    {
      IsOn(CalendarDay, form.selectedSlots, store.scheduledDates, c.dateIndex, c.hour, c.minute)
    }

    /**
     * `isInDragArea`: the cell is highlighted while a drag is under way, it
     * is available, and it lies in the rectangle of the two corners, taken
     * in either order.
     */
    function IsInDragArea(c: Cell): (r: bool)
      reads this, store
      ensures r ==> isDragging && Available(c)
      ensures r <==> isDragging && dragStart.Some? && dragEnd.Some? && Available(c)
                     && InArea(dragEnd.value, dragStart.value, c)
    {
      if isDragging && dragStart.Some? && dragEnd.Some? then
        InAreaSymmetric(dragStart.value, dragEnd.value, c);
        Available(c) && InArea(dragStart.value, dragEnd.value, c)
      else false
    }

    /**
     * The highlight shows exactly what a release will write: on a visible
     * row, a cell is highlighted exactly when the release visits it and it is
     * available.
     */
    lemma HighlightIsReleaseArea(c: Cell)
      requires Valid() && isDragging
      requires CellTime(c) in Visible()
      ensures IsInDragArea(c) <==>
                c in DragCells(dragStart.value, dragEnd.value, |store.scheduledDates|, Visible()) && Available(c)
    {
      DragCellsMembership(dragStart.value, dragEnd.value, |store.scheduledDates|, Visible());
    }

    /**
     * `handleMouseDown`: a non-left button or an unavailable cell is ignored;
     * otherwise the drag starts and ends at the cell, and its direction is
     * "select" unless the cell is already selected.
     */
    method MouseDown(button: int, c: Cell)
      requires Valid()
      modifies this
      ensures Valid()
      ensures button != 0 || !Available(c) ==>
                isDragging == old(isDragging) && isSelecting == old(isSelecting)
                && dragStart == old(dragStart) && dragEnd == old(dragEnd)
      ensures button == 0 && Available(c) ==>
                isDragging && dragStart == Some(c) && dragEnd == Some(c)
                && isSelecting == !Selected(c)
    {
      if button != 0 { return; }
      if !IsCellAvailable(store.blockedTimeSlots, store.scheduledDates, c.dateIndex, c.hour, c.minute) { return; }
      var slotIndex := SlotIndex(CalendarDay, form.selectedSlots, store.scheduledDates, c.dateIndex, c.hour, c.minute);
      isSelecting := slotIndex == -1 || !form.selectedSlots[slotIndex].state;
      isDragging := true;
      dragStart := Some(c);
      dragEnd := Some(c);
    }

    /** `handleMouseOver`: while dragging, the cell becomes the moving corner; otherwise nothing happens. */
    method MouseOver(c: Cell)
      requires Valid()
      modifies this
      ensures Valid()
      ensures dragEnd == if old(isDragging) then Some(c) else old(dragEnd)
      ensures isDragging == old(isDragging) && isSelecting == old(isSelecting) && dragStart == old(dragStart)
    {
      if isDragging {
        dragEnd := Some(c);
      }
    }

    /**
     * `selectArea`: walk the date columns of the rectangle and, in each
     * existing one, the visible rows inside the minute range, setting every
     * cell to the drag's direction; then hand the list to the form.
     */
    method SelectArea()
      modifies form
      ensures dragStart.None? || dragEnd.None? ==> form.selectedSlots == old(form.selectedSlots)
      ensures dragStart.Some? && dragEnd.Some? ==>
                form.selectedSlots == ApplySelected(store.blockedTimeSlots, store.scheduledDates, old(form.selectedSlots),
                                                    DragCells(dragStart.value, dragEnd.value, |store.scheduledDates|, Visible()),
                                                    isSelecting)
    {
      if dragStart.None? || dragEnd.None? { return; }
      var updated := SelectCells(store.blockedTimeSlots, store.scheduledDates, form.selectedSlots, Visible(),
                                 dragStart.value, dragEnd.value, isSelecting);
      form.SetSelectedSlots(updated);
    }

    /**
     * Releasing the mouse, on the grid or anywhere in the window: a drag
     * under way is applied once and the gesture returns to idle; while idle
     * nothing changes.
     */
    method Release()
      requires Valid()
      modifies this, form
      ensures Valid() && !isDragging && isSelecting == old(isSelecting)
      ensures old(isDragging) ==>
                dragStart == None && dragEnd == None
                && form.selectedSlots == ApplySelected(store.blockedTimeSlots, store.scheduledDates, old(form.selectedSlots),
                                                       DragCells(old(dragStart).value, old(dragEnd).value,
                                                                 |store.scheduledDates|, Visible()),
                                                       isSelecting)
      ensures !old(isDragging) ==>
                dragStart == old(dragStart) && dragEnd == old(dragEnd) && form.selectedSlots == old(form.selectedSlots)
    {
      if isDragging && dragStart.Some? && dragEnd.Some? {
        SelectArea();
        isDragging := false;
        dragStart := None;
        dragEnd := None;
      }
    }

    /**
     * Enter or Space on a cell that is not blocked calls `toggleSlot` as
     * written: the cell gets the grid's current `isSelecting`, not the
     * negation of its own state. Any other key, or a blocked cell, changes
     * nothing, and the drag state is kept.
     */
    method KeyDown(key: string, c: Cell)
      modifies form
      ensures form.selectedSlots ==
                if (key == "Enter" || key == " ") && Available(c)
                then ToggleSlotAsWritten(store.blockedTimeSlots, store.scheduledDates, old(form.selectedSlots),
                                         isSelecting, c.dateIndex, c.hour, c.minute)
                else old(form.selectedSlots)
      ensures (key == "Enter" || key == " ") && Available(c) ==> Selected(c) == isSelecting
    {
      var isBlocked := !IsCellAvailable(store.blockedTimeSlots, store.scheduledDates, c.dateIndex, c.hour, c.minute);
      if !isBlocked && (key == "Enter" || key == " ") {
        ToggleAsWrittenWritesDirection(store.blockedTimeSlots, store.scheduledDates, form.selectedSlots,
                                       isSelecting, c.dateIndex, c.hour, c.minute);
        form.SetSelectedSlots(ToggleSlotAsWritten(store.blockedTimeSlots, store.scheduledDates, form.selectedSlots,
                                                  isSelecting, c.dateIndex, c.hour, c.minute));
      }
    }
  }
}
