# Interview timetable: a verified model

This project models the scheduling core of a small interview-booking web
app.

- **Admin.** The admin picks calendar dates and an operating-hours window. On
  a half-hour grid, they block the slots nobody may book, using a drag
  gesture or the keyboard. The page keeps a draft of the blocked slots and
  writes it to a shared store on save.
- **Mentors and applicants.** They see the admin's dates and window as a grid
  of their own. They select the slots that suit them by dragging over the
  cells that are not blocked, and submit their name with the selection.

Both grids are the same machine, looked at from two sides:

- a sparse list of `(date, hour, minute) -> on/off` records, read with a
  linear `findIndex` and updated by copying the list and then assigning or
  pushing;
- an axis of 49 half-hour points, cut to the window `[start, end)`;
- a drag state machine whose release writes one direction into every cell of
  the dragged rectangle.

They differ in three ways:

- **Date comparison.** The admin grid compares dates by exact timestamp
  (`ExactTime`). The mentor/applicant grid compares them by calendar day
  (`CalendarDay`).
- **Blocked cells.** The mentor/applicant grid skips cells the admin blocked.
- **Lookups during a drag.** The admin grid looks every cell up in the draft
  as it was before the drag began, not in the list it is building.

**Modules.**

- `Calendar`, `Sequences`: dates, times of day and the two date comparisons.
- `TimeAxis`: the visible axis.
- `SlotSet`: the record list as a map, with `findIndex` and insert-or-update.
- `DragArea`: the rectangle and the order in which a release visits its cells.
- `ScheduleContext`: the store and `isTimeSlotBlocked`.
- `ScheduleForm`: the submit form.
- `ScheduleGrid`: the mentor/applicant grid.
- `DateSelector`, `TimeSelector`, `AdminDashboard`, `BlockGrid`: the admin page.

**How the source maps onto Dafny.**

- Component state that handlers update in place becomes a class.
  - The store is `ScheduleStore`. The admin page is `Dashboard`; the form is
    `Form`. Each grid is a `Grid` whose fields are the drag state.
  - Each grid holds a reference to the object that owns the list it edits,
    which is what its `onChange` prop writes to.
- In `selectArea`, the outer loop is a `for` loop (`SelectCells`) and the
  inner `forEach` a `while` loop (`SelectRow`). Both are proved equal to a
  fold of the per-cell update over the cells in visiting order.
  Lemmas about that fold state what a release does to every cell.
- A JavaScript `Date` is a local calendar day number plus the milliseconds
  since that day's midnight.

## Model

| member | source | states |
|---|---|---|
| Calendar.TimeInjective | src/app/admin/admin-dashboard.tsx:99-105 | two dates have equal `getTime()` exactly when they are the same instant |
| Calendar.NotLaterIsTimeOrder | src/app/admin/admin-dashboard.tsx:401-403 | the day-then-time order used for sorting is the order of `getTime()` |
| Calendar.SameDateMeaning | src/components/timetable/schedule-grid.tsx:85-89 | the exact comparison means equal `getTime()`; the calendar-day comparison means the same day; the exact comparison implies the calendar-day one |
| Calendar.Time | src/app/admin/admin-dashboard.tsx:102 | by definition: `getTime()`, the day's milliseconds plus the time of day; `Calendar.TimeInjective` states that it identifies the instant |
| Calendar.Midnight | src/app/admin/admin-dashboard.tsx:598-602 | `new Date(year, month, day)` is local midnight of that calendar day |
| Calendar.DateKey | src/components/timetable/schedule-grid.tsx:85-89 | the compared part of a date keeps its day, and under exact comparison it is the date itself |
| Calendar.SameDate | src/components/timetable/schedule-grid.tsx:85-89 | by definition: equal `getTime()` under the exact comparison, equal `toDateString()` (the same day number) under the calendar-day one; its meaning is stated by `Calendar.SameDateMeaning` |
| Calendar.NotLater | src/app/admin/admin-dashboard.tsx:401-403 | by definition: the sort comparator `a.getTime() - b.getTime()` is not positive; `Calendar.NotLaterIsTimeOrder` states that this is the order of `getTime()` |
| TimeAxis.FullAxis | src/app/admin/admin-dashboard.tsx:67-71 | the axis has 49 points from 00:00 to 24:00, point i at 30·i minutes |
| TimeAxis.Block | src/app/admin/admin-dashboard.tsx:67-71 | by definition: point i is `Math.floor(i / 2)` hours and `(i % 2) * 30` minutes |
| TimeAxis.TimeBlocks | src/app/admin/admin-dashboard.tsx:67-71 | by definition: the 49 points `Block(0)` to `Block(48)`; `TimeAxis.FullAxis` states that they run from 00:00 to 24:00, point i at 30·i minutes |
| TimeAxis.InWindow | src/app/admin/admin-dashboard.tsx:78-84 | by definition: the `filter` callback with both bounds set, start ≤ minutes < end |
| TimeAxis.FilterWindow | src/app/admin/admin-dashboard.tsx:75-85 | by definition: the points kept by the callback, in order; `TimeAxis.VisibleWindow` gives its closed form |
| TimeAxis.VisibleTimes | src/app/admin/admin-dashboard.tsx:75-85 | by definition: `filteredTimeBlocks`, the whole axis when either bound is null and the filtered axis otherwise; `TimeAxis.UnboundedAxis`, `TimeAxis.VisibleTimesExact` and `TimeAxis.InvertedWindowIsEmpty` state what it keeps |
| TimeAxis.ShowsEndLabel | src/app/admin/admin-dashboard.tsx:349 | by definition: the label-only last row is drawn when an end bound is set and at least one row is shown; `AdminDashboard.SaveDisabledIffEmptyGrid` and `TimeAxis.InvertedWindowIsEmpty` state when that happens |
| TimeAxis.VisibleWindow | src/app/admin/admin-dashboard.tsx:75-85 | with both bounds set, the filtered axis is the run of points from the first at or after the start to the last before the end |
| TimeAxis.VisibleTimesExact | src/app/admin/admin-dashboard.tsx:75-85 | with both bounds set, a time is shown exactly when it is an axis point with start ≤ minutes < end, and the shown times strictly ascend |
| TimeAxis.UnboundedAxis | src/app/admin/admin-dashboard.tsx:76 | with either bound null, all 49 points are kept, 00:00 to 24:00 in order |
| TimeAxis.InvertedWindowIsEmpty | src/app/admin/admin-dashboard.tsx:75-90 | a start at or after the end leaves no row and no end label |
| TimeAxis.VisibleTimesDistinct | src/components/timetable/schedule-grid.tsx:48-57 | no time is shown twice |
| TimeAxis.NineToEleven | src/components/timetable/schedule-grid.tsx:48-62 | 09:00–11:00 shows 09:00, 09:30, 10:00, 10:30 and the 11:00 end label |
| TimeAxis.ElevenToNine | src/components/timetable/schedule-grid.tsx:48-57 | 11:00–09:00 shows no row |
| SlotSet.IndexOf | src/app/admin/admin-dashboard.tsx:99-105 | `findIndex`: the result is -1 exactly when no record matches, and otherwise the first matching position |
| SlotSet.SlotIndex | src/app/admin/admin-dashboard.tsx:93-106 | a missing date gives -1; otherwise the result is the `findIndex` of the column's date |
| SlotSet.IsOn | src/app/admin/admin-dashboard.tsx:290-296 | by definition: `slotIndex !== -1 && slots[slotIndex].blocked` (or `.selected`); `SlotSet.IsOnMeaning` restates it through the lookup |
| SlotSet.StateAt | src/app/admin/admin-dashboard.tsx:93-106 | by definition: what a lookup of a key reports, no record or the state of the record found; `SlotSet.UpsertReadBack` states how an update changes it |
| SlotSet.IndexOfUnique | src/components/timetable/schedule-grid.tsx:78-91 | in a list with unique keys the lookup finds the one record that has the key |
| SlotSet.IsOnMeaning | src/app/admin/admin-dashboard.tsx:290-296 | a cell is drawn on exactly when its date exists and the lookup finds an "on" record |
| SlotSet.Upsert | src/components/timetable/schedule-grid.tsx:116-144 | the copy-then-assign-or-push adds one record exactly when the key was missing, keeps earlier keys in place, appends the new record, and keeps keys unique |
| SlotSet.UpsertReadBack | src/components/timetable/schedule-grid.tsx:126-143 | after the update, the written key reads the written state and every other key reads what it did before |
| DragArea.InAreaSymmetric | src/app/admin/admin-dashboard.tsx:214-240 | the normalised rectangle does not depend on which corner is the start, and contains both corners |
| DragArea.InArea | src/app/admin/admin-dashboard.tsx:221-239 | by definition: the min/max-normalised test of `isInDragArea` once a drag is under way, both ends included |
| DragArea.RowCells | src/app/admin/admin-dashboard.tsx:157-167 | by definition: the cells the inner `forEach` visits in one column, top to bottom; `DragArea.RowCellsMember` states which they are |
| DragArea.AreaCells | src/app/admin/admin-dashboard.tsx:149-168 | by definition: the outer loop over the date indices, skipping a missing date; `DragArea.AreaCellsMembership` states which cells it visits |
| DragArea.DragCells | src/app/admin/admin-dashboard.tsx:135-168 | by definition: the cells a release visits for the two corners; `DragArea.DragCellsMembership` and `DragArea.DragCellsDistinct` state which they are and that none repeats |
| DragArea.AreaCellsNextColumn | src/app/admin/admin-dashboard.tsx:149-168 | one more date index appends that column's row cells, or nothing when the index has no date |
| DragArea.RowCellsMember | src/app/admin/admin-dashboard.tsx:157-167 | a single cell is visited in a column exactly when it is in that column at a shown time inside the minute range |
| DragArea.RowCellsMembership | src/app/admin/admin-dashboard.tsx:157-167 | the inner `forEach` visits exactly the shown times of one column inside the minute range |
| DragArea.AreaCellsMembership | src/app/admin/admin-dashboard.tsx:149-168 | the outer loop visits exactly the existing columns of the index range, each with its row cells |
| DragArea.DragCellsMembership | src/app/admin/admin-dashboard.tsx:135-168 | a release visits exactly the cells in the corners' rectangle whose date exists and whose time is shown |
| DragArea.DragCellsDistinct | src/components/timetable/schedule-grid.tsx:147-181 | a release visits no cell twice when the axis has no repeated time |
| ScheduleContext.AnyLegacyHit | src/contexts/schedule-context.tsx:72-81 | some day-keyed record has the day, hour and minute and is blocked |
| ScheduleContext.AnyDatedHit | src/contexts/schedule-context.tsx:82-92 | some date-keyed record has the calendar day, hour and minute and is blocked |
| ScheduleContext.ScheduleStore.Blocked | src/contexts/schedule-context.tsx:67-93 | by definition: `isTimeSlotBlocked` over the store's current records |
| ScheduleContext.IsTimeSlotBlocked | src/contexts/schedule-context.tsx:67-93 | a day number is answered only from day-keyed records, a date only from date-keyed records |
| ScheduleContext.UnblockedRecordsBlockNothing | src/contexts/schedule-context.tsx:72-92 | records with `blocked == false` never make a slot blocked |
| ScheduleContext.DateQueryByCalendarDay | src/contexts/schedule-context.tsx:82-92 | a date query depends only on the calendar day of the date |
| ScheduleContext.DateQueryAgreesWithLookup | src/contexts/schedule-context.tsx:82-92 | with unique calendar-day keys, the store's date query agrees with the grid's `findIndex` lookup of a blocked record |
| ScheduleContext.ScheduleStore.constructor | src/contexts/schedule-context.tsx:49-64 | initial store: empty name, applicant role, empty lists, null times |
| ScheduleContext.ScheduleStore.SetName | src/contexts/schedule-context.tsx:49 | sets the name; every other field is unchanged |
| ScheduleContext.ScheduleStore.SetRole | src/contexts/schedule-context.tsx:50-52 | sets the role; every other field is unchanged |
| ScheduleContext.ScheduleStore.SetBlockedTimeSlots | src/contexts/schedule-context.tsx:53-55 | sets the blocked list; every other field is unchanged |
| ScheduleContext.ScheduleStore.SetScheduledDates | src/contexts/schedule-context.tsx:56 | sets the dates; every other field is unchanged |
| ScheduleContext.ScheduleStore.SetStartTime | src/contexts/schedule-context.tsx:57-60 | sets the start; every other field is unchanged |
| ScheduleContext.ScheduleStore.SetEndTime | src/contexts/schedule-context.tsx:61-64 | sets the end; every other field is unchanged |
| ScheduleContext.ScheduleStore.ResetSchedule | src/contexts/schedule-context.tsx:96-99 | clears only the name |
| ScheduleContext.ScheduleStore.ResetAdminSettings | src/contexts/schedule-context.tsx:102-107 | empties the blocked list and dates and nulls both times, keeping name and role; afterwards no slot is blocked |
| ScheduleForm.LeadingSpace | src/components/timetable/schedule-form.tsx:19 | the scan from the left stops at the first character that is not JavaScript whitespace, having passed only whitespace |
| ScheduleForm.TrailingStart | src/components/timetable/schedule-form.tsx:19 | the scan from the right stops after the last character that is not JavaScript whitespace, having passed only whitespace |
| ScheduleForm.Trim | src/components/timetable/schedule-form.tsx:19 | `name.trim()` is the name with a whitespace-only prefix and a whitespace-only suffix removed, and what is left, when not empty, neither starts nor ends with whitespace |
| ScheduleForm.TrimEmptyIffBlank | src/components/timetable/schedule-form.tsx:19 | `trim()` is empty exactly when every character is whitespace |
| ScheduleForm.CountSelected | src/components/timetable/schedule-form.tsx:24 | the count of selected entries is at most the list length |
| ScheduleForm.CountSelectedZero | src/components/timetable/schedule-form.tsx:24-27 | the count is zero exactly when no entry is selected |
| ScheduleForm.Validate | src/components/timetable/schedule-form.tsx:16-28 | a blank name is rejected first; otherwise no selected entry is rejected; otherwise the submit goes through (each as an if-and-only-if) |
| ScheduleForm.Form.constructor | src/components/timetable/schedule-form.tsx:14 | the selection starts empty |
| ScheduleForm.Form.SetSelectedSlots | src/components/timetable/schedule-form.tsx:71 | the grid's `onChange` replaces the selection |
| ScheduleForm.Form.HandleSubmit | src/components/timetable/schedule-form.tsx:16-37 | the outcome is the validation of name and selection; a rejection changes nothing; success clears name and selection; the rest of the store is unchanged |
| ScheduleForm.Form.HandleReset | src/components/timetable/schedule-form.tsx:40-43 | clears selection and name unconditionally |
| ScheduleGrid.IsCellAvailable | src/components/timetable/schedule-grid.tsx:65-75 | available implies the date exists |
| ScheduleGrid.AvailabilityMeaning | src/components/timetable/schedule-grid.tsx:65-75 | available exactly when the date exists and no blocked date-keyed record shares its calendar day and time |
| ScheduleGrid.AvailabilityByCalendarDay | src/components/timetable/schedule-grid.tsx:65-75 | two columns on the same calendar day have the same availability |
| ScheduleGrid.SetSlotSelected | src/components/timetable/schedule-grid.tsx:116-144 | adds at most one record and keeps keys unique |
| ScheduleGrid.SetSlotSelectedSkipsUnavailable | src/components/timetable/schedule-grid.tsx:123-124 | an unavailable cell (missing date or blocked by the store) leaves the list exactly as it was |
| ScheduleGrid.SetSlotSelectedReadBack | src/components/timetable/schedule-grid.tsx:116-144 | after the call, an available cell's calendar day and time read the new state, and every other key reads as before |
| ScheduleGrid.ApplySelected | src/components/timetable/schedule-grid.tsx:159-179 | the fold of the release never shrinks the list and keeps keys unique |
| ScheduleGrid.ApplySelectedConcat | src/components/timetable/schedule-grid.tsx:160-179 | visiting two runs of cells one after the other is visiting their concatenation |
| ScheduleGrid.SelectRow | src/components/timetable/schedule-grid.tsx:167-178 | the inner loop computes the fold over the column's visited cells |
| ScheduleGrid.ApplySelectedNextColumn | src/components/timetable/schedule-grid.tsx:160-179 | one more date index applies that column's row cells after the earlier columns, or nothing when the index has no date |
| ScheduleGrid.SelectedColumnsVisitsArea | src/components/timetable/schedule-grid.tsx:160-179 | handling the columns one by one is the fold over every visited cell of those columns in order |
| ScheduleGrid.SelectCells | src/components/timetable/schedule-grid.tsx:150-179 | the two loops compute the fold of the release over every cell of the rectangle between the corners |
| ScheduleGrid.ApplySelectedReadBack | src/components/timetable/schedule-grid.tsx:147-181 | after the visits, each key an available visited cell has reads the direction, and every other key reads as before |
| ScheduleGrid.SelectAreaEffect | src/components/timetable/schedule-grid.tsx:147-181 | over distinct days, after a release a cell shows the direction exactly when it is in the rectangle, on a shown row and available; every other cell is unchanged |
| ScheduleGrid.BlockedCellsUntouched | src/components/timetable/schedule-grid.tsx:123 | a blocked cell is never changed by any sequence of visits |
| ScheduleGrid.ToggleSlotAsWritten | src/components/timetable/schedule-grid.tsx:94-113 | `toggleSlot` as written: a no-op on an unavailable cell |
| ScheduleGrid.ToggleAsWrittenWritesDirection | src/components/timetable/schedule-grid.tsx:94-113 | on an available cell, the as-written toggle leaves the cell showing `isSelecting` |
| ScheduleGrid.ToggleAsWrittenDoesNotToggle | src/components/timetable/schedule-grid.tsx:94-113 | with `isSelecting` true, pressing Enter on a selected cell leaves it selected |
| ScheduleGrid.ToggleSlot | src/components/timetable/schedule-grid.tsx:94-113 | the corrected `toggleSlot` is a no-op on an unavailable cell |
| ScheduleGrid.ToggleSlotFlips | src/components/timetable/schedule-grid.tsx:94-113 | the corrected toggle flips the pressed cell and leaves cells of other days or times alone |
| ScheduleGrid.Grid.constructor | src/components/timetable/schedule-grid.tsx:27-38 | idle, direction "select", no corners |
| ScheduleGrid.Grid.IsInDragArea | src/components/timetable/schedule-grid.tsx:235-260 | false when idle or unavailable; otherwise the rectangle test, symmetric in the corners |
| ScheduleGrid.Grid.Available | src/components/timetable/schedule-grid.tsx:312-317 | by definition: the rendered cell's `isCellAvailable` |
| ScheduleGrid.Grid.Selected | src/components/timetable/schedule-grid.tsx:318-324 | by definition: the rendered cell's `isSelected` |
| ScheduleGrid.Grid.HighlightIsReleaseArea | src/components/timetable/schedule-grid.tsx:235-260 | on a shown row, a cell is highlighted exactly when a release would visit it and it is available |
| ScheduleGrid.Grid.MouseDown | src/components/timetable/schedule-grid.tsx:184-199 | ignores non-left buttons and unavailable cells; otherwise starts the drag at the cell, and the direction is "select" unless the cell is selected |
| ScheduleGrid.Grid.MouseOver | src/components/timetable/schedule-grid.tsx:202-206 | only while dragging, moves only the end corner |
| ScheduleGrid.Grid.SelectArea | src/components/timetable/schedule-grid.tsx:147-181 | the new selection is the fold of the release over the rectangle's cells |
| ScheduleGrid.Grid.Release | src/components/timetable/schedule-grid.tsx:209-232 | a release while dragging applies the area once and returns to idle; while idle nothing changes |
| ScheduleGrid.Grid.KeyDown | src/components/timetable/schedule-grid.tsx:354-361 | Enter or Space on an available cell calls `toggleSlot` as written, so the cell afterwards shows the grid's current `isSelecting`; anything else changes nothing |
| DateSelector.WithoutDay | src/app/admin/admin-dashboard.tsx:394-398 | keeps exactly the dates of other calendar days |
| DateSelector.HasDay | src/app/admin/admin-dashboard.tsx:389-392 | by definition: some picked date has the same `toDateString()`; `DateSelector.HandleSelectToggles` states how a pick changes it |
| DateSelector.WithoutDayKeepsOrder | src/app/admin/admin-dashboard.tsx:394-398 | removing a day keeps the list sorted |
| DateSelector.InsertByTime | src/app/admin/admin-dashboard.tsx:401-403 | inserting adds exactly one occurrence of the date |
| DateSelector.InsertKeepsOrder | src/app/admin/admin-dashboard.tsx:401-403 | inserting into a sorted list gives a sorted list |
| DateSelector.SortByTime | src/app/admin/admin-dashboard.tsx:401-403 | the sort gives a list sorted by time that is a permutation of its input |
| DateSelector.SortKeepsDistinctDays | src/app/admin/admin-dashboard.tsx:401-403 | sorting keeps the days distinct |
| DateSelector.HandleSelect | src/app/admin/admin-dashboard.tsx:385-407 | no date changes nothing; adding a new day gives a sorted permutation of the list plus the date |
| DateSelector.HandleSelectToggles | src/app/admin/admin-dashboard.tsx:385-407 | picking a date flips whether its day is in the list and leaves every other day alone |
| DateSelector.HandleSelectKeepsInvariant | src/app/admin/admin-dashboard.tsx:385-407 | the list stays sorted with one date per calendar day |
| DateSelector.RemoveAt | src/app/admin/admin-dashboard.tsx:450-454 | a valid index removes exactly that entry; any other index changes nothing |
| DateSelector.RemoveAtKeepsInvariant | src/app/admin/admin-dashboard.tsx:450-454 | removing a chip keeps the list sorted with distinct days |
| TimeSelector.HourChange | src/app/admin/admin-dashboard.tsx:491-498 | sets the hour and keeps the minute, or uses minute 0 when no time was set |
| TimeSelector.MinuteChange | src/app/admin/admin-dashboard.tsx:500-507 | sets the minute and keeps the hour, or uses hour 0 when no time was set |
| TimeSelector.ApplyEdit | src/app/admin/admin-dashboard.tsx:491-507 | the bound becomes null exactly on the clear button |
| TimeSelector.PicksCommute | src/app/admin/admin-dashboard.tsx:491-507 | picking an hour and a minute in either order gives exactly that time |
| TimeSelector.EditsStayOnPicker | src/app/admin/admin-dashboard.tsx:487-489 | starting from a picker value, edits keep the hour in 0..24 and the minute in {0, 30} |
| TimeSelector.OnPicker | src/app/admin/admin-dashboard.tsx:487-489 | by definition: an hour among the 25 options 0 to 24 and a minute among 0 and 30 |
| AdminDashboard.SaveDisabled | src/app/admin/admin-dashboard.tsx:713 | save is disabled exactly when both bounds are set and the end is not after the start |
| AdminDashboard.IsTimeRangeValid | src/app/admin/admin-dashboard.tsx:631-638 | by definition: both bounds set and the end strictly after the start; `AdminDashboard.SaveDisabled` states the button's gate in terms of it |
| AdminDashboard.SaveDisabledIffEmptyGrid | src/app/admin/admin-dashboard.tsx:631-638 | for picker values, save is disabled exactly when both bounds are set and the grid has no row; a valid range shows a row and the end label |
| AdminDashboard.MigrateBlocks | src/app/admin/admin-dashboard.tsx:595-608 | each legacy record becomes a record at local midnight of `today + day` with the same hour, minute and state |
| AdminDashboard.Migrate | src/app/admin/admin-dashboard.tsx:591-613 | a date-keyed list is taken as it is; a legacy list keeps its length |
| AdminDashboard.MigrateTomorrow | src/app/admin/admin-dashboard.tsx:595-608 | a day-1 record becomes a record for tomorrow's midnight |
| AdminDashboard.MigrateKeepsBlocking | src/app/admin/admin-dashboard.tsx:591-613 | day d is blocked in the legacy list exactly when the date `today + d` is blocked in the migrated list |
| AdminDashboard.MigrateKeepsUniqueKeys | src/app/admin/admin-dashboard.tsx:595-608 | distinct legacy records become records with distinct keys under both comparisons |
| AdminDashboard.Dashboard.constructor | src/app/admin/admin-dashboard.tsx:580-583 | empty draft and no dates |
| AdminDashboard.Dashboard.SyncFromStore | src/app/admin/admin-dashboard.tsx:591-613 | the draft becomes the migrated store list |
| AdminDashboard.Dashboard.Mount | src/app/admin/admin-dashboard.tsx:586-613 | the role becomes admin and the draft is loaded; nothing else in the store changes |
| AdminDashboard.Dashboard.SetLocalBlockedSlots | src/app/admin/admin-dashboard.tsx:699 | the grid's `onChange` replaces the draft |
| AdminDashboard.Dashboard.HandleSave | src/app/admin/admin-dashboard.tsx:616-621 | the store gets the draft and the dates; reloading the draft afterwards leaves it unchanged |
| AdminDashboard.Dashboard.ClickSave | src/app/admin/admin-dashboard.tsx:710-716 | while disabled, nothing is written; otherwise the save happens |
| AdminDashboard.Dashboard.HandleReset | src/app/admin/admin-dashboard.tsx:624-628 | empties the draft and the dates and clears the store's admin settings |
| AdminDashboard.Dashboard.SelectDate | src/app/admin/admin-dashboard.tsx:385-407 | the dates become the `handleSelect` result and stay sorted, one per day |
| AdminDashboard.Dashboard.RemoveDate | src/app/admin/admin-dashboard.tsx:450-454 | the chip's entry is removed and the invariant kept |
| AdminDashboard.Dashboard.ClearDates | src/app/admin/admin-dashboard.tsx:466 | empties the dates |
| AdminDashboard.Dashboard.EditStartTime | src/app/admin/admin-dashboard.tsx:648-652 | the store's start becomes the picker's value; nothing else changes |
| AdminDashboard.Dashboard.EditEndTime | src/app/admin/admin-dashboard.tsx:653-657 | the store's end becomes the picker's value; nothing else changes |
| BlockGrid.SetSlotBlocked | src/app/admin/admin-dashboard.tsx:109-132 | a missing date returns the list unchanged; a key found in the original changes only that entry's state and keeps the length; otherwise exactly one record is appended |
| BlockGrid.ApplyBlocked | src/app/admin/admin-dashboard.tsx:149-168 | the fold never shrinks the list and keeps its earlier keys in place |
| BlockGrid.ApplyBlockedConcat | src/app/admin/admin-dashboard.tsx:149-168 | visiting two runs of cells one after the other is visiting their concatenation |
| BlockGrid.IndexOfExtension | src/app/admin/admin-dashboard.tsx:109-132 | a list that extends the original with the same earlier keys finds the original's keys at the same index, and other keys only past its end |
| BlockGrid.SetSlotBlockedReadBack | src/app/admin/admin-dashboard.tsx:109-132 | one call, read back: the visited key reads the direction and every other key is unchanged |
| BlockGrid.ApplyBlockedReadBack | src/app/admin/admin-dashboard.tsx:135-171 | despite the lookup in the original list, each visited key reads the direction afterwards and every other key reads as in the original |
| BlockGrid.SetSlotBlockedKeepsUniqueKeys | src/app/admin/admin-dashboard.tsx:109-132 | one call keeps keys unique when a key missing from the prop is also missing from the list being built |
| BlockGrid.LastCellNotWrittenBefore | src/app/admin/admin-dashboard.tsx:149-168 | with distinct cell keys, the last visited cell's date and time is not written by any earlier cell |
| BlockGrid.ApplyBlockedKeepsUniqueKeys | src/app/admin/admin-dashboard.tsx:93-132 | if no key is visited twice, unique keys stay unique |
| BlockGrid.DragCellKeysDistinct | src/app/admin/admin-dashboard.tsx:149-168 | over distinct days and a distinct axis, a release visits no key twice |
| BlockGrid.SelectAreaEffect | src/app/admin/admin-dashboard.tsx:135-171 | over distinct days, after a release a cell shows the direction exactly when it is in the rectangle on a shown row with an existing date; every other cell is unchanged; unique keys stay unique |
| BlockGrid.KeyToggle | src/app/admin/admin-dashboard.tsx:323-335 | a missing date changes nothing; unique keys stay unique |
| BlockGrid.KeyToggleFlips | src/app/admin/admin-dashboard.tsx:323-335 | Enter or Space sets the cell to the negation of what it shows, and leaves other dates and times alone |
| BlockGrid.Grid.constructor | src/app/admin/admin-dashboard.tsx:53-64 | idle, direction "block", no corners |
| BlockGrid.Grid.IsInDragArea | src/app/admin/admin-dashboard.tsx:214-240 | false when idle; otherwise the rectangle test, symmetric in the corners |
| BlockGrid.Grid.Blocked | src/app/admin/admin-dashboard.tsx:290-296 | by definition: the rendered cell's `isBlocked` |
| BlockGrid.Grid.HighlightIsReleaseArea | src/app/admin/admin-dashboard.tsx:214-240 | on a shown row with an existing date, a cell is highlighted exactly when a release would visit it |
| BlockGrid.Grid.MouseDown | src/app/admin/admin-dashboard.tsx:174-191 | ignores non-left buttons; otherwise starts the drag at the cell, and the direction is "block" unless the cell is blocked |
| BlockGrid.Grid.MouseOver | src/app/admin/admin-dashboard.tsx:194-198 | only while dragging, moves only the end corner |
| BlockGrid.SelectRow | src/app/admin/admin-dashboard.tsx:157-167 | the inner loop computes the fold over the column's visited cells |
| BlockGrid.ApplyBlockedNextColumn | src/app/admin/admin-dashboard.tsx:149-168 | one more date index applies that column's row cells after the earlier columns, or nothing when the index has no date |
| BlockGrid.SelectCells | src/app/admin/admin-dashboard.tsx:137-168 | the two loops, starting from a copy of the draft, compute the fold of the release over every cell of the rectangle between the corners |
| BlockGrid.Grid.SelectArea | src/app/admin/admin-dashboard.tsx:135-171 | the new draft is the fold of the release over the rectangle's cells, with every lookup in the draft from before the release |
| BlockGrid.Grid.MouseUp | src/app/admin/admin-dashboard.tsx:201-211 | a mouse-up while dragging applies the area once and returns to idle; while idle nothing changes |
| BlockGrid.Grid.KeyDown | src/app/admin/admin-dashboard.tsx:323-335 | Enter or Space applies the keyboard toggle; any other key changes nothing |

## Left out

- Rendering is not modelled: the table markup, CSS classes, `formatDate`, `formatTime` and the "pick a date first" placeholder.
- Toasts, `console.log` and the Calendar, Popover and Select widgets are foreign UI code. The widgets' values arrive as parameters: a picked date as an `Option<Instant>`, and a picked hour or minute as an already-parsed integer (`parseInt` is not modelled).
- React hooks, effect scheduling and state batching are not modelled. Each handler is one atomic transition. The load effect is a method the caller runs after the store's list changes (`SyncFromStore`).
- `useSchedule` throwing outside a provider is not modelled. It is a configuration error, not behaviour.
- The page and route files and the two role wrappers are not part of this model; they only navigate and call `setRole`.
- Wall-clock time is a parameter. `new Date()` in the migration becomes the parameter `today`, a day number. The picked dates are given as values.
- The mentor/applicant grid has a second, window-wide mouse-up listener. The two listeners compute the same list unless the selection changes during a drag without a corner moving, so the model has one `Release` transition. Registering and removing the listener is not modelled.
- ScheduleGrid.Grid.Release: always folds over the current selection. The window listener is registered again only when `isDragging`, `dragStart` or `dragEnd` change, so it sees the selection and `isSelecting` of the render in which the drag state last changed. If Enter or Space on a focused cell changes the selection during a drag, that listener rebuilds from the older selection and drops the keyboard write. This stale selection is not modelled.
- The admin grid has no window-wide listener. A mouse-up outside it is never seen, and `MouseUp` models only the release on the grid.
- The store's list is either all legacy records or all dated records, as its declared type says. A mixed list, which the load effect would classify by its first element only, cannot be represented.
- The store's initial and reset empty list is represented as the empty dated list. An empty legacy list migrates to the same empty draft.
- BlockGrid.SetSlotBlocked: requires the list being built to be at least as long as the original. Every caller in the source meets this, since the list starts as a copy of the original and only grows. The model therefore does not describe writing past the end of a JavaScript array.
- BlockGrid.SelectAreaEffect: the read-back needs distinct dates. Every date list the page builds has them (`Dashboard.Valid`). The read-back itself, `ApplyBlockedReadBack`, holds for any list.
- ScheduleGrid.SelectAreaEffect: needs columns on distinct calendar days. `BlockedCellsUntouched` holds without that condition.
- Integers are unbounded. The source's values are small (hours 0 to 24, minutes 0 or 30, day offsets), so no overflow is modelled.
- The two keyboard paths differ. The admin keyboard path negates the cell's state (`BlockGrid.KeyToggle`). The mentor/applicant one writes the current drag direction (`ScheduleGrid.Grid.KeyDown`), which the finding below records.

## Findings

| source | as written | input that shows it | evidently intended | confidence | as-written member | corrected member |
|---|---|---|---|---|---|---|
| src/components/timetable/schedule-grid.tsx:94-113 | on an available cell, `toggleSlot` writes the grid's current `isSelecting`, whatever the cell's own state | one date, a selected record for 09:00 on it, `isSelecting` at its initial `true`; Enter on that cell leaves it selected | Enter or Space flips the pressed cell, as the admin grid's keyboard path does (admin-dashboard.tsx:323-335) | not executed | ScheduleGrid.ToggleAsWrittenDoesNotToggle | ScheduleGrid.ToggleSlotFlips |
