/**
 * The admin page (`AdminDashboard`): the operating-hours window kept in the
 * store, the dates picked for the timetable, a local draft of the blocked
 * slots that is migrated from the legacy day-keyed format on load, and the
 * save and reset buttons.
 */
module AdminDashboard {
  import opened Calendar
  import opened TimeAxis
  import opened SlotSet
  import opened ScheduleContext
  import opened DateSelector
  import opened TimeSelector

  /** `isTimeRangeValid`: both bounds are set and the end is strictly after the start. */
  predicate IsTimeRangeValid(start: Option<TimeOfDay>, end: Option<TimeOfDay>)
  {
    start.Some? && end.Some? && Minutes(end.value) > Minutes(start.value)
  }

  /**
   * The save button's `disabled` (and the warning under the pickers): both
   * bounds are set and the range is not valid. With a bound missing saving
   * is allowed.
   */
  function SaveDisabled(start: Option<TimeOfDay>, end: Option<TimeOfDay>): (r: bool)
    ensures r <==> start.Some? && end.Some? && Minutes(end.value) <= Minutes(start.value)
  {
    start.Some? && end.Some? && !IsTimeRangeValid(start, end)
  }

  /**
   * For bounds the pickers can produce, saving is refused exactly when both
   * bounds are set and the grid has no row to show; when it is allowed with
   * both bounds set, the grid has a row and the end label.
   */
  lemma SaveDisabledIffEmptyGrid(start: Option<TimeOfDay>, end: Option<TimeOfDay>)
    requires start.Some? ==> OnPicker(start.value)
    requires end.Some? ==> OnPicker(end.value)
    ensures SaveDisabled(start, end) <==> start.Some? && end.Some? && VisibleTimes(start, end) == []
    ensures IsTimeRangeValid(start, end) ==> ShowsEndLabel(end, VisibleTimes(start, end))
  {
    if start.Some? && end.Some? {
      var s, e := Minutes(start.value), Minutes(end.value);
      if e > s {
        var i: nat := s / 30;
        assert 30 * i == s && i < BlockCount;
        BlockMinutes(i);
        WindowElementInRange(FirstIndexAtOrAfter(s), FirstIndexAtOrAfter(e), s, e, i);
        VisibleWindow(start.value, end.value);
      } else {
        InvertedWindowIsEmpty(start.value, end.value);
      }
    }
  }

  // ---------------------------------------------------------------------
  // Loading the store's list into the draft

  /** A legacy record moved to the date `today + day` at local midnight. */
  function MigrateBlocks(blocks: seq<TimeBlock>, today: int): (r: seq<Slot>)
    ensures |r| == |blocks|
    ensures forall i :: 0 <= i < |r| ==>
              r[i].date.day == today + blocks[i].day && r[i].date.ms == 0
              && r[i].hour == blocks[i].hour && r[i].minute == blocks[i].minute && r[i].state == blocks[i].blocked
  {
    if blocks == [] then []
    else
      var b := blocks[0];
      [Slot(Midnight(today + b.day), b.hour, b.minute, b.blocked)] + MigrateBlocks(blocks[1..], today)
  }

  /**
   * The load effect: a non-empty legacy list becomes date-keyed records
   * relative to `today`; any other list is taken as it is (an empty one is
   * empty either way).
   */
  function Migrate(list: BlockedList, today: int): (r: seq<Slot>)
    ensures list.DatedBlocks? ==> r == list.slots
    ensures list.LegacyBlocks? ==> |r| == |list.blocks|
  {
    match list
    case LegacyBlocks(blocks) => MigrateBlocks(blocks, today)
    case DatedBlocks(slots) => slots
  }

  /** The example of the migration: a record for day 1 becomes one for tomorrow. */
  lemma MigrateTomorrow(today: int)
    ensures Migrate(LegacyBlocks([TimeBlock(1, 9, 0, true)]), today) == [Slot(Midnight(today + 1), 9, 0, true)]
  {
    var r := Migrate(LegacyBlocks([TimeBlock(1, 9, 0, true)]), today);
    assert r[0].date == Midnight(today + 1);
  }

  /**
   * Migration keeps every answer of the store's query: day `d` of the legacy
   * list is blocked exactly when the date `today + d` is blocked in the
   * migrated list.
   */
  lemma MigrateKeepsBlocking(blocks: seq<TimeBlock>, today: int, day: int, hour: int, minute: int)
    ensures IsTimeSlotBlocked(LegacyBlocks(blocks), Day(day), hour, minute)
            == IsTimeSlotBlocked(DatedBlocks(Migrate(LegacyBlocks(blocks), today)), Date(Midnight(today + day)), hour, minute)
  {
    var r := Migrate(LegacyBlocks(blocks), today);
    if AnyLegacyHit(blocks, day, hour, minute) {
      var i :| 0 <= i < |blocks| && LegacyHit(blocks[i], day, hour, minute);
      assert DatedHit(r[i], Midnight(today + day), hour, minute);
    }
    if AnyDatedHit(r, Midnight(today + day), hour, minute) {
      var i :| 0 <= i < |r| && DatedHit(r[i], Midnight(today + day), hour, minute);
      assert LegacyHit(blocks[i], day, hour, minute);
    }
  }

  /** Legacy records with distinct (day, hour, minute) become records with distinct keys, by either comparison. */
  lemma MigrateKeepsUniqueKeys(blocks: seq<TimeBlock>, today: int)
    requires forall i, j :: 0 <= i < j < |blocks| ==>
               (blocks[i].day, blocks[i].hour, blocks[i].minute) != (blocks[j].day, blocks[j].hour, blocks[j].minute)
    ensures UniqueKeys(ExactTime, Migrate(LegacyBlocks(blocks), today))
    ensures UniqueKeys(CalendarDay, Migrate(LegacyBlocks(blocks), today))
  {
    var r := Migrate(LegacyBlocks(blocks), today);
    forall i, j | 0 <= i < j < |r| ensures KeyOf(CalendarDay, r[i]) != KeyOf(CalendarDay, r[j]) {
      assert (blocks[i].day, blocks[i].hour, blocks[i].minute) != (blocks[j].day, blocks[j].hour, blocks[j].minute);
    }
    forall i, j | 0 <= i < j < |r| ensures KeyOf(ExactTime, r[i]) != KeyOf(ExactTime, r[j]) {
      assert KeyOf(CalendarDay, r[i]) != KeyOf(CalendarDay, r[j]);
    }
  }

  // ---------------------------------------------------------------------
  // The page

  class Dashboard {
    const store: ScheduleStore
    /** The draft edited by the block grid (`localBlockedSlots`). */
    var localBlockedSlots: seq<Slot>
    var selectedDates: seq<Instant>

    /** The picked dates are in time order, one per calendar day. */
    predicate Valid()
      reads this
    {
      SortedByTime(selectedDates) && DistinctDays(selectedDates)
    }

    constructor (store: ScheduleStore)
      ensures this.store == store && localBlockedSlots == [] && selectedDates == []
      ensures Valid()
    {
      this.store := store;
      localBlockedSlots := [];
      selectedDates := [];
    }

    /** The migration effect, run on mount and whenever the store's list changes. */
    method SyncFromStore(today: int)
      modifies this
      ensures localBlockedSlots == Migrate(store.blockedTimeSlots, today)
      ensures selectedDates == old(selectedDates)
    {
      localBlockedSlots := Migrate(store.blockedTimeSlots, today);
    }

    /** Mounting the page: the role becomes admin, then the draft is loaded. */
    method Mount(today: int)
      modifies this, store
      ensures store.role == Admin
      ensures localBlockedSlots == Migrate(store.blockedTimeSlots, today)
      ensures selectedDates == old(selectedDates)
      ensures store.name == old(store.name) && store.blockedTimeSlots == old(store.blockedTimeSlots)
      ensures store.scheduledDates == old(store.scheduledDates)
      ensures store.startTime == old(store.startTime) && store.endTime == old(store.endTime)
    {
      store.SetRole(Admin);
      SyncFromStore(today);
    }

    /** The block grid's `onChange`. */
    method SetLocalBlockedSlots(slots: seq<Slot>)
      modifies this
      ensures localBlockedSlots == slots && selectedDates == old(selectedDates)
    {
      localBlockedSlots := slots;
    }

    /**
     * `handleSave`: the draft and the picked dates go to the store. The load
     * effect it triggers then leaves the draft as it is, whatever today is.
     */
    method HandleSave()
      modifies store
      ensures store.blockedTimeSlots == DatedBlocks(localBlockedSlots) && store.scheduledDates == selectedDates
      ensures store.name == old(store.name) && store.role == old(store.role)
      ensures store.startTime == old(store.startTime) && store.endTime == old(store.endTime)
      ensures forall today :: Migrate(store.blockedTimeSlots, today) == localBlockedSlots
    {
      store.SetBlockedTimeSlots(DatedBlocks(localBlockedSlots));
      store.SetScheduledDates(selectedDates);
    }

    /** The save button: ignored while disabled, otherwise `handleSave`. */
    method ClickSave()
      modifies store
      ensures SaveDisabled(old(store.startTime), old(store.endTime)) ==>
                store.blockedTimeSlots == old(store.blockedTimeSlots) && store.scheduledDates == old(store.scheduledDates)
      ensures !SaveDisabled(old(store.startTime), old(store.endTime)) ==>
                store.blockedTimeSlots == DatedBlocks(localBlockedSlots) && store.scheduledDates == selectedDates
      ensures store.name == old(store.name) && store.role == old(store.role)
      ensures store.startTime == old(store.startTime) && store.endTime == old(store.endTime)
    {
      if !SaveDisabled(store.startTime, store.endTime) {
        HandleSave();
      }
    }

    /** `handleReset`: the draft and the dates are emptied and the store's admin settings cleared. */
    method HandleReset()
      modifies this, store
      ensures localBlockedSlots == [] && selectedDates == [] && Valid()
      ensures store.blockedTimeSlots == DatedBlocks([]) && store.scheduledDates == []
      ensures store.startTime == None && store.endTime == None
      ensures store.name == old(store.name) && store.role == old(store.role)
    {
      localBlockedSlots := [];
      selectedDates := [];
      store.ResetAdminSettings();
    }

    /** The date picker's `handleSelect`. */
    method SelectDate(date: Option<Instant>)
      requires Valid()
      modifies this
      ensures Valid()
      ensures selectedDates == HandleSelect(old(selectedDates), date)
      ensures localBlockedSlots == old(localBlockedSlots)
    {
      HandleSelectKeepsInvariant(selectedDates, date);
      selectedDates := HandleSelect(selectedDates, date);
    }

    /** A chip's remove button. */
    method RemoveDate(index: int)
      requires Valid()
      modifies this
      ensures Valid()
      ensures selectedDates == RemoveAt(old(selectedDates), index)
      ensures localBlockedSlots == old(localBlockedSlots)
    {
      RemoveAtKeepsInvariant(selectedDates, index);
      selectedDates := RemoveAt(selectedDates, index);
    }

    /** "Clear all". */
    method ClearDates()
      modifies this
      ensures Valid() && selectedDates == [] && localBlockedSlots == old(localBlockedSlots)
    {
      selectedDates := [];
    }

    /** The start picker's `onTimeChange`, which writes the store directly. */
    method EditStartTime(edit: TimeEdit)
      modifies store
      ensures store.startTime == ApplyEdit(old(store.startTime), edit)
      ensures store.endTime == old(store.endTime) && store.name == old(store.name) && store.role == old(store.role)
      ensures store.blockedTimeSlots == old(store.blockedTimeSlots) && store.scheduledDates == old(store.scheduledDates)
    {
      store.SetStartTime(ApplyEdit(store.startTime, edit));
    }

    /** The end picker's `onTimeChange`. */
    method EditEndTime(edit: TimeEdit)
      modifies store
      ensures store.endTime == ApplyEdit(old(store.endTime), edit)
      ensures store.startTime == old(store.startTime) && store.name == old(store.name) && store.role == old(store.role)
      ensures store.blockedTimeSlots == old(store.blockedTimeSlots) && store.scheduledDates == old(store.scheduledDates)
    {
      store.SetEndTime(ApplyEdit(store.endTime, edit));
    }
  }
}
