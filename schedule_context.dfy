/**
 * The shared store of the application (`ScheduleProvider`): who is using it,
 * the admin's blocked slots and dates, the visible time window, and the
 * blocked-slot query both grids rely on.
 */
module ScheduleContext {
  import opened Calendar
  import opened SlotSet

  datatype Role = Mentor | Applicant | Admin

  /** The legacy record `TimeBlock`, keyed by a day number instead of a date. */
  datatype TimeBlock = TimeBlock(day: int, hour: int, minute: int, blocked: bool)

  /**
   * `TimeBlock[] | EnhancedTimeBlock[]`: a list of legacy day-keyed records
   * or a list of date-keyed records (`Slot` with `state` = `blocked`).
   */
  datatype BlockedList = LegacyBlocks(blocks: seq<TimeBlock>) | DatedBlocks(slots: seq<Slot>)

  /** The `number | Date` argument of `isTimeSlotBlocked`. */
  datatype DayOrDate = Day(day: int) | Date(date: Instant)

  /** The `some` callback for a day-number query. */
  predicate LegacyHit(b: TimeBlock, day: int, hour: int, minute: int)
  {
    b.day == day && b.hour == hour && b.minute == minute && b.blocked
  }

  /** The `some` callback for a date query: same `toDateString()`, hour and minute, and blocked. */
  predicate DatedHit(s: Slot, date: Instant, hour: int, minute: int)
  {
    s.date.day == date.day && s.hour == hour && s.minute == minute && s.state
  }

  function AnyLegacyHit(blocks: seq<TimeBlock>, day: int, hour: int, minute: int): (r: bool)
    ensures r <==> exists i :: 0 <= i < |blocks| && LegacyHit(blocks[i], day, hour, minute)
  {
    if blocks == [] then false
    else LegacyHit(blocks[0], day, hour, minute) || AnyLegacyHit(blocks[1..], day, hour, minute)
  }

  function AnyDatedHit(slots: seq<Slot>, date: Instant, hour: int, minute: int): (r: bool)
    ensures r <==> exists i :: 0 <= i < |slots| && DatedHit(slots[i], date, hour, minute)
  {
    if slots == [] then false
    else DatedHit(slots[0], date, hour, minute) || AnyDatedHit(slots[1..], date, hour, minute)
  }

  /**
   * `isTimeSlotBlocked`: a day number is answered from day-keyed records
   * only, a date from date-keyed records only.
   */
  function IsTimeSlotBlocked(list: BlockedList, query: DayOrDate, hour: int, minute: int): (r: bool)
    ensures r ==> (query.Day? <==> list.LegacyBlocks?)
  {
    match query
    case Day(d) => list.LegacyBlocks? && AnyLegacyHit(list.blocks, d, hour, minute)
    case Date(dt) => list.DatedBlocks? && AnyDatedHit(list.slots, dt, hour, minute)
  }

  /** A record whose `blocked` is false never blocks a cell. */
  lemma UnblockedRecordsBlockNothing(list: BlockedList, query: DayOrDate, hour: int, minute: int)
    requires list.LegacyBlocks? ==> forall i :: 0 <= i < |list.blocks| ==> !list.blocks[i].blocked
    requires list.DatedBlocks? ==> forall i :: 0 <= i < |list.slots| ==> !list.slots[i].state
    ensures !IsTimeSlotBlocked(list, query, hour, minute)
  {
  }

  /** A date query looks only at the calendar day of the date, not at its time. */
  lemma DateQueryByCalendarDay(list: BlockedList, a: Instant, b: Instant, hour: int, minute: int)
    requires a.day == b.day
    ensures IsTimeSlotBlocked(list, Date(a), hour, minute) == IsTimeSlotBlocked(list, Date(b), hour, minute)
  {
  }

  /**
   * With at most one record per calendar day and time, the store's `some`
   * query and the grids' `findIndex` lookup agree on every cell.
   */
  lemma DateQueryAgreesWithLookup(slots: seq<Slot>, dates: seq<Instant>, dateIndex: int, hour: int, minute: int)
    requires UniqueKeys(CalendarDay, slots)
    requires 0 <= dateIndex < |dates|
    ensures IsTimeSlotBlocked(DatedBlocks(slots), Date(dates[dateIndex]), hour, minute)
            == IsOn(CalendarDay, slots, dates, dateIndex, hour, minute)
  {
    var date := dates[dateIndex];
    var i := IndexOf(slots, CalendarDay, date, hour, minute);
    if IsTimeSlotBlocked(DatedBlocks(slots), Date(date), hour, minute) {
      var k :| 0 <= k < |slots| && DatedHit(slots[k], date, hour, minute);
      assert Matches(CalendarDay, slots[k], date, hour, minute);
      IndexOfUnique(CalendarDay, slots, k, date, hour, minute);
    }
    if i != -1 && slots[i].state {
      assert DatedHit(slots[i], date, hour, minute);
    }
  }

  /** The store. Each setter of the provider is a method that changes its one field. */
  class ScheduleStore {
    var name: string
    var role: Role
    var blockedTimeSlots: BlockedList
    var scheduledDates: seq<Instant>
    var startTime: Option<TimeOfDay>
    var endTime: Option<TimeOfDay>

    /** The initial state: no name, the applicant role, nothing blocked, no dates, no window. */
    constructor ()
      ensures name == "" && role == Applicant
      ensures blockedTimeSlots == DatedBlocks([]) && scheduledDates == []
      ensures startTime == None && endTime == None
    {
      name := "";
      role := Applicant;
      blockedTimeSlots := DatedBlocks([]);
      scheduledDates := [];
      startTime := None;
      endTime := None;
    }

    /** `isTimeSlotBlocked` over the current records. */
    predicate Blocked(query: DayOrDate, hour: int, minute: int)
      reads this
    {
      IsTimeSlotBlocked(blockedTimeSlots, query, hour, minute)
    }

    method SetName(n: string)
      modifies this
      ensures name == n && role == old(role) && blockedTimeSlots == old(blockedTimeSlots)
      ensures scheduledDates == old(scheduledDates) && startTime == old(startTime) && endTime == old(endTime)
    {
      name := n;
    }

    method SetRole(r: Role)
      modifies this
      ensures role == r && name == old(name) && blockedTimeSlots == old(blockedTimeSlots)
      ensures scheduledDates == old(scheduledDates) && startTime == old(startTime) && endTime == old(endTime)
    {
      role := r;
    }

    method SetBlockedTimeSlots(list: BlockedList)
      modifies this
      ensures blockedTimeSlots == list && name == old(name) && role == old(role)
      ensures scheduledDates == old(scheduledDates) && startTime == old(startTime) && endTime == old(endTime)
    {
      blockedTimeSlots := list;
    }

    method SetScheduledDates(dates: seq<Instant>)
      modifies this
      ensures scheduledDates == dates && name == old(name) && role == old(role)
      ensures blockedTimeSlots == old(blockedTimeSlots) && startTime == old(startTime) && endTime == old(endTime)
    {
      scheduledDates := dates;
    }

    method SetStartTime(t: Option<TimeOfDay>)
      modifies this
      ensures startTime == t && name == old(name) && role == old(role)
      ensures blockedTimeSlots == old(blockedTimeSlots) && scheduledDates == old(scheduledDates) && endTime == old(endTime)
    {
      startTime := t;
    }

    method SetEndTime(t: Option<TimeOfDay>)
      modifies this
      ensures endTime == t && name == old(name) && role == old(role)
      ensures blockedTimeSlots == old(blockedTimeSlots) && scheduledDates == old(scheduledDates) && startTime == old(startTime)
    {
      endTime := t;
    }

    /** `resetSchedule`: clears the name only; the admin's timetable stays. */
    method ResetSchedule()
      modifies this
      ensures name == "" && role == old(role) && blockedTimeSlots == old(blockedTimeSlots)
      ensures scheduledDates == old(scheduledDates) && startTime == old(startTime) && endTime == old(endTime)
    {
      name := "";
    }

    /**
     * `resetAdminSettings`: no blocked slots, no dates and no window; the name
     * and the role stay. Afterwards no cell is blocked.
     */
    method ResetAdminSettings()
      modifies this
      ensures blockedTimeSlots == DatedBlocks([]) && scheduledDates == []
      ensures startTime == None && endTime == None
      ensures name == old(name) && role == old(role)
      ensures forall q, h, m :: !Blocked(q, h, m)
    {
      blockedTimeSlots := DatedBlocks([]);
      scheduledDates := [];
      startTime := None;
      endTime := None;
    }
  }
}
