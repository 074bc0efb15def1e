/**
 * The start/end time pickers of the admin (`TimeSelector`): an hour select
 * (0 to 24), a minute select (0 or 30) and a clear button, each reporting
 * the new value of the bound.
 */
module TimeSelector {
  import opened Calendar

  /** `handleHourChange`: the new hour, keeping the minute, or minute 0 when no time was set. */
  function HourChange(selected: Option<TimeOfDay>, hour: int): (t: TimeOfDay)
    ensures t.hour == hour
    ensures selected.Some? ==> t.minute == selected.value.minute
    ensures selected.None? ==> t.minute == 0
  {
    if selected.Some? then selected.value.(hour := hour) else TimeOfDay(hour, 0)
  }

  /** `handleMinuteChange`: the new minute, keeping the hour, or hour 0 when no time was set. */
  function MinuteChange(selected: Option<TimeOfDay>, minute: int): (t: TimeOfDay)
    ensures t.minute == minute
    ensures selected.Some? ==> t.hour == selected.value.hour
    ensures selected.None? ==> t.hour == 0
  {
    if selected.Some? then selected.value.(minute := minute) else TimeOfDay(0, minute)
  }

  /** One user action on a picker; the selects' values arrive already parsed. */
  datatype TimeEdit = PickHour(hour: int) | PickMinute(minute: int) | Clear

  /** The value `onTimeChange` receives for an action. */
  function ApplyEdit(selected: Option<TimeOfDay>, edit: TimeEdit): (r: Option<TimeOfDay>)
    ensures edit.Clear? <==> r.None?
  {
    match edit
    case PickHour(h) => Some(HourChange(selected, h))
    case PickMinute(m) => Some(MinuteChange(selected, m))
    case Clear => None
  }

  /** Picking an hour and a minute, in either order and from any prior value, gives exactly that time. */
  lemma PicksCommute(selected: Option<TimeOfDay>, hour: int, minute: int)
    ensures ApplyEdit(ApplyEdit(selected, PickHour(hour)), PickMinute(minute)) == Some(TimeOfDay(hour, minute))
    ensures ApplyEdit(ApplyEdit(selected, PickMinute(minute)), PickHour(hour)) == Some(TimeOfDay(hour, minute))
  {
  }

  /** A value the two selects can produce: hour 0 to 24 and minute 0 or 30. */
  predicate OnPicker(t: TimeOfDay)
  {
    0 <= t.hour <= 24 && (t.minute == 0 || t.minute == 30)
  }

  /** Starting from nothing or from a picker value, picks keep the bound a picker value. */
  lemma EditsStayOnPicker(selected: Option<TimeOfDay>, edit: TimeEdit)
    requires selected.Some? ==> OnPicker(selected.value)
    requires edit.PickHour? ==> 0 <= edit.hour <= 24
    requires edit.PickMinute? ==> edit.minute == 0 || edit.minute == 30
    ensures ApplyEdit(selected, edit).Some? ==> OnPicker(ApplyEdit(selected, edit).value)
  {
  }
}
