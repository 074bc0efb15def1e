/**
 * The sparse slot list both grids keep: records of
 * `(date, hour, minute) -> state`, looked up by a linear `findIndex`.
 */
module SlotSet {
  import opened Calendar

  /**
   * One record. In the admin grid this is an `EnhancedTimeBlock` and
   * `state` is `blocked`; in the mentor/applicant grid it is a `TimeSlot`
   * and `state` is `selected`.
   */
  datatype Slot = Slot(date: Instant, hour: int, minute: int, state: bool)

  /** What a lookup of the given kind compares. */
  datatype SlotKey = SlotKey(date: Instant, hour: int, minute: int)

  function KeyOf(eq: DateEquality, s: Slot): SlotKey
  {
    SlotKey(DateKey(eq, s.date), s.hour, s.minute)
  }

  function CellKey(eq: DateEquality, date: Instant, hour: int, minute: int): SlotKey
  {
    SlotKey(DateKey(eq, date), hour, minute)
  }

  /** The `findIndex` callback: same date (by the grid's comparison), hour and minute. */
  predicate Matches(eq: DateEquality, s: Slot, date: Instant, hour: int, minute: int)
  {
    SameDate(eq, s.date, date) && s.hour == hour && s.minute == minute
  }

  /** At most one record per key. */
  predicate UniqueKeys(eq: DateEquality, slots: seq<Slot>)
  {
    forall i, j {:trigger KeyOf(eq, slots[i]), KeyOf(eq, slots[j])} :: 0 <= i < j < |slots| ==> KeyOf(eq, slots[i]) != KeyOf(eq, slots[j])
  }

  /** `findIndex`: the first matching position, or -1 when none matches. */
  function IndexOf(slots: seq<Slot>, eq: DateEquality, date: Instant, hour: int, minute: int): (i: int)
    ensures -1 <= i < |slots|
    ensures i >= 0 ==> Matches(eq, slots[i], date, hour, minute)
    ensures i >= 0 ==> forall j :: 0 <= j < i ==> !Matches(eq, slots[j], date, hour, minute)
    ensures i == -1 <==> forall j :: 0 <= j < |slots| ==> !Matches(eq, slots[j], date, hour, minute)
  {
    if slots == [] then -1
    else if Matches(eq, slots[0], date, hour, minute) then 0
    else
      var r := IndexOf(slots[1..], eq, date, hour, minute);
      if r == -1 then -1 else r + 1
  }

  /** `getSlotIndex`: -1 when the grid has no date at `dateIndex`, else the `findIndex` result. */
  function SlotIndex(eq: DateEquality, slots: seq<Slot>, dates: seq<Instant>,
                     dateIndex: int, hour: int, minute: int): (i: int)
    ensures -1 <= i < |slots|
    ensures !(0 <= dateIndex < |dates|) ==> i == -1
    ensures 0 <= dateIndex < |dates| ==> i == IndexOf(slots, eq, dates[dateIndex], hour, minute)
  {
    if !(0 <= dateIndex < |dates|) then -1 else IndexOf(slots, eq, dates[dateIndex], hour, minute)
  }

  /**
   * `slotIndex !== -1 && slots[slotIndex].blocked` (or `.selected`): the cell
   * is drawn as blocked (or selected).
   */
  predicate IsOn(eq: DateEquality, slots: seq<Slot>, dates: seq<Instant>,
                 dateIndex: int, hour: int, minute: int)
  {
    var i := SlotIndex(eq, slots, dates, dateIndex, hour, minute);
    i != -1 && slots[i].state
  }

  /** In a list with unique keys, a lookup finds the one record that has the key. */
  lemma IndexOfUnique(eq: DateEquality, slots: seq<Slot>, k: int, date: Instant, hour: int, minute: int)
    requires UniqueKeys(eq, slots)
    requires 0 <= k < |slots| && Matches(eq, slots[k], date, hour, minute)
    ensures IndexOf(slots, eq, date, hour, minute) == k
  {
    var i := IndexOf(slots, eq, date, hour, minute);
    assert KeyOf(eq, slots[i]) == KeyOf(eq, slots[k]);
  }

  /** A lookup only reads keys: two lists with the same keys, position by position, answer alike. */
  lemma IndexOfSameKeys(eq: DateEquality, a: seq<Slot>, b: seq<Slot>, date: Instant, hour: int, minute: int)
    requires |a| == |b|
    requires forall i :: 0 <= i < |a| ==> KeyOf(eq, a[i]) == KeyOf(eq, b[i])
    ensures IndexOf(a, eq, date, hour, minute) == IndexOf(b, eq, date, hour, minute)
  {
    assert forall k :: 0 <= k < |a| ==>
      (Matches(eq, a[k], date, hour, minute) <==> Matches(eq, b[k], date, hour, minute));
  }

  /** A lookup in a list grown by one record. */
  lemma IndexOfAppend(eq: DateEquality, s: seq<Slot>, x: Slot, date: Instant, hour: int, minute: int)
    ensures IndexOf(s + [x], eq, date, hour, minute)
            == if IndexOf(s, eq, date, hour, minute) != -1 then IndexOf(s, eq, date, hour, minute)
               else if Matches(eq, x, date, hour, minute) then |s|
               else -1
  {
    var i := IndexOf(s, eq, date, hour, minute);
    var j := IndexOf(s + [x], eq, date, hour, minute);
    assert forall k :: 0 <= k < |s| ==> (s + [x])[k] == s[k];
    assert (s + [x])[|s|] == x;
  }

  /** Lookups of two cells with the same key agree. */
  lemma IndexOfByKey(eq: DateEquality, slots: seq<Slot>, date: Instant, hour: int, minute: int,
                     date': Instant, hour': int, minute': int)
    requires CellKey(eq, date, hour, minute) == CellKey(eq, date', hour', minute')
    ensures IndexOf(slots, eq, date, hour, minute) == IndexOf(slots, eq, date', hour', minute')
  {
    assert forall k :: 0 <= k < |slots| ==>
      (Matches(eq, slots[k], date, hour, minute) <==> Matches(eq, slots[k], date', hour', minute'));
  }

  // ---------------------------------------------------------------------
  // The list seen as a map from keys to states

  /** What a lookup reports for a key: no record, or the state of the record found. */
  function StateAt(eq: DateEquality, slots: seq<Slot>, date: Instant, hour: int, minute: int): Option<bool>
  {
    var i := IndexOf(slots, eq, date, hour, minute);
    if i == -1 then None else Some(slots[i].state)
  }

  /** A cell is drawn as on exactly when its date exists and the lookup finds an "on" record. */
  lemma IsOnMeaning(eq: DateEquality, slots: seq<Slot>, dates: seq<Instant>, dateIndex: int, hour: int, minute: int)
    ensures IsOn(eq, slots, dates, dateIndex, hour, minute) <==>
              0 <= dateIndex < |dates| && StateAt(eq, slots, dates[dateIndex], hour, minute) == Some(true)
  {
  }

  /**
   * The copy-then-write step of both grids: copy the list, then overwrite the
   * state of the record the lookup finds, or push a new record when it finds
   * none.
   */
  function Upsert(eq: DateEquality, slots: seq<Slot>, date: Instant, hour: int, minute: int, state: bool): (r: seq<Slot>)
    ensures |r| == if StateAt(eq, slots, date, hour, minute) == None then |slots| + 1 else |slots|
    ensures forall k :: 0 <= k < |slots| ==> KeyOf(eq, r[k]) == KeyOf(eq, slots[k])
    ensures |r| > |slots| ==> r[|slots|] == Slot(date, hour, minute, state)
    ensures UniqueKeys(eq, slots) ==> UniqueKeys(eq, r)
  {
    var i := IndexOf(slots, eq, date, hour, minute);
    if i != -1 then slots[i := slots[i].(state := state)]
    else slots + [Slot(date, hour, minute, state)]
  }

  /**
   * Read-back: after an upsert the written key reports the written state and
   * every other key reports what it did before.
   */
  lemma UpsertReadBack(eq: DateEquality, slots: seq<Slot>, date: Instant, hour: int, minute: int, state: bool,
                       date': Instant, hour': int, minute': int)
    ensures StateAt(eq, Upsert(eq, slots, date, hour, minute, state), date', hour', minute')
            == if CellKey(eq, date, hour, minute) == CellKey(eq, date', hour', minute') then Some(state)
               else StateAt(eq, slots, date', hour', minute')
  {
    var r := Upsert(eq, slots, date, hour, minute, state);
    var i := IndexOf(slots, eq, date, hour, minute);
    if CellKey(eq, date, hour, minute) == CellKey(eq, date', hour', minute') {
      IndexOfByKey(eq, slots, date, hour, minute, date', hour', minute');
      IndexOfByKey(eq, r, date, hour, minute, date', hour', minute');
    }
    if i != -1 {
      IndexOfSameKeys(eq, slots, r, date', hour', minute');
    } else {
      IndexOfAppend(eq, slots, Slot(date, hour, minute, state), date', hour', minute');
    }
  }
}
