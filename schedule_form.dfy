/**
 * The mentor/applicant form (`ScheduleForm`): a name kept in the store, the
 * locally selected slots, and the submit and reset buttons.
 */
module ScheduleForm {
  import opened SlotSet
  import opened ScheduleContext

  /**
   * The characters `String.prototype.trim` removes: the ECMAScript
   * WhiteSpace and LineTerminator characters.
   */
  predicate IsJsWhitespace(c: char)
  {
    || '\U{0009}' <= c <= '\U{000D}'   // tab, line feed, vertical tab, form feed, carriage return
    || c == ' ' || c == '\U{00A0}' || c == '\U{1680}'
    || '\U{2000}' <= c <= '\U{200A}'
    || c == '\U{2028}' || c == '\U{2029}' || c == '\U{202F}' || c == '\U{205F}' || c == '\U{3000}'
    || c == '\U{FEFF}'
  }

  /** The index of the first character at or after `k` that is not whitespace, or `|s|`. */
  function LeadingSpace(s: string, k: nat): (r: nat)
    requires k <= |s|
    ensures k <= r <= |s|
    ensures forall i :: k <= i < r ==> IsJsWhitespace(s[i])
    ensures r == |s| || !IsJsWhitespace(s[r])
    decreases |s| - k
  {
    if k < |s| && IsJsWhitespace(s[k]) then LeadingSpace(s, k + 1) else k
  }

  /** The index after the last character of `s[lo..e]` that is not whitespace, or `lo`. */
  function TrailingStart(s: string, lo: nat, e: nat): (r: nat)
    requires lo <= e <= |s|
    ensures lo <= r <= e
    ensures forall i :: r <= i < e ==> IsJsWhitespace(s[i])
    ensures r == lo || !IsJsWhitespace(s[r - 1])
    decreases e
  {
    if lo < e && IsJsWhitespace(s[e - 1]) then TrailingStart(s, lo, e - 1) else e
  }

  /**
   * `name.trim()`: `s` without its leading whitespace (the first `k`
   * characters) and its trailing whitespace; what is left neither starts
   * nor ends with whitespace.
   */
  function Trim(s: string): (r: string)
    ensures |r| <= |s|
    ensures var k := LeadingSpace(s, 0);
            && k + |r| <= |s| && r == s[k..k + |r|]
            && (forall i :: 0 <= i < k ==> IsJsWhitespace(s[i]))
            && (forall i :: k + |r| <= i < |s| ==> IsJsWhitespace(s[i]))
    ensures r == [] || (!IsJsWhitespace(r[0]) && !IsJsWhitespace(r[|r| - 1]))
  {
    var k := LeadingSpace(s, 0);
    s[k..TrailingStart(s, k, |s|)]
  }

  /** `!name.trim()`: the trimmed name is empty exactly when every character is whitespace. */
  lemma TrimEmptyIffBlank(s: string)
    ensures Trim(s) == [] <==> forall i :: 0 <= i < |s| ==> IsJsWhitespace(s[i])
  {
  }

  /** `selectedSlots.filter((slot) => slot.selected).length`. */
  function CountSelected(slots: seq<Slot>): (n: nat)
    ensures n <= |slots|
  {
    if slots == [] then 0 else (if slots[0].state then 1 else 0) + CountSelected(slots[1..])
  }

  lemma {:induction false} CountSelectedZero(slots: seq<Slot>)
    ensures CountSelected(slots) == 0 <==> forall i :: 0 <= i < |slots| ==> !slots[i].state
  {
    if slots != [] {
      CountSelectedZero(slots[1..]);
      assert forall i :: 1 <= i < |slots| ==> slots[i] == slots[1..][i - 1];
    }
  }

  datatype SubmitOutcome = NameRequired | NoSlotSelected | Submitted

  /** The two checks of `handleSubmit`, the name first. */
  function Validate(name: string, slots: seq<Slot>): (o: SubmitOutcome)
    ensures o == NameRequired <==> forall i :: 0 <= i < |name| ==> IsJsWhitespace(name[i])
    ensures o == NoSlotSelected <==>
              (exists i :: 0 <= i < |name| && !IsJsWhitespace(name[i]))
              && forall j :: 0 <= j < |slots| ==> !slots[j].state
    ensures o == Submitted <==>
              (exists i :: 0 <= i < |name| && !IsJsWhitespace(name[i]))
              && exists j :: 0 <= j < |slots| && slots[j].state
  {
    TrimEmptyIffBlank(name);
    CountSelectedZero(slots);
    if Trim(name) == [] then NameRequired
    else if CountSelected(slots) == 0 then NoSlotSelected
    else Submitted
  }

  class Form {
    const store: ScheduleStore
    var selectedSlots: seq<Slot>

    constructor (store: ScheduleStore)
      ensures this.store == store && selectedSlots == []
    {
      this.store := store;
      selectedSlots := [];
    }

    /** The grid's `onChange`. */
    method SetSelectedSlots(slots: seq<Slot>)
      modifies this
      ensures selectedSlots == slots
    {
      selectedSlots := slots;
    }

    /**
     * `handleSubmit`: a rejected submit changes nothing; an accepted one
     * clears the name and the selection. Nothing else in the store changes.
     */
    method HandleSubmit() returns (outcome: SubmitOutcome)
      modifies this, store
      ensures outcome == Validate(old(store.name), old(selectedSlots))
      ensures outcome != Submitted ==> selectedSlots == old(selectedSlots) && store.name == old(store.name)
      ensures outcome == Submitted ==> selectedSlots == [] && store.name == ""
      ensures store.role == old(store.role) && store.blockedTimeSlots == old(store.blockedTimeSlots)
      ensures store.scheduledDates == old(store.scheduledDates)
      ensures store.startTime == old(store.startTime) && store.endTime == old(store.endTime)
    {
      outcome := Validate(store.name, selectedSlots);
      if outcome == Submitted {
        store.SetName("");
        selectedSlots := [];
      }
    }

    /** `handleReset`: clears the selection and the name, unconditionally. */
    method HandleReset()
      modifies this, store
      ensures selectedSlots == [] && store.name == ""
      ensures store.role == old(store.role) && store.blockedTimeSlots == old(store.blockedTimeSlots)
      ensures store.scheduledDates == old(store.scheduledDates)
      ensures store.startTime == old(store.startTime) && store.endTime == old(store.endTime)
    {
      selectedSlots := [];
      store.SetName("");
    }
  }
}
