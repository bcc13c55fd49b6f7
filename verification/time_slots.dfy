/**
 * The editor of subject time slots (`components/subject-time-slots-form.tsx`):
 * adding, removing and editing slots, the duration of a slot, and the checks
 * before the list is saved. A time field holds minutes since midnight, or
 * nothing when it is empty.
 */
module TimeSlots {
  import opened Wrappers
  import Seqs
  import Clock

  /** The longest slot the form accepts, in minutes. */
  const MaxSlotMinutes: nat := 45

  datatype SlotRow = SlotRow(id: string, name: string, startTime: Option<nat>, endTime: Option<nat>)

  /** `calculateDurationInMinutes`: an end before the start is taken to be on the next day. */
  function Duration(startTime: Option<nat>, endTime: Option<nat>): int {
    if startTime.None? || endTime.None? then 0
    else
      var s := startTime.value;
      var e := endTime.value;
      if e < s then e + Clock.MinutesPerDay - s else e - s
  }

  /**
   * For two times of day the duration is under a day, is zero exactly when
   * they coincide, and walking that many minutes from the start on a
   * 24-hour clock reaches the end.
   */
  lemma DurationSpec(s: nat, e: nat)
    requires Clock.IsTimeOfDay(s) && Clock.IsTimeOfDay(e)
    ensures var d := Duration(Some(s), Some(e));
      && 0 <= d < Clock.MinutesPerDay
      && (d == 0 <==> s == e)
      && (s + d) % Clock.MinutesPerDay == e
      && (s <= e ==> d == e - s)
  {
  }

  /** No shorter walk on a 24-hour clock leads from the start to the end. */
  lemma DurationIsShortestWalk(s: nat, e: nat, k: nat)
    requires Clock.IsTimeOfDay(s) && Clock.IsTimeOfDay(e)
    requires (s + k) % Clock.MinutesPerDay == e
    ensures Duration(Some(s), Some(e)) <= k
  {
    DurationSpec(s, e);
  }

  datatype SlotError =
    | Incomplete(row: nat)
    | NotAfterStart(name: string)
    | TooLong(name: string, minutes: int)

  /** The message for one slot, if any; rows are numbered from 1. */
  function CheckSlot(slot: SlotRow, row: nat): Option<SlotError> {
    if slot.name == "" || slot.startTime.None? || slot.endTime.None? then Some(Incomplete(row))
    else
      var d := Duration(slot.startTime, slot.endTime);
      if d <= 0 then Some(NotAfterStart(slot.name))
      else if d > MaxSlotMinutes then Some(TooLong(slot.name, d))
      else None
  }

  /** A slot with a name, both times and a duration of 1 to 45 minutes. */
  predicate Acceptable(slot: SlotRow) {
    && slot.name != "" && slot.startTime.Some? && slot.endTime.Some?
    && 0 < Duration(slot.startTime, slot.endTime) <= MaxSlotMinutes
  }

  /**
   * A slot passes exactly when acceptable; with times of day, "end must be
   * after start" is reported exactly for equal times, since an earlier end
   * counts as the next day.
   */
  lemma CheckSlotSpec(slot: SlotRow, row: nat)
    ensures CheckSlot(slot, row).None? <==> Acceptable(slot)
    ensures slot.startTime.Some? && slot.endTime.Some? && slot.name != ""
            && Clock.IsTimeOfDay(slot.startTime.value) && Clock.IsTimeOfDay(slot.endTime.value) ==>
              (CheckSlot(slot, row) == Some(NotAfterStart(slot.name)) <==> slot.startTime == slot.endTime)
  {
    if slot.startTime.Some? && slot.endTime.Some? && Clock.IsTimeOfDay(slot.startTime.value) && Clock.IsTimeOfDay(slot.endTime.value) {
      DurationSpec(slot.startTime.value, slot.endTime.value);
    }
  }

  /** The messages for the slots, in order, numbering rows from `base + 1`. */
  function SlotErrors(slots: seq<SlotRow>, base: nat): seq<SlotError> {
    if |slots| == 0 then []
    else
      (match CheckSlot(slots[0], base + 1) case None => [] case Some(e) => [e])
      + SlotErrors(slots[1..], base + 1)
  }

  /** `handleSubmit`: the list handed to `onSave`, unchanged, or the messages. */
  function Submit(slots: seq<SlotRow>): (r: Result<seq<SlotRow>, seq<SlotError>>)
    ensures r.Ok? ==> r.value == slots
    ensures r.Err? ==> |r.error| > 0
  {
    var errors := SlotErrors(slots, 0);
    if |errors| > 0 then Err(errors) else Ok(slots)
  }

  /** There are no messages exactly when every slot is acceptable. */
  lemma {:induction false} SlotErrorsEmpty(slots: seq<SlotRow>, base: nat)
    ensures SlotErrors(slots, base) == [] <==> forall i :: 0 <= i < |slots| ==> Acceptable(slots[i])
  {
    if |slots| > 0 {
      SlotErrorsEmpty(slots[1..], base + 1);
      CheckSlotSpec(slots[0], base + 1);
      assert forall i :: 1 <= i < |slots| ==> slots[i] == slots[1..][i - 1];
    }
  }

  /** Each incomplete row is reported with its number, and a number reported names an incomplete row. */
  lemma {:induction false} IncompleteRows(slots: seq<SlotRow>, base: nat, n: nat)
    ensures Incomplete(n) in SlotErrors(slots, base) <==>
      base < n <= base + |slots| &&
      (var slot := slots[n - base - 1]; slot.name == "" || slot.startTime.None? || slot.endTime.None?)
  {
    if |slots| > 0 {
      IncompleteRows(slots[1..], base + 1, n);
      if base + 1 < n <= base + |slots| {
        assert slots[1..][n - (base + 1) - 1] == slots[n - base - 1];
      }
    }
  }

  /** The list is saved exactly when every slot is acceptable. */
  lemma SubmitOkIffAcceptable(slots: seq<SlotRow>)
    ensures Submit(slots).Ok? <==> forall i :: 0 <= i < |slots| ==> Acceptable(slots[i])
  {
    SlotErrorsEmpty(slots, 0);
  }

  /** `handleAddSlot`: an empty slot with a fresh id at the end. */
  function AddSlot(slots: seq<SlotRow>, freshId: string): (r: seq<SlotRow>)
    ensures |r| == |slots| + 1 && r[..|slots|] == slots
  {
    slots + [SlotRow(freshId, "", None, None)]
  }

  /** A slot just added is incomplete, and the list cannot be saved until it is filled in. */
  lemma AddedSlotBlocksSubmit(slots: seq<SlotRow>, freshId: string)
    ensures Incomplete(|slots| + 1) in SlotErrors(AddSlot(slots, freshId), 0)
    ensures Submit(AddSlot(slots, freshId)).Err?
  {
    var r := AddSlot(slots, freshId);
    IncompleteRows(r, 0, |slots| + 1);
    assert r[|slots|] == SlotRow(freshId, "", None, None);
  }

  /** `handleRemoveSlot`: every slot with the id goes. */
  function RemoveSlot(slots: seq<SlotRow>, id: string): (r: seq<SlotRow>)
    ensures forall i :: 0 <= i < |r| ==> r[i].id != id
  {
    Seqs.Filter(slots, (s: SlotRow) => s.id != id)
  }

  /** Removing keeps the other slots in order, so a list that could be saved still can. */
  lemma RemoveSlotSpec(slots: seq<SlotRow>, id: string)
    ensures Seqs.IsSubsequence(RemoveSlot(slots, id), slots)
    ensures forall s :: s in slots && s.id != id ==> s in RemoveSlot(slots, id)
    ensures Submit(slots).Ok? ==> Submit(RemoveSlot(slots, id)).Ok?
  {
    Seqs.FilterIsSubsequence(slots, (s: SlotRow) => s.id != id);
    SubmitOkIffAcceptable(slots);
    SubmitOkIffAcceptable(RemoveSlot(slots, id));
  }

  /** The three fields the form edits; an emptied time field is `None`. */
  datatype Field = NameField(name: string) | StartField(startTime: Option<nat>) | EndField(endTime: Option<nat>)

  function SetField(slot: SlotRow, field: Field): SlotRow {
    match field
    case NameField(v) => slot.(name := v)
    case StartField(v) => slot.(startTime := v)
    case EndField(v) => slot.(endTime := v)
  }

  /** `handleSlotChange`: every slot with the id gets the field set. */
  function ChangeSlot(slots: seq<SlotRow>, id: string, field: Field): (r: seq<SlotRow>)
    ensures |r| == |slots|
  {
    seq(|slots|, i requires 0 <= i < |slots| => if slots[i].id == id then SetField(slots[i], field) else slots[i])
  }

  /**
   * Only the slots with the id change, only in the edited field, and the ids
   * are kept; setting a field back to its old value restores the list.
   */
  lemma ChangeSlotSpec(slots: seq<SlotRow>, id: string, field: Field, i: nat)
    requires i < |slots|
    ensures var r := ChangeSlot(slots, id, field);
      && r[i].id == slots[i].id
      && (slots[i].id != id ==> r[i] == slots[i])
      && (slots[i].id == id ==>
            && (field.NameField? ==> r[i].name == field.name && r[i].(name := slots[i].name) == slots[i])
            && (field.StartField? ==> r[i].startTime == field.startTime && r[i].(startTime := slots[i].startTime) == slots[i])
            && (field.EndField? ==> r[i].endTime == field.endTime && r[i].(endTime := slots[i].endTime) == slots[i]))
  {
  }

  /** Writing back the old value of the slot with a given id undoes an edit. */
  lemma ChangeSlotUndo(slots: seq<SlotRow>, i: nat, field: Field)
    requires i < |slots|
    requires forall j :: 0 <= j < |slots| && j != i ==> slots[j].id != slots[i].id
    ensures var old_ := match field
              case NameField(_) => NameField(slots[i].name)
              case StartField(_) => StartField(slots[i].startTime)
              case EndField(_) => EndField(slots[i].endTime);
      ChangeSlot(ChangeSlot(slots, slots[i].id, field), slots[i].id, old_) == slots
  {
  }
}
