/**
 * `checkTeacherRestrictions` of the schedule generation page: is a teacher
 * free, by their own declared restriction windows, during a slot on a day.
 */
module Restrictions {
  import opened School
  import Seqs
  import Clock

  /** The overlap test of the source: `slotStart < restrictionEnd && slotEnd > restrictionStart`. */
  predicate Overlaps(slotStart: int, slotEnd: int, restrictionStart: int, restrictionEnd: int) {
    slotStart < restrictionEnd && slotEnd > restrictionStart
  }

  /** Restriction `r` rules out `slot` on `day`. */
  predicate Blocks(r: Restriction, day: Day, slot: TimeSlot) {
    r.day == day && Overlaps(slot.startTime, slot.endTime, r.startTime, r.endTime)
  }

  /** The loop over `teacher.restrictions`, returning at the first conflict. */
  function CheckRestrictionList(rs: seq<Restriction>, day: Day, slot: TimeSlot): (ok: bool)
    ensures ok <==> forall i :: 0 <= i < |rs| ==> !Blocks(rs[i], day, slot)
  {
    if |rs| == 0 then true
    else if rs[0].day == day && slot.startTime < rs[0].endTime && slot.endTime > rs[0].startTime then false
    else CheckRestrictionList(rs[1..], day, slot)
  }

  /**
   * `checkTeacherRestrictions(teacher, day, slot)`: true for an empty list,
   * false exactly when some restriction on the same day strictly overlaps.
   */
  function CheckTeacherRestrictions(t: Teacher, day: Day, slot: TimeSlot): (ok: bool)
    ensures |t.restrictions| == 0 ==> ok
    ensures !ok <==> exists i :: 0 <= i < |t.restrictions| && Blocks(t.restrictions[i], day, slot)
  {
    if |t.restrictions| == 0 then true else CheckRestrictionList(t.restrictions, day, slot)
  }

  function OnDay(day: Day): Restriction -> bool {
    (r: Restriction) => r.day == day
  }

  /** Restrictions on other days never matter: only that day's list is consulted. */
  lemma {:induction false} OtherDaysIgnored(rs: seq<Restriction>, day: Day, slot: TimeSlot)
    ensures CheckRestrictionList(rs, day, slot) == CheckRestrictionList(Seqs.Filter(rs, OnDay(day)), day, slot)
  {
    if |rs| > 0 {
      OtherDaysIgnored(rs[1..], day, slot);
      var f := Seqs.Filter(rs[1..], OnDay(day));
      if rs[0].day == day {
        assert Seqs.Filter(rs, OnDay(day)) == [rs[0]] + f;
        assert ([rs[0]] + f)[1..] == f;
      } else {
        assert Seqs.Filter(rs, OnDay(day)) == f;
      }
    }
  }

  /**
   * Intervals that only touch (the slot ends when the restriction starts, or
   * starts when it ends) never block, so adding such a restriction changes nothing.
   */
  lemma TouchingNeverBlocks(rs: seq<Restriction>, r: Restriction, day: Day, slot: TimeSlot)
    requires slot.endTime <= r.startTime || r.endTime <= slot.startTime
    ensures CheckRestrictionList(rs + [r], day, slot) == CheckRestrictionList(rs, day, slot)
  {
    assert forall i :: 0 <= i < |rs| ==> (rs + [r])[i] == rs[i];
    assert (rs + [r])[|rs|] == r;
  }

  /**
   * The source compares "HH:MM" strings; on well-formed times that test agrees
   * with the minute comparison used here.
   */
  lemma OverlapAgreesWithText(slotStart: nat, slotEnd: nat, restrictionStart: nat, restrictionEnd: nat)
    requires Clock.IsTimeOfDay(slotStart) && Clock.IsTimeOfDay(slotEnd)
    requires Clock.IsTimeOfDay(restrictionStart) && Clock.IsTimeOfDay(restrictionEnd)
    ensures Overlaps(slotStart, slotEnd, restrictionStart, restrictionEnd)
        <==> Clock.StrLess(Clock.Format(slotStart), Clock.Format(restrictionEnd))
             && Clock.StrLess(Clock.Format(restrictionStart), Clock.Format(slotEnd))
  {
    Clock.FormatOrder(slotStart, restrictionEnd);
    Clock.FormatOrder(restrictionStart, slotEnd);
  }
}
