/**
 * The order in which the schedule page lists the time slots it loads
 * (`app/schedule-generation/page.tsx`): sorted by their "HH:MM" start text.
 * The model sorts by start minute and proves that this is the same order.
 */
module SlotOrder {
  import opened School
  import Seqs
  import Clock

  function StartOf(s: TimeSlot): int {
    s.startTime
  }

  /** `timeSlotsData.sort((a, b) => a.startTime.localeCompare(b.startTime))`, on minutes. */
  function SortSlots(slots: seq<TimeSlot>): (r: seq<TimeSlot>)
    ensures |r| == |slots|
  {
    Seqs.SortBy(slots, StartOf)
  }

  /**
   * The sorted list holds the same slots, no slot's start text comes before
   * that of a slot listed earlier, and slots starting together keep their
   * loaded order.
   */
  lemma SortSlotsSpec(slots: seq<TimeSlot>, t: nat)
    requires forall i :: 0 <= i < |slots| ==> Clock.IsTimeOfDay(slots[i].startTime)
    ensures var r := SortSlots(slots);
      && multiset(r) == multiset(slots)
      && (forall i :: 0 <= i < |r| ==> Clock.IsTimeOfDay(r[i].startTime))
      && (forall i, j :: 0 <= i < j < |r| ==>
            !Clock.StrLess(Clock.Format(r[j].startTime), Clock.Format(r[i].startTime)))
      && Seqs.Filter(r, Seqs.KeyIs(StartOf, t)) == Seqs.Filter(slots, Seqs.KeyIs(StartOf, t))
  {
    var r := SortSlots(slots);
    Seqs.SortBySpec(slots, StartOf);
    Seqs.SortByStable(slots, StartOf, t);
    forall i | 0 <= i < |r| ensures Clock.IsTimeOfDay(r[i].startTime) {
      assert multiset(slots)[r[i]] > 0;
      var k :| 0 <= k < |slots| && slots[k] == r[i];
    }
    forall i, j | 0 <= i < j < |r|
      ensures !Clock.StrLess(Clock.Format(r[j].startTime), Clock.Format(r[i].startTime))
    {
      Clock.FormatOrder(r[j].startTime, r[i].startTime);
    }
  }
}
