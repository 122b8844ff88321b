/**
  An accommodation together with its availability slot table. The table
  and the aggregate `is_available` flag are the state the reservation
  flow changes in place; the other fields are fixed here.
*/
module Accommodations {
  import opened Wrappers
  import opened Slots
  import opened Splitter
  import opened Merger

  class Accommodation {
    const id: int
    /** The availability period the reservation validator checks. */
    const availableFrom: Day
    const availableTo: Day
    /** The minimum stay, in days counted inclusively. */
    const minReservationDays: int
    /** The universities whose members may reserve it. */
    const universities: set<int>
    /** The accommodation's availability slots, in row order. */
    var slots: seq<Slot>
    /** The aggregate flag; `True` on a new accommodation. */
    var isAvailable: bool

    constructor (id: int, availableFrom: Day, availableTo: Day, minReservationDays: int,
                 universities: set<int>, slots: seq<Slot>)
      ensures this.id == id && this.availableFrom == availableFrom && this.availableTo == availableTo
      ensures this.minReservationDays == minReservationDays && this.universities == universities
      ensures this.slots == slots && isAvailable
    {
      this.id := id;
      this.availableFrom := availableFrom;
      this.availableTo := availableTo;
      this.minReservationDays := minReservationDays;
      this.universities := universities;
      this.slots := slots;
      isAvailable := true;
    }

    /**
      `is_available_for_dates`: some available slot covers `from..to` and the
      stay lasts at least the minimum number of days.
    */
    function IsAvailableForDates(from: Day, to: Day): (r: bool)
      reads this
      ensures r <==> (exists k :: 0 <= k < |slots| && Serves(slots[k], from, to))
                     && DurationDays(from, to) >= minReservationDays
    {
      FirstServing(slots, from, to).Some? && DurationDays(from, to) >= minReservationDays
    }

    /** `objects.create`: a new slot row for this accommodation. */
    method AddSlot(s: Slot)
      modifies this`slots
      ensures slots == old(slots) + [s]
    {
      slots := slots + [s];
    }

    /**
      `split_slot` on the row at position `i`: inserts the residual rows
      around `from..to` and returns them; the original row stays until
      the caller deletes it.
    */
    method SplitSlot(i: nat, from: Day, to: Day) returns (before: Option<Slot>, after: Option<Slot>)
      requires i < |slots|
      modifies this`slots
      ensures (before, after) == Split(old(slots)[i], from, to)
      ensures slots == old(slots) + Residuals(old(slots)[i], from, to)
    {
      var s := slots[i];
      before := None;
      after := None;
      if from > s.start {
        before := Some(Slot(s.start, from - 1, true));
        AddSlot(before.value);
      }
      if to < s.end {
        after := Some(Slot(to + 1, s.end, true));
        AddSlot(after.value);
      }
    }

    /** `slot.delete()` for the row at position `i`. */
    method DeleteSlot(i: nat)
      requires i < |slots|
      modifies this`slots
      ensures slots == Remove(old(slots), i)
    {
      slots := Remove(slots, i);
    }

    /** One scan of the merger: the first adjacent pair of rows, if any. */
    method FindAdjacentPair() returns (p: Option<(nat, nat)>)
      ensures p == PairFrom(slots, 0, 0)
      ensures p.None? <==> NoAdjacentPair(slots)
    {
      ScanFindsPairIffOne(slots);
      var i := 0;
      while i < |slots|
        invariant 0 <= i <= |slots|
        invariant PairFrom(slots, i, 0) == PairFrom(slots, 0, 0)
      {
        var j := 0;
        while j < |slots|
          invariant 0 <= j <= |slots|
          invariant PairFrom(slots, i, j) == PairFrom(slots, 0, 0)
        {
          if i != j && Adjacent(slots[i], slots[j]) {
            return Some((i, j));
          }
          j := j + 1;
        }
        i := i + 1;
      }
      return None;
    }

    /**
      `merge_adjacent_slots`: merge a day-adjacent pair of available rows
      (widen the earlier, delete the later) and rescan, until none is left.
    */
    method MergeAdjacentSlots()
      modifies this`slots
      ensures slots == MergeAll(old(slots))
    {
      var p := FindAdjacentPair();
      while p.Some?
        invariant MergeAll(slots) == MergeAll(old(slots))
        invariant p == PairFrom(slots, 0, 0)
        decreases |slots|
      {
        var (i, j) := p.value;
        slots := slots[i := Merged(slots[i], slots[j])];
        DeleteSlot(j);
        p := FindAdjacentPair();
      }
    }

    /** `update_availability_status`: the flag becomes "some available slot exists". */
    method UpdateAvailabilityStatus()
      modifies this`isAvailable
      ensures isAvailable <==> exists k :: 0 <= k < |slots| && slots[k].isAvailable
    {
      isAvailable := HasAvailableSlot(slots);
      assert isAvailable == HasAvailableSlot(slots);
    }
  }

  /**
    The availability test's cases, for one available slot of days 0..29:
    a range inside it is available, a range outside or partly outside is
    not, and with a minimum stay of 5 days a 3-day stay is refused while
    a 5-day one is accepted.
  */
  lemma AvailableForDatesCases(a: Accommodation)
    requires a.slots == [Slot(0, 29, true)]
    ensures a.minReservationDays <= 1 ==> a.IsAvailableForDates(5, 10)
    ensures !a.IsAvailableForDates(30, 35) && !a.IsAvailableForDates(25, 35)
    ensures a.minReservationDays == 5 ==> !a.IsAvailableForDates(5, 7) && a.IsAvailableForDates(5, 9)
  {
    assert Serves(a.slots[0], 5, 10) && Serves(a.slots[0], 5, 9);
  }
}
