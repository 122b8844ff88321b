/**
  The interval type of the availability ledger: an AvailabilitySlot is an
  inclusive range of days of one accommodation, flagged available or not.
  An accommodation's slot table is a sequence of slots in row (primary key)
  order, so "the first matching row" is the first matching position.
*/
module Slots {
  import opened Wrappers

  /** A calendar date as a day number: the next day of `d` is `d + 1`. */
  type Day = int

  /** An availability slot covering the days `start..end`, both included. */
  datatype Slot = Slot(start: Day, end: Day, isAvailable: bool)

  /** The slot holds at least one day. Nothing in the source enforces this. */
  predicate WellFormed(s: Slot)
  {
    s.start <= s.end
  }

  predicate AllWellFormed(slots: seq<Slot>)
  {
    forall k :: 0 <= k < |slots| ==> WellFormed(slots[k])
  }

  predicate Contains(s: Slot, d: Day)
  {
    s.start <= d <= s.end
  }

  /** `duration_days`: the length of `start..end` counting both ends. */
  function DurationDays(start: Day, end: Day): (n: int)
  {
    end - start + 1
  }

  /** The days of `start..end` as a set. */
  function DaysBetween(start: Day, end: Day): (days: set<Day>)
    ensures forall d :: d in days <==> start <= d <= end
    decreases end - start
  {
    if start > end then {} else DaysBetween(start, end - 1) + {end}
  }

  /** `duration_days` counts exactly the days of the range: a 31-day slot lasts 31. */
  lemma {:induction false} DurationDaysCountsDays(start: Day, end: Day)
    requires start <= end + 1
    ensures |DaysBetween(start, end)| == DurationDays(start, end)
    decreases end - start
  {
    if start <= end {
      DurationDaysCountsDays(start, end - 1);
      assert end !in DaysBetween(start, end - 1);
    }
  }

  /** `start <= from` and `end >= to`: every day of `from..to` lies in the slot. */
  predicate Covers(s: Slot, from: Day, to: Day)
  {
    s.start <= from && s.end >= to
  }

  /** The filter of the reservation views: an available slot covering `from..to`. */
  predicate Serves(s: Slot, from: Day, to: Day)
  {
    s.isAvailable && Covers(s, from, to)
  }

  /** Day `d` can still be booked: some available slot contains it. */
  predicate IsFree(slots: seq<Slot>, d: Day)
  {
    exists k :: 0 <= k < |slots| && slots[k].isAvailable && Contains(slots[k], d)
  }

  /** The aggregate behind the accommodation's `is_available` flag. */
  predicate HasAvailableSlot(slots: seq<Slot>)
  {
    exists k :: 0 <= k < |slots| && slots[k].isAvailable
  }

  /** Both slots hold the same day. */
  predicate ShareDay(a: Slot, b: Slot)
  {
    WellFormed(a) && WellFormed(b) && a.start <= b.end && b.start <= a.end
  }

  lemma ShareDayWhenBothContain(a: Slot, b: Slot, d: Day)
    ensures Contains(a, d) && Contains(b, d) ==> ShareDay(a, b)
  {
  }

  /** A slot whose days all lie in `s` shares a day with `b` only if `s` does. */
  lemma ShareDayThroughContainment(a: Slot, s: Slot, b: Slot)
    requires forall d :: Contains(a, d) ==> Contains(s, d)
    ensures ShareDay(a, b) ==> ShareDay(s, b)
  {
    if ShareDay(a, b) {
      var d := if a.start <= b.start then b.start else a.start;
      assert Contains(a, d) && Contains(b, d);
    }
  }

  /** The ledger invariant: no two available slots hold the same day. */
  predicate Disjoint(slots: seq<Slot>)
  {
    forall j, k ::
      0 <= j < |slots| && 0 <= k < |slots| && j != k && slots[j].isAvailable && slots[k].isAvailable
      ==> !ShareDay(slots[j], slots[k])
  }

  /**
    `.filter(is_available=True, start_date__lte=from, end_date__gte=to).first()`:
    the position of the first slot that serves `from..to`, if there is one.
  */
  function FirstServing(slots: seq<Slot>, from: Day, to: Day): (r: Option<nat>)
    ensures r.Some? ==> r.value < |slots| && Serves(slots[r.value], from, to)
    ensures r.Some? ==> forall k :: 0 <= k < r.value ==> !Serves(slots[k], from, to)
    ensures r.None? <==> forall k :: 0 <= k < |slots| ==> !Serves(slots[k], from, to)
  {
    if |slots| == 0 then None
    else if Serves(slots[0], from, to) then Some(0)
    else
      match FirstServing(slots[1..], from, to)
      case None => None
      case Some(i) => Some(i + 1)
  }

  /** The table without its row at position `i`: a row deletion. */
  function Remove(slots: seq<Slot>, i: nat): (r: seq<Slot>)
    requires i < |slots|
    ensures |r| == |slots| - 1
    ensures forall k :: 0 <= k < i ==> r[k] == slots[k]
    ensures forall k :: i <= k < |r| ==> r[k] == slots[k + 1]
  {
    slots[..i] + slots[i + 1..]
  }

  /** A slot served by an available slot of the ledger makes all its days free. */
  lemma ServedDaysAreFree(slots: seq<Slot>, k: nat, from: Day, to: Day, d: Day)
    requires k < |slots|
    ensures Serves(slots[k], from, to) && from <= d <= to ==> IsFree(slots, d)
  {
  }
}
