/**
  The admin site's slot duration column and its two bulk actions on the
  selected reservations.
*/
module Admin {
  import opened Slots
  import opened Accommodations
  import opened Reservations

  /** The `duration_days` column: the slot's days, both ends counted. */
  function SlotDuration(s: Slot): (n: int)
    ensures WellFormed(s) ==> n >= 1 && n == |DaysBetween(s.start, s.end)|
    ensures s.start == s.end ==> n == 1
  {
    var n := DurationDays(s.start, s.end);
    if WellFormed(s) then
      DurationDaysCountsDays(s.start, s.end);
      n
    else
      n
  }

  /** The accommodations of the selected reservations. */
  function AccommodationsOf(rs: seq<Reservation>): (accs: set<Accommodation>)
  {
    set r | r in rs :: r.accommodation
  }

  /**
    `mark_as_cancelled`: `cancel` every selected reservation that can be
    cancelled. Each PENDING one becomes CANCELLED and sets its
    accommodation's flag; every other one, and every other
    accommodation, is left alone. A reservation selected twice is
    cancelled once.
  */
  method MarkAsCancelled(rs: seq<Reservation>)
    modifies (set r | r in rs)`status, AccommodationsOf(rs)`isAvailable
    ensures forall r :: r in rs ==> r.status == AfterCancel(old(r.status))
    ensures forall r :: r in rs ==> r.status != Pending
    ensures forall a :: a in AccommodationsOf(rs) ==>
      a.isAvailable == (old(a.isAvailable) || exists r :: r in rs && r.accommodation == a && old(r.status) == Pending)
  {
    var i := 0;
    while i < |rs|
      invariant 0 <= i <= |rs|
      invariant forall r :: r in rs[..i] ==> r.status == AfterCancel(old(r.status))
      invariant forall r :: r in rs && r !in rs[..i] ==> r.status == old(r.status)
      invariant forall a :: a in AccommodationsOf(rs) ==>
        a.isAvailable == (old(a.isAvailable) || exists r :: r in rs[..i] && r.accommodation == a && old(r.status) == Pending)
    {
      var r := rs[i];
      assert rs[..i + 1] == rs[..i] + [r];
      if CanBeCancelled(r.status) {
        var _ := r.Cancel();
      }
      i := i + 1;
    }
    assert rs[..i] == rs;
  }

  /**
    `mark_as_completed`: one bulk update setting every selected
    reservation to COMPLETED, whatever its status; no slot and no flag
    changes.
  */
  method MarkAsCompleted(rs: seq<Reservation>)
    modifies (set r | r in rs)`status
    ensures forall r :: r in rs ==> r.status == Completed
  {
    forall r | r in rs {
      r.status := Completed;
    }
  }

  /**
    Running `mark_as_cancelled` twice has the effect of running it once:
    the first run leaves nothing PENDING, so the second changes nothing.
  */
  method MarkAsCancelledTwice(rs: seq<Reservation>)
    modifies (set r | r in rs)`status, AccommodationsOf(rs)`isAvailable
    ensures forall r :: r in rs ==> r.status == AfterCancel(old(r.status))
    ensures forall a :: a in AccommodationsOf(rs) ==>
      a.isAvailable == (old(a.isAvailable) || exists r :: r in rs && r.accommodation == a && old(r.status) == Pending)
  {
    MarkAsCancelled(rs);
    MarkAsCancelled(rs);
  }
}
