/**
  Reservations and their status state machine. A reservation's status is
  one of four choices, PENDING on creation; only a PENDING reservation
  can be cancelled and only a COMPLETED, not yet rated one can be rated.
*/
module Reservations {
  import opened Wrappers
  import opened Slots
  import opened Merger
  import opened Accommodations

  /** `STATUS_CHOICES`: the only values the status field takes. */
  datatype Status = Pending | Confirmed | Cancelled | Completed

  /** The stored value of each choice. */
  function StatusName(s: Status): (name: string)
  {
    match s
    case Pending => "PENDING"
    case Confirmed => "CONFIRMED"
    case Cancelled => "CANCELLED"
    case Completed => "COMPLETED"
  }

  /** Membership in the list of stored status values; `None` for any other string. */
  function ParseStatus(name: string): (r: Option<Status>)
    ensures r.Some? ==> StatusName(r.value) == name
    ensures r.None? <==> forall s :: StatusName(s) != name
  {
    if name == "PENDING" then Some(Pending)
    else if name == "CONFIRMED" then Some(Confirmed)
    else if name == "CANCELLED" then Some(Cancelled)
    else if name == "COMPLETED" then Some(Completed)
    else None
  }

  /** Every choice's stored value parses back to that choice. */
  lemma ParseStatusName(s: Status)
    ensures ParseStatus(StatusName(s)) == Some(s)
  {
    var r := ParseStatus(StatusName(s));
    assert r.Some?;
    assert StatusName(r.value) == StatusName(s);
  }

  /** `can_be_cancelled`: the stored status value is `'PENDING'`. */
  predicate CanBeCancelled(s: Status): (r: bool)
    ensures r <==> StatusName(s) == "PENDING"
  {
    s == Pending
  }

  /** `can_be_rated`: completed, and no rating points at the reservation yet. */
  predicate CanBeRated(s: Status, rated: bool): (r: bool)
    ensures r <==> StatusName(s) == "COMPLETED" && !rated
  {
    s == Completed && !rated
  }

  /** The statuses that still hold the accommodation's dates. */
  predicate IsActive(s: Status)
  {
    s == Pending || s == Confirmed
  }

  /** The status after `cancel`: CANCELLED from PENDING, otherwise unchanged. */
  function AfterCancel(s: Status): (t: Status)
  {
    if CanBeCancelled(s) then Cancelled else s
  }

  /**
    Cancelling twice is cancelling once; afterwards the reservation can no
    longer be cancelled, and no cancellable reservation is ever ratable.
  */
  lemma CancelIsIdempotent(s: Status, rated: bool)
    ensures AfterCancel(AfterCancel(s)) == AfterCancel(s)
    ensures !CanBeCancelled(AfterCancel(s))
    ensures CanBeCancelled(s) ==> !CanBeRated(s, rated)
    ensures IsActive(AfterCancel(s)) <==> s == Confirmed
  {
  }

  /** The row the reservation validator's conflict query sees. */
  datatype Booking = Booking(id: int, accommodationId: int, reservedFrom: Day, reservedTo: Day, status: Status)

  class Reservation {
    const id: int
    const accommodation: Accommodation
    const member: int
    const reservedFrom: Day
    const reservedTo: Day
    var status: Status
    /** A rating row refers to this reservation. */
    var hasRating: bool

    /** A new reservation; the status defaults to PENDING when none is given. */
    constructor (id: int, accommodation: Accommodation, member: int,
                 reservedFrom: Day, reservedTo: Day, status: Option<Status>)
      ensures this.id == id && this.accommodation == accommodation && this.member == member
      ensures this.reservedFrom == reservedFrom && this.reservedTo == reservedTo
      ensures status.None? ==> this.status == Pending
      ensures status.Some? ==> this.status == status.value
      ensures !hasRating
    {
      this.id := id;
      this.accommodation := accommodation;
      this.member := member;
      this.reservedFrom := reservedFrom;
      this.reservedTo := reservedTo;
      this.status := if status.Some? then status.value else Pending;
      hasRating := false;
    }

    /**
      `cancel`, as written: a PENDING reservation becomes CANCELLED and its
      accommodation's flag becomes true; anything else is left alone. The
      slot table is not touched, and the result is false on every path.
    */
    method Cancel() returns (ok: bool)
      modifies this`status, accommodation`isAvailable
      ensures !ok
      ensures status == AfterCancel(old(status))
      ensures accommodation.isAvailable == (old(status) == Pending || old(accommodation.isAvailable))
      ensures accommodation.slots == old(accommodation.slots)
    {
      if CanBeCancelled(status) {
        status := Cancelled;
        accommodation.isAvailable := true;
      }
      return false;
    }

    /**
      `cancel` as the callers and the tests expect it: report success, and
      give the reserved days back as an available slot, merged with its
      neighbours.
    */
    method CancelAndRestore() returns (ok: bool)
      modifies this`status, accommodation
      ensures ok <==> old(status) == Pending
      ensures status == AfterCancel(old(status))
      ensures ok ==> accommodation.slots == MergeAll(old(accommodation.slots) + [Slot(reservedFrom, reservedTo, true)])
      ensures ok ==> accommodation.isAvailable
      ensures !ok ==> accommodation.slots == old(accommodation.slots)
      ensures !ok ==> accommodation.isAvailable == old(accommodation.isAvailable)
    {
      if CanBeCancelled(status) {
        status := Cancelled;
        accommodation.AddSlot(Slot(reservedFrom, reservedTo, true));
        accommodation.MergeAdjacentSlots();
        accommodation.isAvailable := true;
        return true;
      }
      return false;
    }
  }
}
