/**
  The reservation endpoints as orchestrations of the slot ledger and the
  status state machine. Every refusal happens before any state changes,
  so a refused request leaves the slot table and the flag as they were.
*/
module Views {
  import opened Wrappers
  import opened Slots
  import opened Splitter
  import opened Merger
  import opened Accommodations
  import opened Reservations
  import opened Serializers
  import opened Utils

  /** The endpoints' error responses. */
  datatype ApiError =
    | FieldRequired                  // the serializer's own required-field validation
    | Invalid(error: ValidationError)
    | NotAvailable                   // "Accommodation not available"
    | MissingFields(message: string)
    | MemberNotFound
    | WrongUniversity
    | InvalidDate(field: string)
    | DatesUnavailable
    | NoSlot
    | AlreadyCancelled
    | CannotCancel
    | CancelFailed
    | InvalidStatus

  /** `key` holds a date: a `YYYY-MM-DD` string that parses, or a date object. */
  predicate DateField(data: map<string, Value>, key: string)
  {
    key in data && data[key].Date?
  }

  const ReserveFields: seq<string> := ["member_id", "reserved_from", "reserved_to", "contact_name", "contact_phone"]
  const SlotFields: seq<string> := ["start_date", "end_date"]

  /**
    `ReservationViewSet.create`: validate, check `is_available_for_dates`,
    carve the first covering slot, create the reservation, and clear the
    flag when no available slot is left (this path never sets it).
  */
  method CreateReservation(data: ReservationData, today: Day, existing: seq<Booking>, newId: int)
    returns (r: Result<Reservation, ApiError>)
    modifies if data.accommodation.Some? then {data.accommodation.value} else {}
    ensures r.Success? <==>
      Complete(data) && data.member.Some? && ValidateReservation(data, None, today, existing).None?
      && old(data.accommodation.value.IsAvailableForDates(data.reservedFrom.value, data.reservedTo.value))
    ensures r.Success? ==>
      var a, from, to := data.accommodation.value, data.reservedFrom.value, data.reservedTo.value;
      && FirstServing(old(a.slots), from, to).Some?
      && a.slots == Carve(old(a.slots), FirstServing(old(a.slots), from, to).value, from, to)
      && a.isAvailable == (old(a.isAvailable) && HasAvailableSlot(a.slots))
      && fresh(r.value)
      && r.value.accommodation == a && r.value.member == data.member.value
      && r.value.reservedFrom == from && r.value.reservedTo == to
      && r.value.status == (if data.status.Some? then data.status.value else Pending)
      && !r.value.hasRating
    ensures r.Failure? && data.accommodation.Some? ==>
      data.accommodation.value.slots == old(data.accommodation.value.slots)
      && data.accommodation.value.isAvailable == old(data.accommodation.value.isAvailable)
  {
    if !Complete(data) || data.member.None? {
      return Failure(FieldRequired);
    }
    var a, from, to := data.accommodation.value, data.reservedFrom.value, data.reservedTo.value;
    var invalid := ValidateReservation(data, None, today, existing);
    if invalid.Some? {
      return Failure(Invalid(invalid.value));
    }
    if !a.IsAvailableForDates(from, to) {
      return Failure(DatesUnavailable);
    }
    var slot := FirstServing(a.slots, from, to);
    if slot.None? {
      // The "no available slot" response: `is_available_for_dates` has
      // just found a covering slot, so this path is dead.
      assert false;
    }
    var i := slot.value;
    var before, after := a.SplitSlot(i, from, to);
    a.DeleteSlot(i);
    var reservation := new Reservation(newId, a, data.member.value, from, to, data.status);
    if !HasAvailableSlot(a.slots) {
      a.isAvailable := false;
    }
    return Success(reservation);
  }

  /**
    `AccommodationViewSet.reserve`: refuse when the flag is false, a field
    is missing, the member is unknown or from an unlinked university, a
    date does not parse, the dates are not available or the validator
    refuses; otherwise carve the first covering slot, create a PENDING
    reservation and recompute the flag.
  */
  method Reserve(a: Accommodation, data: map<string, Value>, members: map<int, int>,
                 today: Day, existing: seq<Booking>, newId: int)
    returns (r: Result<Reservation, ApiError>)
    modifies a
    ensures r == Failure(NotAvailable) <==> !old(a.isAvailable)
    ensures r.Success? <==>
      && old(a.isAvailable)
      && ValidateRequiredFields(data, ReserveFields).Success?
      && "member_id" in data && data["member_id"].Number? && data["member_id"].n in members
      && members[data["member_id"].n] in a.universities
      && DateField(data, "reserved_from") && DateField(data, "reserved_to")
      && old(a.IsAvailableForDates(data["reserved_from"].d, data["reserved_to"].d))
      && ValidateReservation(
           ReservationData(Some(a), Some(data["member_id"].n), Some(data["reserved_from"].d),
                           Some(data["reserved_to"].d), Some(Pending)),
           None, today, existing).None?
    ensures r.Success? ==>
      var from, to := data["reserved_from"].d, data["reserved_to"].d;
      && FirstServing(old(a.slots), from, to).Some?
      && a.slots == Carve(old(a.slots), FirstServing(old(a.slots), from, to).value, from, to)
      && a.isAvailable == HasAvailableSlot(a.slots)
      && fresh(r.value)
      && r.value.accommodation == a && r.value.member == data["member_id"].n
      && r.value.reservedFrom == from && r.value.reservedTo == to
      && r.value.status == Pending && !r.value.hasRating
    ensures r.Failure? ==> a.slots == old(a.slots) && a.isAvailable == old(a.isAvailable)
  {
    if !a.isAvailable {
      return Failure(NotAvailable);
    }
    var check := ValidateRequiredFields(data, ReserveFields);
    if check.Failure? {
      return Failure(MissingFields(check.error));
    }
    var memberId := data["member_id"];
    if !memberId.Number? || memberId.n !in members {
      return Failure(MemberNotFound);
    }
    if members[memberId.n] !in a.universities {
      return Failure(WrongUniversity);
    }
    if !DateField(data, "reserved_from") {
      return Failure(InvalidDate("reserved_from"));
    }
    if !DateField(data, "reserved_to") {
      return Failure(InvalidDate("reserved_to"));
    }
    var from, to := data["reserved_from"].d, data["reserved_to"].d;
    if !a.IsAvailableForDates(from, to) {
      return Failure(DatesUnavailable);
    }
    var request := ReservationData(Some(a), Some(memberId.n), Some(from), Some(to), Some(Pending));
    var invalid := ValidateReservation(request, None, today, existing);
    if invalid.Some? {
      return Failure(Invalid(invalid.value));
    }
    var slot := FirstServing(a.slots, from, to);
    if slot.None? {
      // As in `create`: the covering slot was found a moment ago.
      assert false;
    }
    var i := slot.value;
    var before, after := a.SplitSlot(i, from, to);
    a.DeleteSlot(i);
    var reservation := new Reservation(newId, a, memberId.n, from, to, Some(Pending));
    a.UpdateAvailabilityStatus();
    return Success(reservation);
  }

  /**
    The cancel endpoint, as written: refuse a CANCELLED reservation and
    any other that cannot be cancelled; otherwise call `cancel`, which
    cancels a PENDING reservation but reports failure, so the endpoint
    answers "Failed to cancel" after the status has changed.
  */
  method CancelReservation(res: Reservation) returns (r: Result<(), ApiError>)
    modifies res`status, res.accommodation`isAvailable
    ensures r.Failure?
    ensures r == Failure(AlreadyCancelled) <==> old(res.status) == Cancelled
    ensures r == Failure(CannotCancel) <==> old(res.status) == Confirmed || old(res.status) == Completed
    ensures r == Failure(CancelFailed) <==> old(res.status) == Pending
    ensures res.status == AfterCancel(old(res.status))
    ensures res.accommodation.isAvailable == (old(res.status) == Pending || old(res.accommodation.isAvailable))
    ensures res.accommodation.slots == old(res.accommodation.slots)
  {
    if res.status == Cancelled {
      return Failure(AlreadyCancelled);
    }
    if !CanBeCancelled(res.status) {
      return Failure(CannotCancel);
    }
    var ok := res.Cancel();
    if ok {
      // The success response; `cancel` never reports success.
      assert false;
    }
    return Failure(CancelFailed);
  }

  /**
    The cancel endpoint with `cancel` restoring the reserved days: a
    PENDING reservation is cancelled, its days come back as an available
    slot merged with its neighbours, the flag is recomputed, and the
    endpoint answers with success.
  */
  method CancelReservationRestoring(res: Reservation) returns (r: Result<(), ApiError>)
    modifies res`status, res.accommodation
    ensures r == Failure(AlreadyCancelled) <==> old(res.status) == Cancelled
    ensures r == Failure(CannotCancel) <==> old(res.status) == Confirmed || old(res.status) == Completed
    ensures r.Success? <==> old(res.status) == Pending
    ensures res.status == AfterCancel(old(res.status))
    ensures r.Success? ==>
      res.accommodation.slots == MergeAll(old(res.accommodation.slots) + [Slot(res.reservedFrom, res.reservedTo, true)])
      && res.accommodation.isAvailable
    ensures r.Failure? ==>
      res.accommodation.slots == old(res.accommodation.slots)
      && res.accommodation.isAvailable == old(res.accommodation.isAvailable)
  {
    if res.status == Cancelled {
      return Failure(AlreadyCancelled);
    }
    if !CanBeCancelled(res.status) {
      return Failure(CannotCancel);
    }
    var ok := res.CancelAndRestore();
    assert ok;
    MergeAllKeepsAvailability(old(res.accommodation.slots) + [Slot(res.reservedFrom, res.reservedTo, true)]);
    var restored := old(res.accommodation.slots) + [Slot(res.reservedFrom, res.reservedTo, true)];
    assert restored[|restored| - 1].isAvailable;
    res.accommodation.UpdateAvailabilityStatus();
    return Success(());
  }

  /** The outcome of a status update that is not refused. */
  datatype StatusUpdate = AlreadySet | Updated(status: Status)

  /**
    The status a reservation ends with when `update_status` is asked for
    `target`: a CANCELLED target goes through `cancel`, any other target
    is assigned directly, with no transition check.
  */
  function StatusAfterUpdate(current: Status, target: Status): (s: Status)
  {
    if target == Cancelled then AfterCancel(current) else target
  }

  /**
    Every status is reachable from every other by an update, except that
    CANCELLED is reachable only from PENDING; in particular a cancelled
    or completed reservation can be reopened.
  */
  lemma UpdateReachability(current: Status, target: Status)
    ensures StatusAfterUpdate(current, target) == target <==>
              target != Cancelled || current == Pending || current == Cancelled
    ensures StatusAfterUpdate(Cancelled, Pending) == Pending
    ensures StatusAfterUpdate(Completed, Confirmed) == Confirmed
  {
  }

  /**
    `update_status`: refuse a missing or unknown status value; answer
    "already set" when nothing changes; cancel through `cancel` (which
    reports failure); assign any other status directly.
  */
  method UpdateStatus(res: Reservation, newStatus: Option<string>) returns (r: Result<StatusUpdate, ApiError>)
    modifies res`status, res.accommodation`isAvailable
    ensures r == Failure(InvalidStatus) <==> newStatus.None? || ParseStatus(newStatus.value).None?
    ensures r.Failure? && r != Failure(InvalidStatus) ==> r == Failure(CancelFailed)
    ensures newStatus.None? || ParseStatus(newStatus.value).None? ==>
      res.status == old(res.status) && res.accommodation.isAvailable == old(res.accommodation.isAvailable)
    ensures newStatus.Some? && ParseStatus(newStatus.value).Some? ==>
      var target := ParseStatus(newStatus.value).value;
      && res.status == StatusAfterUpdate(old(res.status), target)
      && (r == Success(AlreadySet) <==> target == old(res.status))
      && (r == Failure(CancelFailed) <==> target == Cancelled && old(res.status) != Cancelled)
      && (r == Success(Updated(target)) <==> target != Cancelled && target != old(res.status))
      && res.accommodation.isAvailable ==
           (old(res.accommodation.isAvailable) || (target == Cancelled && old(res.status) == Pending))
    ensures res.accommodation.slots == old(res.accommodation.slots)
  {
    // `not new_status` also covers the empty string, which is not a status value.
    if newStatus.None? || ParseStatus(newStatus.value).None? {
      return Failure(InvalidStatus);
    }
    var target := ParseStatus(newStatus.value).value;
    var oldStatus := res.status;
    if oldStatus == target {
      return Success(AlreadySet);
    }
    if target == Cancelled && oldStatus != Cancelled {
      var ok := res.Cancel();
      if ok {
        // The success response; `cancel` never reports success.
        assert false;
      }
      return Failure(CancelFailed);
    }
    res.status := target;
    return Success(Updated(target));
  }

  /**
    `add_availability`: both dates are required; the new available slot
    is added, adjacent slots are merged, and the flag is set. The endpoint
    does not parse the dates itself: a date that does not parse makes the
    row creation raise, uncaught. `InvalidDate` stands for that exception;
    as with it, nothing has changed.
  */
  method AddAvailability(a: Accommodation, data: map<string, Value>) returns (r: Result<Slot, ApiError>)
    modifies a
    ensures r.Success? <==>
      ValidateRequiredFields(data, SlotFields).Success? && DateField(data, "start_date") && DateField(data, "end_date")
    ensures r.Success? ==>
      && r.value == Slot(data["start_date"].d, data["end_date"].d, true)
      && a.slots == MergeAll(old(a.slots) + [r.value])
      && a.isAvailable
    ensures r.Failure? ==> a.slots == old(a.slots) && a.isAvailable == old(a.isAvailable)
  {
    var check := ValidateRequiredFields(data, SlotFields);
    if check.Failure? {
      return Failure(MissingFields(check.error));
    }
    if !DateField(data, "start_date") {
      return Failure(InvalidDate("start_date"));
    }
    if !DateField(data, "end_date") {
      return Failure(InvalidDate("end_date"));
    }
    var slot := Slot(data["start_date"].d, data["end_date"].d, true);
    a.AddSlot(slot);
    a.MergeAdjacentSlots();
    if !a.isAvailable {
      a.isAvailable := true;
    }
    return Success(slot);
  }
}
