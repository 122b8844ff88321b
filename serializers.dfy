/**
  The reservation and rating validators. Both read state and return the
  first rule a request breaks, or `None` when it passes.
*/
module Serializers {
  import opened Wrappers
  import opened Slots
  import opened Accommodations
  import opened Reservations

  /** The fields of a reservation request the validator looks at; absent ones are `None`. */
  datatype ReservationData = ReservationData(
    accommodation: Option<Accommodation>,
    member: Option<int>,
    reservedFrom: Option<Day>,
    reservedTo: Option<Day>,
    status: Option<Status>)

  datatype ValidationError =
    | EndBeforeStart
    | StartInPast
    | OutsideAvailabilityPeriod
    | AlreadyReserved
    | RatingNotCompleted
    | AlreadyRated
    | RatingWithoutReservation

  /** All three of start, end and accommodation are given. */
  predicate Complete(data: ReservationData)
  {
    data.accommodation.Some? && data.reservedFrom.Some? && data.reservedTo.Some?
  }

  /**
    The overlap query: another active reservation of the same
    accommodation with `other.from < to` and `other.to > from`. The
    reservation being updated (`instance`) is excluded.
  */
  predicate Conflicts(b: Booking, accommodationId: int, from: Day, to: Day, instance: Option<int>)
  {
    b.accommodationId == accommodationId && IsActive(b.status)
    && b.reservedFrom < to && b.reservedTo > from
    && (instance.None? || b.id != instance.value)
  }

  predicate AnyConflict(existing: seq<Booking>, accommodationId: int, from: Day, to: Day, instance: Option<int>)
  {
    exists k :: 0 <= k < |existing| && Conflicts(existing[k], accommodationId, from, to, instance)
  }

  /** The request's dates lie in the accommodation's availability period. */
  predicate InsidePeriod(a: Accommodation, from: Day, to: Day)
  {
    a.availableFrom <= from && to <= a.availableTo
  }

  /**
    `ReservationSerializer.validate`. `instance` is the id of the
    reservation being updated, `None` on create; `existing` is the
    reservation table. When start, end or accommodation is missing
    nothing is checked; otherwise the request passes exactly when the end
    is not before the start, a new reservation does not start before
    `today`, the dates lie in the availability period and no other active
    reservation overlaps.
  */
  function ValidateReservation(data: ReservationData, instance: Option<int>, today: Day, existing: seq<Booking>)
    : (r: Option<ValidationError>)
    ensures !Complete(data) ==> r.None?
    ensures Complete(data) ==>
      var a, from, to := data.accommodation.value, data.reservedFrom.value, data.reservedTo.value;
      (r.None? <==> from <= to && (instance.Some? || today <= from) && InsidePeriod(a, from, to)
                    && !AnyConflict(existing, a.id, from, to, instance))
    ensures Complete(data) ==> (r == Some(EndBeforeStart) <==> data.reservedFrom.value > data.reservedTo.value)
    ensures r.Some? ==> r.value in {EndBeforeStart, StartInPast, OutsideAvailabilityPeriod, AlreadyReserved}
  {
    if !Complete(data) then None
    else
      var a, from, to := data.accommodation.value, data.reservedFrom.value, data.reservedTo.value;
      if from > to then Some(EndBeforeStart)
      else if instance.None? && from < today then Some(StartInPast)
      else if from < a.availableFrom || to > a.availableTo then Some(OutsideAvailabilityPeriod)
      else if AnyConflict(existing, a.id, from, to, instance) then Some(AlreadyReserved)
      else None
  }

  /**
    Strict comparisons on inclusive dates: a booking that ends on day `d`
    does not conflict with a request that starts on `d`, although both
    hold day `d`; and the same holds the other way round.
  */
  lemma SharedBoundaryDayIsNoConflict(b: Booking, accommodationId: int, from: Day, to: Day, instance: Option<int>)
    requires b.reservedTo == from || b.reservedFrom == to
    requires b.reservedFrom <= b.reservedTo && from <= to
    ensures !Conflicts(b, accommodationId, from, to, instance)
    ensures b.reservedFrom <= from <= b.reservedTo || b.reservedFrom <= to <= b.reservedTo
  {
  }

  /** Cancelled and completed reservations never conflict, and nor does the one being updated. */
  lemma InactiveOrSelfNeverConflicts(b: Booking, accommodationId: int, from: Day, to: Day, instance: Option<int>)
    requires !IsActive(b.status) || instance == Some(b.id)
    ensures !Conflicts(b, accommodationId, from, to, instance)
  {
  }

  /**
    Two active bookings that hold a common day in their interiors do
    conflict: the test misses only a shared first or last day.
  */
  lemma SharedInteriorDayConflicts(b: Booking, accommodationId: int, from: Day, to: Day, d: Day)
    requires b.accommodationId == accommodationId && IsActive(b.status)
    requires b.reservedFrom <= d < b.reservedTo && from <= d < to
    ensures Conflicts(b, accommodationId, from, to, None)
  {
  }

  /**
    Updates skip the past-start rule: an update is never refused for a
    start before today, and a request that passes on create also passes
    as an update, whether or not the reservation being updated is itself
    one of the `existing` bookings.
  */
  lemma UpdateSkipsPastCheck(data: ReservationData, id: int, today: Day, existing: seq<Booking>)
    ensures ValidateReservation(data, None, today, existing).None? ==> ValidateReservation(data, Some(id), today, existing).None?
    ensures ValidateReservation(data, Some(id), today, existing) != Some(StartInPast)
  {
    if Complete(data) {
      var a, from, to := data.accommodation.value, data.reservedFrom.value, data.reservedTo.value;
      if AnyConflict(existing, a.id, from, to, Some(id)) {
        var k :| 0 <= k < |existing| && Conflicts(existing[k], a.id, from, to, Some(id));
        assert Conflicts(existing[k], a.id, from, to, None);
      }
    }
  }

  /**
    `RatingSerializer.validate`: a reservation is required, it must be
    COMPLETED, and it must not be rated yet.
  */
  function ValidateRating(reservation: Option<Reservation>): (r: Option<ValidationError>)
    reads if reservation.Some? then {reservation.value} else {}
    ensures r.None? <==> reservation.Some? && CanBeRated(reservation.value.status, reservation.value.hasRating)
    ensures r == Some(RatingWithoutReservation) <==> reservation.None?
    ensures r == Some(RatingNotCompleted) <==> reservation.Some? && reservation.value.status != Completed
    ensures r == Some(AlreadyRated) <==> reservation.Some? && reservation.value.status == Completed && reservation.value.hasRating
  {
    if reservation.None? then Some(RatingWithoutReservation)
    else if reservation.value.status != Completed then Some(RatingNotCompleted)
    else if !CanBeRated(reservation.value.status, reservation.value.hasRating) then Some(AlreadyRated)
    else None
  }
}
