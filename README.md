# UniHaven reservation and availability bookkeeping, in Dafny

UniHaven lets members of a university reserve accommodations. For one
accommodation the bookkeeping consists of three things:

- **Availability slots.** Each is an inclusive range of days, flagged available or not.
- **Reservations.** Each has a four-valued status: PENDING, CONFIRMED, CANCELLED or COMPLETED.
- **The `is_available` flag**, derived from whether any available slot exists.

This project models that bookkeeping and proves properties of it. Dates are
integer day numbers, and "today" is a parameter.

## Modules

- **`Slots`** (`slots.dfy`). The slot value, the ledger invariant and the covering-slot lookup.
  - The invariant is that available slots hold pairwise distinct days. `add_availability` does not maintain it, so the proofs that rely on it take it as a precondition (see "Left out").
  - The lookup is the `filter(...).first()` query of the reservation views.
- **`Splitter`** (`splitter.dfy`). `split_slot`, and `Carve`: split a slot and then delete it.
  - The main proof: on a ledger that holds the invariant, carving books exactly the reserved days and keeps the invariant.
- **`Merger`** (`merger.dfy`). The adjacent-slot merger, written as a function that rescans until nothing is left to merge.
  - Proved: it frees the same days, keeps the invariant and terminates.
- **`Accommodations`** (`accommodation.dfy`). The `Accommodation` class. Its slot table and its flag are fields that the methods update in place.
  - `MergeAdjacentSlots` is a loop, proved equal to the merger function.
  - `FindAdjacentPair` is a nested scan, proved equal to the scan function.
- **`Reservations`** (`reservations.dfy`). The status state machine, and the `Reservation` class with its `cancel`.
  - The class has both the `cancel` as written and the `cancel` the callers and tests expect.
- **`Serializers`** (`serializers.dfy`). The reservation and rating validators.
- **`Utils`** (`utils.dfy`). `validate_required_fields`.
- **`Views`** (`views.dfy`). The `create`, `reserve`, `cancel`, `update_status` and `add_availability` endpoints, as methods over the classes.
- **`Admin`** (`admin.dfy`). The `duration_days` column and the two bulk actions.
- **`Lifecycle`** (`lifecycle.dfy`). Properties across several calls: reserve then cancel, and add availability.

### Where the slot behaviour comes from

`unihaven/core/models.py` does not define any of these:

- `AvailabilitySlot`;
- `min_reservation_days`;
- `split_slot`, `merge_adjacent_slots`, `is_available_for_dates`, `update_availability_status`.

Their behaviour comes from the slot tests in
`unihaven/core/test_models.py:383-720`, and from how the views use them.
Those are the lines the table cites.

The merger merges any two day-adjacent available rows (the later is deleted
and the earlier widened) and rescans. When the available slots are well
formed (start on or before end) and do not overlap, this yields the same
slots as merging consecutive slots in start order.

## Model

| member | source | states |
|---|---|---|
| `Slots.DurationDaysCountsDays` | unihaven/core/test_models.py:428-441 | `duration_days` of `start..end` is the number of days in the range, both ends included (a 31-day slot lasts 31) |
| `Slots.FirstServing` | unihaven/core/views.py:228-233 | the first row that is available with `start <= from` and `end >= to`; `None` exactly when no row covers the range |
| `Splitter.Split` | unihaven/core/test_models.py:443-517 | `before` exists iff the reservation starts after the slot's first day, and then runs from that first day to the day before the reservation; `after` exists iff the reservation ends before the slot's last day, and then runs from the day after the reservation to that last day; both are available |
| `Splitter.SplitPartition` | unihaven/core/test_models.py:443-471 | `before` is `start..from-1` and `after` is `to+1..end`, both available; together with the reservation they partition the slot's days, and the durations add up |
| `Splitter.SplitBoundaries` | unihaven/core/test_models.py:473-517 | there is no `before` slot exactly when the reservation starts on the slot's first day, and no `after` slot exactly when it ends on the last |
| `Splitter.CarveBooksExactlyTheReservedDays` | unihaven/core/views.py:412-430 | on a ledger whose available slots are pairwise disjoint and whose rows all have start <= end: after split and delete, a day is free iff it was free before and lies outside the reservation; the ledger stays disjoint and well formed |
| `Merger.MergeAll` | unihaven/core/test_models.py:519-586 | the merged table has no two day-adjacent available rows, and has no more rows than before |
| `Merger.MergeAllKeepsFreeDays` | unihaven/core/views.py:344-352 | on a table whose rows all have start <= end: merging frees exactly the days that were free before, and keeps every row well formed |
| `Merger.MergeAllKeepsDisjoint` | unihaven/core/views.py:344-352 | on a table whose rows all have start <= end: merging keeps available slots pairwise disjoint |
| `Merger.MergeAllKeepsUnavailableSlots` | unihaven/core/views.py:344-352 | merging neither removes nor creates a slot flagged unavailable |
| `Merger.MergeAllKeepsAvailability` | unihaven/core/views.py:352-357 | an available slot exists after merging iff one existed before |
| `Merger.MergeTwoAdjacent` | unihaven/core/test_models.py:519-545 | two available slots, the first ending the day before the second starts, become the single slot `[first.start, second.end]` |
| `Merger.MergeLeavesNonAdjacent` | unihaven/core/test_models.py:547-586 | two slots that are not day-adjacent, overlapping ones included, both survive with their dates |
| `Accommodations.Accommodation.constructor` | unihaven/core/models.py:167-176 | a new accommodation has the given period and slots, and its flag is true |
| `Accommodations.Accommodation.IsAvailableForDates` | unihaven/core/test_models.py:588-630 | true iff some available slot covers `from..to` and the stay lasts at least `min_reservation_days` days |
| `Accommodations.AvailableForDatesCases` | unihaven/core/test_models.py:588-630 | the test's cases: inside the slot it is available; outside or partly outside it is not; with a minimum of 5 days, 3 days are refused and 5 accepted |
| `Accommodations.Accommodation.AddSlot` | unihaven/core/test_models.py:428-440 | creating a slot appends it to the table |
| `Accommodations.Accommodation.SplitSlot` | unihaven/core/test_models.py:443-517 | returns the residual pair of `Split` and appends exactly those residuals |
| `Accommodations.Accommodation.DeleteSlot` | unihaven/core/views.py:242-243 | the table loses that row and nothing else |
| `Accommodations.Accommodation.FindAdjacentPair` | unihaven/core/test_models.py:519-545 | the nested scan returns the first adjacent pair; `None` iff no two rows are adjacent |
| `Accommodations.Accommodation.MergeAdjacentSlots` | unihaven/core/test_models.py:519-586 | the rescanning loop leaves the table equal to `MergeAll` of the old table |
| `Accommodations.Accommodation.UpdateAvailabilityStatus` | unihaven/core/test_models.py:632-656 | the flag becomes true iff at least one available slot exists, so it is false with no slots at all |
| `Reservations.ParseStatus` | unihaven/core/views.py:494-497 | a string is accepted iff it is the stored value of one of the four choices, and then names that choice |
| `Reservations.ParseStatusName` | unihaven/core/models.py:211-216 | every choice's stored value parses back to that choice |
| `Reservations.CanBeCancelled` | unihaven/core/models.py:230-231 | true iff the stored status value is `PENDING` |
| `Reservations.CanBeRated` | unihaven/core/models.py:227-228 | true iff the stored status value is `COMPLETED` and no rating refers to the reservation |
| `Reservations.CancelIsIdempotent` | unihaven/core/models.py:227-236 | cancelling twice equals cancelling once; afterwards nothing can be cancelled; a cancellable reservation is never ratable |
| `Reservations.Reservation.constructor` | unihaven/core/models.py:217-223 | a new reservation keeps its dates, accommodation and member; its status defaults to PENDING; it has no rating |
| `Reservations.Reservation.Cancel` | unihaven/core/models.py:233-239 | PENDING becomes CANCELLED and the accommodation flag becomes true; any other status leaves both unchanged; the slot table is untouched; the result is false on every path |
| `Reservations.Reservation.CancelAndRestore` | unihaven/core/test_api.py:680-699 | succeeds iff the reservation was PENDING; then the reserved days come back as an available slot, merged with its neighbours, and the flag is true; otherwise nothing changes |
| `Serializers.ValidateReservation` | unihaven/core/serializers.py:136-156 | with start, end or accommodation missing, nothing is checked; otherwise it passes iff `from <= to`, a create does not start before today, the dates lie in the availability period, and no other active reservation overlaps; `from > to` is reported first |
| `Serializers.SharedBoundaryDayIsNoConflict` | unihaven/core/serializers.py:148-153 | a booking that ends on the day a request starts (or starts on the day it ends) is not a conflict, although both hold that day |
| `Serializers.InactiveOrSelfNeverConflicts` | unihaven/core/serializers.py:148-153 | CANCELLED and COMPLETED reservations, and the reservation being updated, never conflict |
| `Serializers.SharedInteriorDayConflicts` | unihaven/core/serializers.py:148-155 | two active bookings of one accommodation that share a day other than a boundary day do conflict |
| `Serializers.UpdateSkipsPastCheck` | unihaven/core/serializers.py:144-145 | an update is never refused for starting in the past; a request that passes on create also passes as an update, for any table of existing bookings, including one that holds the reservation being updated |
| `Serializers.ValidateRating` | unihaven/core/serializers.py:165-174 | passes iff a reservation is given, it is COMPLETED and it has no rating; each failing case gets its own error |
| `Utils.MissingFieldsAreTheMissingOnes` | unihaven/core/utils.py:79 | a field is listed iff it was asked for and is absent or falsy |
| `Utils.MissingFieldsKeepsOrder` | unihaven/core/utils.py:79-81 | the missing fields come in the order they were asked for |
| `Utils.MissingMessage` | unihaven/core/utils.py:81 | the error message starts with `Missing required field(s): ` |
| `Utils.ValidateRequiredFields` | unihaven/core/utils.py:78-81 | fails iff some listed field is missing, with the message naming the missing fields |
| `Utils.NothingMissingPasses` | unihaven/core/utils.py:78-81 | an empty field list, or all fields present and truthy, never fails |
| `Utils.EmptyValueIsMissing` | unihaven/core/utils.py:79 | a present key holding an empty string fails, naming that field |
| `Views.CreateReservation` | unihaven/core/views.py:394-450 | succeeds iff the request is complete, validates and `is_available_for_dates` holds. On success the first covering slot is carved out and a reservation with the requested dates is created, and the flag is cleared when no available slot remains (never set). On failure nothing changes |
| `Views.Reserve` | unihaven/core/views.py:170-266 | refuses when the flag is false, a field is missing, the member is unknown or not from a linked university, a date does not parse, the dates are unavailable or validation fails, and then nothing changes. On success it carves the first covering slot, creates a PENDING reservation and recomputes the flag |
| `Views.CancelReservation` | unihaven/core/views.py:452-489 | always answers with an error: "already cancelled" for CANCELLED, "cannot be cancelled" for CONFIRMED or COMPLETED, and "failed" for PENDING, which is nevertheless cancelled and sets the flag |
| `Views.CancelReservationRestoring` | unihaven/core/test_api.py:680-716 | succeeds iff the reservation was PENDING, and then restores and merges its days and sets the flag; refuses CANCELLED, CONFIRMED and COMPLETED without changing anything |
| `Views.UpdateReachability` | unihaven/core/views.py:525-528 | no transition check: the target is reached unless it is CANCELLED from CONFIRMED or COMPLETED; CANCELLED to PENDING is accepted |
| `Views.UpdateStatus` | unihaven/core/views.py:491-544 | refuses a missing or unknown value and changes nothing; answers "already set" iff the requested status equals the current one. Cancelling goes through `cancel` and reports failure; any other target is assigned. Slots are never touched |
| `Views.AddAvailability` | unihaven/core/views.py:330-362 | with both dates given, the table becomes the merge of the old table plus the new available slot, and the flag is true; otherwise nothing changes |
| `Admin.SlotDuration` | unihaven/core/admin.py:73-74 | the column counts the slot's days, both ends included, so a one-day slot lasts 1 |
| `Admin.MarkAsCancelled` | unihaven/core/admin.py:90-95 | every selected PENDING reservation becomes CANCELLED and sets its accommodation's flag; every other reservation and flag is unchanged; no selected reservation is left PENDING |
| `Admin.MarkAsCancelledTwice` | unihaven/core/admin.py:90-95 | running the action twice has exactly the effect of running it once |
| `Admin.MarkAsCompleted` | unihaven/core/admin.py:97-100 | every selected reservation becomes COMPLETED, whatever its status, CANCELLED included |
| `Lifecycle.CancelRestoresFreeDays` | unihaven/core/test_api.py:680-699 | on a ledger whose available slots are pairwise disjoint and whose rows all have start <= end: reserving days and then giving them back, merged, frees exactly the days free before, and keeps the ledger disjoint and well formed |
| `Lifecycle.CarveThenRestoreSingleSlot` | unihaven/core/test_models.py:658-720 | carving a reservation out of one slot and restoring it gives back exactly that slot |
| `Lifecycle.AsWrittenCancelKeepsTheCarvedLedger` | unihaven/core/test_models.py:658-720 | with `cancel` as written, the slot test's table after cancelling still has the 2 residual slots (neither 1 nor 3), and days 10..19 stay booked |
| `Lifecycle.CarvedDaysCannotBeServed` | unihaven/core/views.py:405-421 | on a ledger whose available slots are pairwise disjoint and whose rows all have start <= end: once a reservation is carved out, no slot covers any range holding one of its days, including a range that only shares a boundary day and so passes the validator |
| `Lifecycle.AsWrittenCancelScenario` | unihaven/core/test_models.py:658-720 | the slot test's scenario through the objects: after carving days 10..19 out of a 0..29 slot and calling the cancel endpoint, the answer is "failed", the reservation is CANCELLED, and the table still holds the 2 residual rows with days 10..19 booked |
| `Lifecycle.InvertedSlotDropsAFreeDay` | unihaven/core/views.py:344-352 | adding the inverted slot 5..3 to a table holding 4..9 and merging leaves the single row 5..9, so day 4, free before, is no longer free |
| `Lifecycle.InvertedSlotSpoilsTheRestore` | unihaven/core/views.py:344-352 | the ledger of 0..20 and an added 5..3 counts as disjoint; carving 2..3 and giving it back merged yields 5..20 and 0..3, so day 4, free before, is lost |
| `Lifecycle.OverlappingSlotLeavesCarvedDayFree` | unihaven/core/views.py:344-352 | adding days 5..15 to a slot of days 0..9 keeps two overlapping available rows; carving days 5..9 then leaves day 9 free, and a request for 9..12 both finds a covering slot and passes the conflict test |
| `Lifecycle.AddedSlotFreesItsDays` | unihaven/core/views.py:344-357 | on a table of rows with start <= end, adding a range with start <= end and merging: a day is free iff it was free before or lies in the new range; an available slot exists; the unavailable rows are unchanged |

## Left out

- Distance computations, rating averages, address lookup and e-mail notifications. These are floating point, HTTP and I/O.
- `ActionLog` writes, authentication, permissions, URL routing, pagination and response bodies. These are framework glue.
- HTTP status codes. Errors are values of `ApiError` and `ValidationError`, not strings.
- Transactions and concurrent requests. The model covers single sequential calls only.
- Dates. They are integer day numbers.
  - A `Date` value of `Utils.Value` stands for a `YYYY-MM-DD` string that parses or a date object.
  - Any other value counts as a string that does not parse. Date parsing itself is not modelled.
- Member ids. Only a `Number` value is looked up as a member id. A numeric string, which the framework would also accept, is not modelled.
- The reservation table seen by the validators. It is a `seq<Booking>` parameter. The model does not keep that table in step with the `Reservation` objects the endpoints create.
- Rating creation. Nothing in the model sets `hasRating`; only the validator and `can_be_rated` read it.
- Contact fields, timestamps, and the other descriptive fields of accommodations and reservations.
- `Slots.FirstServing`: `.first()` is taken in row order, which assumes `AvailabilitySlot` (not part of this model) declares no other default ordering. On a disjoint ledger of well-formed rows at most one row serves a range with from <= to, so the order matters only once rows overlap (`Lifecycle.OverlappingSlotLeavesCarvedDayFree`).
- Other accommodations' slots. Each accommodation owns its slot table as a sequence field.
- `is_cancelled`. The cancel endpoint calls it, but `unihaven/core/models.py` does not define it. It is modelled as `status == CANCELLED`.
- `Views.CreateReservation`: the framework's own field validation (missing fields, unknown member) is one `FieldRequired` error.
- `Views.AddAvailability`: like the source, it checks neither `start <= end` nor whether the new slot overlaps an available slot. `Lifecycle.OverlappingSlotLeavesCarvedDayFree` shows an overlap it lets in, and `Lifecycle.InvertedSlotDropsAFreeDay` an inverted slot.
- `Merger.MergeAllKeepsFreeDays`: proved only for tables whose rows all have start <= end. With an inverted row the merge can drop a free day: `Lifecycle.InvertedSlotDropsAFreeDay` merges 4..9 with an added 5..3 into the single row 5..9, so day 4 is no longer free.
- `Lifecycle.AddedSlotFreesItsDays`: proved only when the table's rows and the added range have start <= end. `add_availability` accepts an inverted range, and the merge that follows can then drop a free day (`Lifecycle.InvertedSlotDropsAFreeDay`).
- `Views.CreateReservation`: like `create` in views.py:394-450, it does not check that the member belongs to a university linked to the accommodation, which `reserve` does check. A refusal from such a check elsewhere (the permission layer) is not part of this model.
- `Views.UpdateStatus`: its CANCELLED path calls `cancel` as written and reports failure. There is no corrected update; `Views.CancelReservationRestoring` is the corrected cancel.
- `Splitter.CarveBooksExactlyTheReservedDays`: proved only for a ledger whose available slots are pairwise disjoint and whose rows all have start <= end. `add_availability` can break both. With an overlap, and then a carved day can stay free in an overlapping row (`Lifecycle.OverlappingSlotLeavesCarvedDayFree`).
- `Lifecycle.CancelRestoresFreeDays`: proved only for a ledger whose available slots are pairwise disjoint and whose rows all have start <= end. An inverted row does not count against disjointness, and `add_availability` accepts one. Restoring the reserved days can then drop a free day: `Lifecycle.InvertedSlotSpoilsTheRestore` carves 2..3 out of 0..20 beside the row 5..3, gives it back, and day 4 is no longer free.
- `Lifecycle.CarvedDaysCannotBeServed`: proved only for a ledger whose available slots are pairwise disjoint and whose rows all have start <= end. After an overlapping `add_availability`, a range that shares only a boundary day with a booking can still be served and passes the validator, so that day is booked twice.
- `Merger.MergeAll`: merges any two adjacent available rows in row order, not consecutive slots sorted by start date.
  - The two orders give the same slots when the available slots are well formed and not overlapping.
  - Carving and merging keep a ledger free of overlaps (`CarveBooksExactlyTheReservedDays`, `MergeAllKeepsDisjoint`), but `add_availability` can introduce one.
  - With overlapping available slots, or with a slot whose start is after its end, the result can differ (`Lifecycle.InvertedSlotDropsAFreeDay`).

## Findings

| source | as written | input that shows it | evidently intended | confidence | as-written member | corrected member |
|---|---|---|---|---|---|---|
| unihaven/core/models.py:233-239 | `cancel` cancels a PENDING reservation but returns false on every path, and it adds no slot back | a PENDING reservation of days 10..19 carved from a slot of days 0..29: after `cancel` the status is CANCELLED, the result is false, and the table is still `[0..9]`, `[20..29]` | return true, and restore the reserved days as an available slot merged with its neighbours, as test_models.py:658-720 and test_api.py:692-699 expect | not executed | `Lifecycle.AsWrittenCancelScenario` | `Lifecycle.CancelRestoresFreeDays` |
| unihaven/core/views.py:452-489 | because `cancel` returns false, the cancel endpoint answers "Failed to cancel reservation" after the reservation was cancelled | the cancel endpoint on any PENDING reservation | answer success, with the reserved days restored, as test_api.py:680-699 expects | not executed | `Views.CancelReservation` | `Views.CancelReservationRestoring` |
