/**
  The slot ledger across a reservation's life: `create`/`reserve` carve
  the reserved days out of a covering slot, cancellation as the tests
  expect it gives them back, and `add_availability` adds new days.
*/
module Lifecycle {
  import opened Wrappers
  import opened Slots
  import opened Splitter
  import opened Merger
  import opened Accommodations
  import opened Reservations
  import opened Serializers
  import Views

  /** An available slot `m` shares no day with any available row of `c` when none of its days is free in `c`. */
  lemma BookedDaysShareNothing(c: seq<Slot>, o: nat, m: Slot)
    requires o < |c| && c[o].isAvailable
    requires forall d :: Contains(m, d) ==> !IsFree(c, d)
    ensures !ShareDay(c[o], m) && !ShareDay(m, c[o])
  {
    var d := if c[o].start <= m.start then m.start else c[o].start;
    assert ShareDay(c[o], m) ==> Contains(c[o], d) && Contains(m, d);
    assert ShareDay(m, c[o]) ==> Contains(c[o], d) && Contains(m, d);
    assert Contains(c[o], d) ==> IsFree(c, d);
  }

  /**
    Booking `from..to` out of a disjoint ledger and then giving those
    days back as an available slot, merged with its neighbours, frees
    exactly the days that were free before, and the ledger stays
    disjoint and well formed.
  */
  lemma CancelRestoresFreeDays(slots: seq<Slot>, i: nat, from: Day, to: Day)
    requires i < |slots| && Serves(slots[i], from, to) && from <= to
    requires Disjoint(slots) && AllWellFormed(slots)
    ensures var restored := MergeAll(Carve(slots, i, from, to) + [Slot(from, to, true)]);
      && (forall d :: IsFree(restored, d) <==> IsFree(slots, d))
      && Disjoint(restored) && AllWellFormed(restored)
  {
    var c := Carve(slots, i, from, to);
    var m := Slot(from, to, true);
    var u := c + [m];
    CarveBooksExactlyTheReservedDays(slots, i, from, to);
    forall k | 0 <= k < |u|
      ensures WellFormed(u[k])
    {
      if k < |c| {
        assert u[k] == c[k];
      }
    }
    forall d
      ensures IsFree(u, d) <==> IsFree(slots, d)
    {
      ServedDaysAreFree(slots, i, from, to, d);
      if IsFree(u, d) {
        var k :| 0 <= k < |u| && u[k].isAvailable && Contains(u[k], d);
        if k < |c| {
          assert u[k] == c[k];
        }
      }
      if IsFree(slots, d) {
        if from <= d <= to {
          assert u[|c|] == m;
        } else {
          var k :| 0 <= k < |c| && c[k].isAvailable && Contains(c[k], d);
          assert u[k] == c[k];
        }
      }
    }
    forall j, k | 0 <= j < |u| && 0 <= k < |u| && j != k && u[j].isAvailable && u[k].isAvailable
      ensures !ShareDay(u[j], u[k])
    {
      if j < |c| && k < |c| {
        assert u[j] == c[j] && u[k] == c[k];
      } else if j < |c| {
        assert u[j] == c[j] && u[k] == m;
        BookedDaysShareNothing(c, j, m);
      } else {
        assert u[k] == c[k] && u[j] == m;
        BookedDaysShareNothing(c, k, m);
      }
    }
    MergeAllKeepsFreeDays(u);
    MergeAllKeepsDisjoint(u);
  }

  /** A reservation strictly inside the slot: the restored row joins `before`, then `after`. */
  lemma RestoreInterior(s: Slot, from: Day, to: Day)
    requires Serves(s, from, to) && s.start < from <= to < s.end
    ensures MergeAll(Residuals(s, from, to) + [Slot(from, to, true)]) == [s]
  {
    var b, a, m := Slot(s.start, from - 1, true), Slot(to + 1, s.end, true), Slot(from, to, true);
    var l := [b, a, m];
    assert Residuals(s, from, to) + [m] == l;
    assert PairFrom(l, 0, 2) == Some((0, 2));
    assert PairFrom(l, 0, 0) == Some((0, 2));
    assert MergeAt(l, 0, 2) == [Slot(s.start, to, true), a];
    MergeTwoAdjacent(Slot(s.start, to, true), a);
  }

  /** A reservation that ends on the slot's last day: the restored row joins `before`. */
  lemma RestoreTail(s: Slot, from: Day, to: Day)
    requires Serves(s, from, to) && s.start < from <= to == s.end
    ensures MergeAll(Residuals(s, from, to) + [Slot(from, to, true)]) == [s]
  {
    var b, m := Slot(s.start, from - 1, true), Slot(from, to, true);
    assert Residuals(s, from, to) + [m] == [b, m];
    MergeTwoAdjacent(b, m);
  }

  /** A reservation that starts on the slot's first day: `after` joins the restored row. */
  lemma RestoreHead(s: Slot, from: Day, to: Day)
    requires Serves(s, from, to) && s.start == from <= to < s.end
    ensures MergeAll(Residuals(s, from, to) + [Slot(from, to, true)]) == [s]
  {
    var a, m := Slot(to + 1, s.end, true), Slot(from, to, true);
    var l := [a, m];
    assert Residuals(s, from, to) + [m] == l;
    assert PairFrom(l, 1, 0) == Some((1, 0));
    assert PairFrom(l, 0, 1) == PairFrom(l, 1, 0);
    assert PairFrom(l, 0, 0) == Some((1, 0));
    assert MergeAt(l, 1, 0) == [s];
    MergeWithoutPairsIsIdentity([s]);
  }

  /**
    The slot tests' scenario in general: carving `from..to` out of a
    single available slot and giving it back restores that one slot.
  */
  lemma CarveThenRestoreSingleSlot(s: Slot, from: Day, to: Day)
    requires Serves(s, from, to) && from <= to
    ensures MergeAll(Carve([s], 0, from, to) + [Slot(from, to, true)]) == [s]
  {
    assert Carve([s], 0, from, to) == Residuals(s, from, to);
    if from > s.start && to < s.end {
      RestoreInterior(s, from, to);
    } else if from > s.start {
      RestoreTail(s, from, to);
    } else if to < s.end {
      RestoreHead(s, from, to);
    } else {
      assert Residuals(s, from, to) + [Slot(from, to, true)] == [s];
      MergeWithoutPairsIsIdentity([s]);
    }
  }

  /**
    The same scenario with `cancel` as written, which leaves the slot
    table alone: a 30-day slot with days 10..19 reserved keeps its two
    residual slots, so the table holds neither the one merged slot nor
    the three slots the cancellation test accepts, and days 10..19 stay
    booked.
  */
  lemma AsWrittenCancelKeepsTheCarvedLedger()
    ensures var carved := Carve([Slot(0, 29, true)], 0, 10, 19);
      && carved == [Slot(0, 9, true), Slot(20, 29, true)]
      && |carved| != 1 && |carved| != 3
      && forall d :: 10 <= d <= 19 ==> !IsFree(carved, d)
    ensures MergeAll(Carve([Slot(0, 29, true)], 0, 10, 19) + [Slot(10, 19, true)]) == [Slot(0, 29, true)]
  {
    var s := Slot(0, 29, true);
    var carved := Carve([s], 0, 10, 19);
    assert Residuals(s, 10, 19) == [Slot(0, 9, true), Slot(20, 29, true)];
    assert [s] + Residuals(s, 10, 19) == [s, Slot(0, 9, true), Slot(20, 29, true)];
    assert carved == [Slot(0, 9, true), Slot(20, 29, true)];
    forall d | 10 <= d <= 19
      ensures !IsFree(carved, d)
    {
      assert !Contains(carved[0], d) && !Contains(carved[1], d);
    }
    CarveThenRestoreSingleSlot(s, 10, 19);
  }

  /**
    The cancellation test's scenario run through the objects: a slot of
    days 0..29, days 10..19 carved out for a PENDING reservation as the
    reservation views do, then the cancel endpoint as written. It answers
    "failed", the reservation is nevertheless CANCELLED, and the table
    keeps the two residual rows with days 10..19 still booked.
  */
  method AsWrittenCancelScenario() returns (r: Result<(), Views.ApiError>, status: Status, slots: seq<Slot>)
    ensures r == Failure(Views.CancelFailed) && status == Cancelled
    ensures slots == [Slot(0, 9, true), Slot(20, 29, true)]
    ensures |slots| != 1 && |slots| != 3
    ensures forall d :: 10 <= d <= 19 ==> !IsFree(slots, d)
  {
    var a := new Accommodation(1, 0, 29, 1, {}, [Slot(0, 29, true)]);
    assert FirstServing(a.slots, 10, 19) == Some(0);
    var before, after := a.SplitSlot(0, 10, 19);
    a.DeleteSlot(0);
    var res := new Reservation(1, a, 1, 10, 19, None);
    r := Views.CancelReservation(res);
    status := res.status;
    slots := a.slots;
    AsWrittenCancelKeepsTheCarvedLedger();
  }

  /**
    `add_availability` does not check the new slot against the existing
    ones, so the ledger can hold overlapping available slots: adding days
    5..15 to a slot of days 0..9 keeps both rows (they are not
    day-adjacent). Carving a reservation of days 5..9 out of the first
    covering row then leaves day 9 free in the second, and a request for
    days 9..12 finds a covering slot and, sharing only its first day with
    the booking, passes the conflict test: day 9 is booked twice.
  */
  lemma OverlappingSlotLeavesCarvedDayFree(accommodationId: int)
    ensures var added := MergeAll([Slot(0, 9, true)] + [Slot(5, 15, true)]);
      && added == [Slot(0, 9, true), Slot(5, 15, true)]
      && !Disjoint(added)
      && FirstServing(added, 5, 9) == Some(0)
      && Carve(added, 0, 5, 9) == [Slot(5, 15, true), Slot(0, 4, true)]
      && IsFree(Carve(added, 0, 5, 9), 9)
      && FirstServing(Carve(added, 0, 5, 9), 9, 12) == Some(0)
    ensures !Conflicts(Booking(1, accommodationId, 5, 9, Pending), accommodationId, 9, 12, None)
  {
    var l := [Slot(0, 9, true), Slot(5, 15, true)];
    assert [Slot(0, 9, true)] + [Slot(5, 15, true)] == l;
    MergeLeavesNonAdjacent(l[0], l[1]);
    assert ShareDay(l[0], l[1]);
    assert Residuals(l[0], 5, 9) == [Slot(0, 4, true)];
    var c := Carve(l, 0, 5, 9);
    assert l + [Slot(0, 4, true)] == [Slot(0, 9, true), Slot(5, 15, true), Slot(0, 4, true)];
    assert c == [Slot(5, 15, true), Slot(0, 4, true)];
    assert c[0].isAvailable && Contains(c[0], 9);
  }

  /**
    `add_availability` does not check `start <= end` either. An inverted
    slot 5..3 ends the day before 4..9 starts, so the merger treats the
    two as adjacent: it widens the inverted row to 5..9 and deletes 4..9,
    and day 4, free before, is free no longer. Scanned in start order the
    two rows would not be adjacent and both would be kept.
  */
  lemma InvertedSlotDropsAFreeDay()
    ensures var merged := MergeAll([Slot(4, 9, true)] + [Slot(5, 3, true)]);
      && merged == [Slot(5, 9, true)]
      && IsFree([Slot(4, 9, true)], 4)
      && !IsFree(merged, 4)
  {
    var l := [Slot(4, 9, true), Slot(5, 3, true)];
    assert [Slot(4, 9, true)] + [Slot(5, 3, true)] == l;
    assert PairFrom(l, 1, 0) == Some((1, 0));
    assert PairFrom(l, 0, 2) == PairFrom(l, 1, 0);
    assert PairFrom(l, 0, 0) == Some((1, 0));
    assert MergeAt(l, 1, 0) == [Slot(5, 9, true)];
    MergeWithoutPairsIsIdentity([Slot(5, 9, true)]);
    assert Contains(Slot(4, 9, true), 4);
  }

  /**
    An inverted row is invisible to `Disjoint`, so a ledger holding 0..20
    and the row 5..3 that `add_availability` accepts counts as disjoint.
    Carving 2..3 out of 0..20 and giving it back, as the corrected cancel
    does, lets the merger join 5..3 with the residual 4..20 into 5..20:
    day 4, free before, is lost.
  */
  lemma InvertedSlotSpoilsTheRestore()
    ensures var slots := [Slot(0, 20, true), Slot(5, 3, true)];
      && Disjoint(slots) && !AllWellFormed(slots) && IsFree(slots, 4)
      && MergeAll(Carve(slots, 0, 2, 3) + [Slot(2, 3, true)]) == [Slot(5, 20, true), Slot(0, 3, true)]
      && !IsFree(MergeAll(Carve(slots, 0, 2, 3) + [Slot(2, 3, true)]), 4)
  {
    var slots := [Slot(0, 20, true), Slot(5, 3, true)];
    assert !ShareDay(slots[0], slots[1]) && !ShareDay(slots[1], slots[0]);
    assert Contains(slots[0], 4);
    var b, c, d, e := Slot(5, 3, true), Slot(0, 1, true), Slot(4, 20, true), Slot(2, 3, true);
    assert Residuals(slots[0], 2, 3) == [c, d];
    assert slots + [c, d] == [slots[0], b, c, d];
    assert Carve(slots, 0, 2, 3) == [b, c, d];
    var l := [b, c, d, e];
    assert Carve(slots, 0, 2, 3) + [e] == l;
    // First scan: row 0 (5..3) ends the day before row 2 (4..20) starts.
    assert PairFrom(l, 0, 2) == Some((0, 2));
    assert PairFrom(l, 0, 1) == PairFrom(l, 0, 2);
    assert PairFrom(l, 0, 0) == Some((0, 2));
    var l2 := [Slot(5, 20, true), c, e];
    assert MergeAt(l, 0, 2) == l2;
    // Second scan: 0..1 ends the day before 2..3 starts.
    assert PairFrom(l2, 1, 2) == Some((1, 2));
    assert PairFrom(l2, 1, 1) == PairFrom(l2, 1, 2);
    assert PairFrom(l2, 1, 0) == PairFrom(l2, 1, 1);
    assert PairFrom(l2, 0, 3) == PairFrom(l2, 1, 0);
    assert PairFrom(l2, 0, 2) == PairFrom(l2, 0, 3);
    assert PairFrom(l2, 0, 1) == PairFrom(l2, 0, 2);
    assert PairFrom(l2, 0, 0) == Some((1, 2));
    var l3 := [Slot(5, 20, true), Slot(0, 3, true)];
    assert MergeAt(l2, 1, 2) == l3;
    MergeLeavesNonAdjacent(l3[0], l3[1]);
    assert MergeAll(l) == l3;
    assert !Contains(l3[0], 4) && !Contains(l3[1], 4);
  }

  /**
    Once `from..to` is carved out, no slot serves a range holding any of
    its days, so `is_available_for_dates` refuses every such request,
    including one that only shares the first or last day, which the
    reservation validator's strict overlap test lets through.
  */
  lemma CarvedDaysCannotBeServed(slots: seq<Slot>, i: nat, from: Day, to: Day, qFrom: Day, qTo: Day, d: Day)
    requires i < |slots| && Serves(slots[i], from, to) && from <= to
    requires Disjoint(slots) && AllWellFormed(slots)
    requires from <= d <= to && qFrom <= d <= qTo
    ensures FirstServing(Carve(slots, i, from, to), qFrom, qTo).None?
  {
    var c := Carve(slots, i, from, to);
    CarveBooksExactlyTheReservedDays(slots, i, from, to);
    forall k | 0 <= k < |c|
      ensures !Serves(c[k], qFrom, qTo)
    {
      ServedDaysAreFree(c, k, qFrom, qTo, d);
    }
  }

  /**
    `add_availability` on a well-formed table: afterwards a day is free
    iff it was free before or lies in the new range, an available slot
    exists (so the flag it sets agrees with `update_availability_status`),
    and the unavailable rows are exactly the old ones.
  */
  lemma AddedSlotFreesItsDays(slots: seq<Slot>, start: Day, end: Day)
    requires AllWellFormed(slots) && start <= end
    ensures var r := MergeAll(slots + [Slot(start, end, true)]);
      && (forall d :: IsFree(r, d) <==> IsFree(slots, d) || start <= d <= end)
      && HasAvailableSlot(r)
      && AllWellFormed(r)
      && (forall x: Slot :: !x.isAvailable ==> (x in r <==> x in slots))
  {
    var n := Slot(start, end, true);
    var u := slots + [n];
    forall k | 0 <= k < |u|
      ensures WellFormed(u[k])
    {
      if k < |slots| {
        assert u[k] == slots[k];
      }
    }
    forall d
      ensures IsFree(u, d) <==> IsFree(slots, d) || start <= d <= end
    {
      if IsFree(u, d) {
        var k :| 0 <= k < |u| && u[k].isAvailable && Contains(u[k], d);
        if k < |slots| {
          assert u[k] == slots[k];
        }
      }
      if IsFree(slots, d) {
        var k :| 0 <= k < |slots| && slots[k].isAvailable && Contains(slots[k], d);
        assert u[k] == slots[k];
      }
      if start <= d <= end {
        assert u[|slots|] == n;
      }
    }
    assert u[|slots|] == n;
    forall x: Slot | !x.isAvailable
      ensures x in u <==> x in slots
    {
      assert x in u <==> x in slots || x == n;
    }
    MergeAllKeepsFreeDays(u);
    MergeAllKeepsAvailability(u);
    MergeAllKeepsUnavailableSlots(u);
  }
}
