/**
  The slot splitter: carving a reservation's days out of the slot that
  covers them leaves at most two residual available slots, one before and
  one after the reservation. The reservation views then delete the
  original slot; `Carve` is that whole table update.
*/
module Splitter {
  import opened Wrappers
  import opened Slots

  /**
    `split_slot`: the residual slots around the reservation `from..to`.
    `before` is `start..from-1` when the reservation starts after the slot
    does, `after` is `to+1..end` when it ends before the slot does; both
    are available.
  */
  function Split(s: Slot, from: Day, to: Day): (r: (Option<Slot>, Option<Slot>))
    ensures r.0.Some? <==> s.start < from
    ensures r.0.Some? ==> r.0.value.isAvailable && r.0.value.start == s.start && r.0.value.end + 1 == from
    ensures r.1.Some? <==> to < s.end
    ensures r.1.Some? ==> r.1.value.isAvailable && r.1.value.start == to + 1 && r.1.value.end == s.end
  {
    (if from > s.start then Some(Slot(s.start, from - 1, true)) else None,
     if to < s.end then Some(Slot(to + 1, s.end, true)) else None)
  }

  /** The residual rows in the order the splitter creates them. */
  function Residuals(s: Slot, from: Day, to: Day): (res: seq<Slot>)
  {
    var (before, after) := Split(s, from, to);
    (if before.Some? then [before.value] else []) +
    (if after.Some? then [after.value] else [])
  }

  /** Split the slot at position `i` around `from..to`, then delete the original. */
  function Carve(slots: seq<Slot>, i: nat, from: Day, to: Day): (c: seq<Slot>)
    requires i < |slots|
  {
    Remove(slots + Residuals(slots[i], from, to), i)
  }

  /**
    The residuals and the reservation partition the slot: every day of the
    slot is in exactly one of `before`, `from..to` and `after`, both
    residuals are available, and their durations add up to the slot's.
  */
  lemma SplitPartition(s: Slot, from: Day, to: Day)
    requires Covers(s, from, to) && from <= to
    ensures var (before, after) := Split(s, from, to);
      && (before.Some? ==> before.value.isAvailable && WellFormed(before.value))
      && (after.Some? ==> after.value.isAvailable && WellFormed(after.value))
      && (forall d :: Contains(s, d) <==>
            (before.Some? && Contains(before.value, d)) ||
            from <= d <= to ||
            (after.Some? && Contains(after.value, d)))
      && (forall d :: before.Some? && Contains(before.value, d) ==> d < from)
      && (forall d :: after.Some? && Contains(after.value, d) ==> to < d)
      && (if before.Some? then DurationDays(before.value.start, before.value.end) else 0)
         + DurationDays(from, to)
         + (if after.Some? then DurationDays(after.value.start, after.value.end) else 0)
         == DurationDays(s.start, s.end)
  {
  }

  /** A reservation that starts on the slot's first day leaves no `before` slot, and vice versa. */
  lemma SplitBoundaries(s: Slot, from: Day, to: Day)
    requires Covers(s, from, to)
    ensures Split(s, from, to).0.None? <==> from == s.start
    ensures Split(s, from, to).1.None? <==> to == s.end
    ensures from == s.start && to == s.end ==> Residuals(s, from, to) == []
  {
  }

  /** The days that `Residuals` frees are exactly the slot's days outside `from..to`. */
  lemma ResidualDays(s: Slot, from: Day, to: Day, d: Day)
    requires Covers(s, from, to) && from <= to
    ensures (exists k :: 0 <= k < |Residuals(s, from, to)| && Contains(Residuals(s, from, to)[k], d))
            <==> Contains(s, d) && !(from <= d <= to)
    ensures forall k :: 0 <= k < |Residuals(s, from, to)| ==>
              Residuals(s, from, to)[k].isAvailable && WellFormed(Residuals(s, from, to)[k])
  {
    var res := Residuals(s, from, to);
    if Contains(s, d) && !(from <= d <= to) {
      if d < from {
        assert Contains(res[0], d);
      } else {
        assert Contains(res[|res| - 1], d);
      }
    }
  }

  /** Where each row of the carved table comes from: an old row other than `i`, or a residual. */
  lemma CarveRows(slots: seq<Slot>, i: nat, from: Day, to: Day)
    requires i < |slots|
    ensures var c, res, n := Carve(slots, i, from, to), Residuals(slots[i], from, to), |slots|;
      && |c| == n - 1 + |res|
      && (forall k :: 0 <= k < i ==> c[k] == slots[k])
      && (forall k :: i <= k < n - 1 ==> c[k] == slots[k + 1])
      && (forall k :: n - 1 <= k < |c| ==> c[k] == res[k - (n - 1)])
  {
  }

  /** Every residual is an available, well-formed part of the carved slot outside `from..to`. */
  lemma ResidualsInside(s: Slot, from: Day, to: Day)
    requires Covers(s, from, to) && from <= to
    ensures forall k :: 0 <= k < |Residuals(s, from, to)| ==>
              Residuals(s, from, to)[k].isAvailable && WellFormed(Residuals(s, from, to)[k])
    ensures forall k, d :: 0 <= k < |Residuals(s, from, to)| && Contains(Residuals(s, from, to)[k], d) ==>
              Contains(s, d) && !(from <= d <= to)
  {
    var (before, after) := Split(s, from, to);
    var res := Residuals(s, from, to);
    forall k, d | 0 <= k < |res| && Contains(res[k], d)
      ensures Contains(s, d) && !(from <= d <= to)
    {
      if before.Some? && k == 0 {
        assert res[k] == before.value;
      } else {
        assert after.Some? && res[k] == after.value;
      }
    }
  }

  /** A day free after carving was free before and lies outside `from..to`. */
  lemma CarvedFreeDayWasFree(slots: seq<Slot>, i: nat, from: Day, to: Day, d: Day)
    requires i < |slots| && Serves(slots[i], from, to) && from <= to && Disjoint(slots)
    requires IsFree(Carve(slots, i, from, to), d)
    ensures IsFree(slots, d) && !(from <= d <= to)
  {
    var res := Residuals(slots[i], from, to);
    var c := Carve(slots, i, from, to);
    var n := |slots|;
    CarveRows(slots, i, from, to);
    ResidualsInside(slots[i], from, to);
    var k :| 0 <= k < |c| && c[k].isAvailable && Contains(c[k], d);
    if k >= n - 1 {
      assert c[k] == res[k - (n - 1)];
      assert Contains(slots[i], d);
    } else {
      var o := if k < i then k else k + 1;
      assert c[k] == slots[o] && o != i;
      ShareDayWhenBothContain(slots[o], slots[i], d);
    }
  }

  /** A day free before carving and outside `from..to` stays free. */
  lemma FreeDayOutsideStaysFree(slots: seq<Slot>, i: nat, from: Day, to: Day, d: Day)
    requires i < |slots| && Serves(slots[i], from, to) && from <= to
    requires IsFree(slots, d) && !(from <= d <= to)
    ensures IsFree(Carve(slots, i, from, to), d)
  {
    var res := Residuals(slots[i], from, to);
    var c := Carve(slots, i, from, to);
    var n := |slots|;
    CarveRows(slots, i, from, to);
    var o :| 0 <= o < n && slots[o].isAvailable && Contains(slots[o], d);
    if o == i {
      ResidualDays(slots[i], from, to, d);
      var r :| 0 <= r < |res| && Contains(res[r], d);
      assert c[n - 1 + r] == res[r];
    } else {
      var k := if o < i then o else o - 1;
      assert c[k] == slots[o];
    }
  }

  /** One day's freeness after carving. */
  lemma CarveFreeDay(slots: seq<Slot>, i: nat, from: Day, to: Day, d: Day)
    requires i < |slots| && Serves(slots[i], from, to) && from <= to && Disjoint(slots)
    ensures IsFree(Carve(slots, i, from, to), d) <==> IsFree(slots, d) && !(from <= d <= to)
  {
    if IsFree(Carve(slots, i, from, to), d) {
      CarvedFreeDayWasFree(slots, i, from, to, d);
    }
    if IsFree(slots, d) && !(from <= d <= to) {
      FreeDayOutsideStaysFree(slots, i, from, to, d);
    }
  }

  /** Carving keeps the available slots pairwise disjoint. */
  lemma CarveDisjoint(slots: seq<Slot>, i: nat, from: Day, to: Day)
    requires i < |slots| && Serves(slots[i], from, to) && from <= to && Disjoint(slots)
    ensures Disjoint(Carve(slots, i, from, to))
  {
    var res := Residuals(slots[i], from, to);
    var c := Carve(slots, i, from, to);
    var n := |slots|;
    CarveRows(slots, i, from, to);
    ResidualsInside(slots[i], from, to);
    forall j, k | 0 <= j < |c| && 0 <= k < |c| && j != k && c[j].isAvailable && c[k].isAvailable
      ensures !ShareDay(c[j], c[k])
    {
      if j >= n - 1 && k >= n - 1 {
        // Two distinct residuals: one ends before `from`, the other starts after `to`.
        assert c[j] == res[j - (n - 1)] && c[k] == res[k - (n - 1)];
      } else if j >= n - 1 || k >= n - 1 {
        var r := if j >= n - 1 then j else k;
        var m := if j >= n - 1 then k else j;
        var o := if m < i then m else m + 1;
        assert c[r] == res[r - (n - 1)] && c[m] == slots[o] && o != i;
        ShareDayThroughContainment(c[r], slots[i], c[m]);
        assert !ShareDay(c[r], c[m]);
      } else {
        var oj := if j < i then j else j + 1;
        var ok := if k < i then k else k + 1;
        assert c[j] == slots[oj] && c[k] == slots[ok] && oj != ok;
      }
    }
  }

  /**
    Carving a reservation out of a disjoint ledger books exactly its days:
    afterwards a day is free iff it was free before and lies outside
    `from..to`, and the ledger stays disjoint and well formed.
  */
  lemma CarveBooksExactlyTheReservedDays(slots: seq<Slot>, i: nat, from: Day, to: Day)
    requires i < |slots| && Serves(slots[i], from, to) && from <= to
    requires Disjoint(slots) && AllWellFormed(slots)
    ensures forall d :: IsFree(Carve(slots, i, from, to), d) <==> IsFree(slots, d) && !(from <= d <= to)
    ensures Disjoint(Carve(slots, i, from, to))
    ensures AllWellFormed(Carve(slots, i, from, to))
  {
    forall d
      ensures IsFree(Carve(slots, i, from, to), d) <==> IsFree(slots, d) && !(from <= d <= to)
    {
      CarveFreeDay(slots, i, from, to, d);
    }
    CarveDisjoint(slots, i, from, to);
    CarveRows(slots, i, from, to);
    ResidualsInside(slots[i], from, to);
  }
}
