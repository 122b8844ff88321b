/**
  The slot merger (`merge_adjacent_slots`): while two available slots of the
  accommodation are day-adjacent (one ends the day before the other
  starts), the earlier one is widened to span both and the later one is
  deleted; then the scan starts over. Overlapping slots are not adjacent
  and are left as they are.
*/
module Merger {
  import opened Wrappers
  import opened Slots

  /** `a` ends exactly one day before `b` starts, and both are available. */
  predicate Adjacent(a: Slot, b: Slot)
  {
    a.isAvailable && b.isAvailable && a.end + 1 == b.start
  }

  /** The merger's stopping condition: no two rows are adjacent. */
  predicate NoAdjacentPair(slots: seq<Slot>)
  {
    forall j, k :: 0 <= j < |slots| && 0 <= k < |slots| && j != k ==> !Adjacent(slots[j], slots[k])
  }

  /**
    One scan: the first adjacent pair `(earlier, later)` of rows at or after
    `(i, j)`, taking rows `i` in order and, for each, every other row `j`.
  */
  function PairFrom(slots: seq<Slot>, i: nat, j: nat): (r: Option<(nat, nat)>)
    ensures r.Some? ==> var (a, b) := r.value;
      a < |slots| && b < |slots| && a != b && Adjacent(slots[a], slots[b])
    ensures r.None? ==> forall a, b ::
      i <= a < |slots| && 0 <= b < |slots| && a != b && (a > i || b >= j) ==> !Adjacent(slots[a], slots[b])
    decreases |slots| - i, |slots| - j
  {
    if i >= |slots| then None
    else if j >= |slots| then PairFrom(slots, i + 1, 0)
    else if i != j && Adjacent(slots[i], slots[j]) then Some((i, j))
    else PairFrom(slots, i, j + 1)
  }

  /** A full scan finds a pair exactly when one exists. */
  lemma ScanFindsPairIffOne(slots: seq<Slot>)
    ensures PairFrom(slots, 0, 0).None? <==> NoAdjacentPair(slots)
  {
    var r := PairFrom(slots, 0, 0);
    if r.Some? {
      var (a, b) := r.value;
      assert a != b && Adjacent(slots[a], slots[b]);
    } else {
      forall a, b | 0 <= a < |slots| && 0 <= b < |slots| && a != b
        ensures !Adjacent(slots[a], slots[b])
      {
      }
    }
  }

  /** The slot spanning the earlier slot's start to the later slot's end. */
  function Merged(a: Slot, b: Slot): (m: Slot)
  {
    Slot(a.start, b.end, true)
  }

  /** Widen row `i` to span rows `i` and `j`, then delete row `j`. */
  function MergeAt(slots: seq<Slot>, i: nat, j: nat): (r: seq<Slot>)
    requires i < |slots| && j < |slots| && i != j
  {
    Remove(slots[i := Merged(slots[i], slots[j])], j)
  }

  /** Rescan and merge until no adjacent pair is left. */
  function MergeAll(slots: seq<Slot>): (r: seq<Slot>)
    ensures NoAdjacentPair(r)
    ensures |r| <= |slots|
    decreases |slots|
  {
    match PairFrom(slots, 0, 0)
    case None => slots
    case Some((i, j)) => MergeAll(MergeAt(slots, i, j))
  }

  /** Where each row after one merge step comes from. */
  lemma MergeAtRows(slots: seq<Slot>, i: nat, j: nat)
    requires i < |slots| && j < |slots| && i != j
    ensures var r := MergeAt(slots, i, j);
      && |r| == |slots| - 1
      && (forall k :: 0 <= k < j ==> r[k] == (if k == i then Merged(slots[i], slots[j]) else slots[k]))
      && (forall k :: j <= k < |r| ==> r[k] == (if k + 1 == i then Merged(slots[i], slots[j]) else slots[k + 1]))
  {
  }

  /** The merged slot holds exactly the days of the two adjacent slots. */
  lemma MergedDays(a: Slot, b: Slot)
    requires WellFormed(a) && WellFormed(b) && a.end + 1 == b.start
    ensures WellFormed(Merged(a, b))
    ensures forall d :: Contains(Merged(a, b), d) <==> Contains(a, d) || Contains(b, d)
    ensures forall c :: ShareDay(Merged(a, b), c) ==> ShareDay(a, c) || ShareDay(b, c)
  {
  }

  /** One merge step frees the same days and keeps the rows well formed. */
  lemma MergeAtKeepsFreeDays(slots: seq<Slot>, i: nat, j: nat)
    requires i < |slots| && j < |slots| && i != j && Adjacent(slots[i], slots[j])
    requires AllWellFormed(slots)
    ensures AllWellFormed(MergeAt(slots, i, j))
    ensures forall d :: IsFree(MergeAt(slots, i, j), d) <==> IsFree(slots, d)
  {
    var r := MergeAt(slots, i, j);
    var m := Merged(slots[i], slots[j]);
    var mi := if i < j then i else i - 1;
    MergeAtRows(slots, i, j);
    MergedDays(slots[i], slots[j]);
    assert r[mi] == m;
    forall d
      ensures IsFree(r, d) <==> IsFree(slots, d)
    {
      if IsFree(r, d) {
        var k :| 0 <= k < |r| && r[k].isAvailable && Contains(r[k], d);
        var o := if k < j then k else k + 1;
        if o == i {
          assert Contains(slots[i], d) || Contains(slots[j], d);
        } else {
          assert r[k] == slots[o];
        }
      }
      if IsFree(slots, d) {
        var o :| 0 <= o < |slots| && slots[o].isAvailable && Contains(slots[o], d);
        if o == i || o == j {
          assert Contains(r[mi], d);
        } else {
          var k := if o < j then o else o - 1;
          assert r[k] == slots[o];
        }
      }
    }
  }

  /** One merge step keeps the available slots pairwise disjoint. */
  lemma MergeAtKeepsDisjoint(slots: seq<Slot>, i: nat, j: nat)
    requires i < |slots| && j < |slots| && i != j && Adjacent(slots[i], slots[j])
    requires AllWellFormed(slots) && Disjoint(slots)
    ensures Disjoint(MergeAt(slots, i, j))
  {
    var r := MergeAt(slots, i, j);
    MergeAtRows(slots, i, j);
    MergedDays(slots[i], slots[j]);
    forall a, b | 0 <= a < |r| && 0 <= b < |r| && a != b && r[a].isAvailable && r[b].isAvailable
      ensures !ShareDay(r[a], r[b])
    {
      var oa := if a < j then a else a + 1;
      var ob := if b < j then b else b + 1;
      assert oa != ob && oa != j && ob != j;
      if oa == i {
        assert r[a] == Merged(slots[i], slots[j]) && r[b] == slots[ob];
      } else if ob == i {
        assert r[b] == Merged(slots[i], slots[j]) && r[a] == slots[oa];
      } else {
        assert r[a] == slots[oa] && r[b] == slots[ob];
      }
    }
  }

  /** One merge step keeps every unavailable row and adds none. */
  lemma MergeAtKeepsUnavailableSlots(slots: seq<Slot>, i: nat, j: nat)
    requires i < |slots| && j < |slots| && i != j && Adjacent(slots[i], slots[j])
    ensures forall x: Slot :: !x.isAvailable ==> (x in MergeAt(slots, i, j) <==> x in slots)
  {
    var r := MergeAt(slots, i, j);
    MergeAtRows(slots, i, j);
    forall x: Slot | !x.isAvailable
      ensures x in r <==> x in slots
    {
      if x in r {
        var k :| 0 <= k < |r| && r[k] == x;
        var o := if k < j then k else k + 1;
        assert o != i && r[k] == slots[o];
      }
      if x in slots {
        var o :| 0 <= o < |slots| && slots[o] == x;
        assert o != i && o != j;
        var k := if o < j then o else o - 1;
        assert r[k] == slots[o];
      }
    }
  }

  /** Merging frees exactly the days that were free before and keeps rows well formed. */
  lemma {:induction false} MergeAllKeepsFreeDays(slots: seq<Slot>)
    requires AllWellFormed(slots)
    ensures AllWellFormed(MergeAll(slots))
    ensures forall d :: IsFree(MergeAll(slots), d) <==> IsFree(slots, d)
    decreases |slots|
  {
    match PairFrom(slots, 0, 0)
    case None =>
    case Some((i, j)) =>
      MergeAtKeepsFreeDays(slots, i, j);
      MergeAllKeepsFreeDays(MergeAt(slots, i, j));
  }

  /** Merging keeps the ledger invariant: available slots stay pairwise disjoint. */
  lemma {:induction false} MergeAllKeepsDisjoint(slots: seq<Slot>)
    requires AllWellFormed(slots) && Disjoint(slots)
    ensures Disjoint(MergeAll(slots))
    decreases |slots|
  {
    match PairFrom(slots, 0, 0)
    case None =>
    case Some((i, j)) =>
      MergeAtKeepsFreeDays(slots, i, j);
      MergeAtKeepsDisjoint(slots, i, j);
      MergeAllKeepsDisjoint(MergeAt(slots, i, j));
  }

  /** Merging never touches a slot flagged unavailable. */
  lemma {:induction false} MergeAllKeepsUnavailableSlots(slots: seq<Slot>)
    ensures forall x: Slot :: !x.isAvailable ==> (x in MergeAll(slots) <==> x in slots)
    decreases |slots|
  {
    match PairFrom(slots, 0, 0)
    case None =>
    case Some((i, j)) =>
      MergeAtKeepsUnavailableSlots(slots, i, j);
      MergeAllKeepsUnavailableSlots(MergeAt(slots, i, j));
  }

  /** Merging leaves an available slot exactly when there was one. */
  lemma {:induction false} MergeAllKeepsAvailability(slots: seq<Slot>)
    ensures HasAvailableSlot(MergeAll(slots)) <==> HasAvailableSlot(slots)
    decreases |slots|
  {
    match PairFrom(slots, 0, 0)
    case None =>
    case Some((i, j)) =>
      var r := MergeAt(slots, i, j);
      MergeAtRows(slots, i, j);
      var mi := if i < j then i else i - 1;
      assert r[mi].isAvailable && slots[i].isAvailable;
      MergeAllKeepsAvailability(r);
  }

  /** Two available slots, the first ending the day before the second starts, become one. */
  lemma MergeTwoAdjacent(a: Slot, b: Slot)
    requires a.isAvailable && b.isAvailable && a.end + 1 == b.start
    ensures MergeAll([a, b]) == [Slot(a.start, b.end, true)]
  {
    assert PairFrom([a, b], 0, 0) == Some((0, 1));
    assert MergeAt([a, b], 0, 1) == [Slot(a.start, b.end, true)];
    ScanFindsPairIffOne([Slot(a.start, b.end, true)]);
  }

  /** Slots that are not day-adjacent, overlapping ones included, both survive unchanged. */
  lemma MergeLeavesNonAdjacent(a: Slot, b: Slot)
    requires !Adjacent(a, b) && !Adjacent(b, a)
    ensures MergeAll([a, b]) == [a, b]
  {
    ScanFindsPairIffOne([a, b]);
  }

  /** A ledger with no adjacent pair is left as it is. */
  lemma MergeWithoutPairsIsIdentity(slots: seq<Slot>)
    requires NoAdjacentPair(slots)
    ensures MergeAll(slots) == slots
  {
    ScanFindsPairIffOne(slots);
  }
}
