/** The choice between the ways to open a slot, and why no layout moves fewer elements. */
module Cheapest {
  import opened Wrappers
  import opened Mins
  import opened Bitmaps
  import opened Layouts
  import opened Placement

  /** The nearest hole at or below a slot, with the number of live slots crossed to reach it. */
  function NearestHoleLeft(live: Bits, from: int): (r: Option<(nat, nat)>)
    requires -1 <= from < |live|
    ensures r.None? <==> Full(live, 0, from + 1)
    ensures r.Some? ==> r.value.0 <= from && !live[r.value.0] && Full(live, r.value.0 + 1, from + 1) &&
                        r.value.1 == from - r.value.0
  {
    if from < 0 then None else
      var hole := NearestClearAtOrBelow(live, from);
      if hole.None? then None else Some((hole.value, from - hole.value))
  }

  /** The nearest hole at or above a slot and below the capacity. */
  function NearestHoleRight(live: Bits, from: nat, cap: nat): (r: Option<(nat, nat)>)
    requires from <= cap <= |live|
    ensures r.None? <==> Full(live, from, cap)
    ensures r.Some? ==> from <= r.value.0 < cap && !live[r.value.0] && Full(live, from, r.value.0) &&
                        r.value.1 == r.value.0 - from
  {
    var hole := NearestClearIn(live, from, cap);
    if hole.None? then None else Some((hole.value, hole.value - from))
  }

  /** The least number of moves, over sliding either way to the nearest hole. */
  function Cheaper(left: Option<(nat, nat)>, right: Option<(nat, nat)>): Option<nat> {
    if left.None? then (if right.None? then None else Some(right.value.1))
    else if right.None? || left.value.1 <= right.value.1 then Some(left.value.1)
    else Some(right.value.1)
  }

  /** What opening a slot between two neighbours costs: nothing if a hole lies between them. */
  function Cost(live: Bits, lo: int, hi: nat, cap: nat): Option<nat>
    requires -1 <= lo < hi <= cap <= |live|
  {
    if NearestClearIn(live, lo + 1, hi).Some? then Some(0)
    else Cheaper(NearestHoleLeft(live, lo), NearestHoleRight(live, hi, cap))
  }

  /** With spare capacity some hole exists, and a slide never crosses more than are stored. */
  lemma SpareCapacity(live: Bits, lo: int, hi: nat, cap: nat)
    requires -1 <= lo < hi <= cap <= |live| && Count(live) < cap && Rank(live, cap) == Count(live)
    ensures Cost(live, lo, hi, cap).Some? && Cost(live, lo, hi, cap).value <= Count(live)
  {
    LeftBound(live, lo);
    RightBound(live, hi, cap);
    SomeHole(live, lo, hi, cap);
    CheaperBound(NearestHoleLeft(live, lo), NearestHoleRight(live, hi, cap), Count(live));
  }

  lemma CheaperBound(left: Option<(nat, nat)>, right: Option<(nat, nat)>, n: nat)
    requires (left.Some? ==> left.value.1 <= n) && (right.Some? ==> right.value.1 <= n)
    ensures Cheaper(left, right).Some? ==> Cheaper(left, right).value <= n
  {}

  lemma LeftBound(live: Bits, lo: int)
    requires -1 <= lo < |live|
    ensures NearestHoleLeft(live, lo).Some? ==> NearestHoleLeft(live, lo).value.1 <= Count(live)
  {
    if NearestHoleLeft(live, lo).Some? {
      RunBound(live, NearestHoleLeft(live, lo).value.0 + 1, lo + 1);
    }
  }

  lemma RightBound(live: Bits, hi: nat, cap: nat)
    requires hi <= cap <= |live|
    ensures NearestHoleRight(live, hi, cap).Some? ==> NearestHoleRight(live, hi, cap).value.1 <= Count(live)
  {
    if NearestHoleRight(live, hi, cap).Some? {
      RunBound(live, hi, NearestHoleRight(live, hi, cap).value.0);
    }
  }

  lemma RunBound(live: Bits, from: nat, end: nat)
    requires from <= end <= |live| && Full(live, from, end)
    ensures end - from <= Count(live)
  {
    FullRank(live, from, end);
    RankMonotone(live, end, |live|);
    RankEnds(live);
  }

  lemma SomeHole(live: Bits, lo: int, hi: nat, cap: nat)
    requires -1 <= lo < hi <= cap <= |live| && Rank(live, cap) < cap
    ensures NearestClearIn(live, lo + 1, hi).Some? || NearestHoleLeft(live, lo).Some? ||
            NearestHoleRight(live, hi, cap).Some?
  {
    NotFull(live, cap);
    var p :| 0 <= p < cap && !live[p];
    if p <= lo {
      assert !Full(live, 0, lo + 1);
    } else if hi <= p {
      assert !Full(live, hi, cap);
    }
  }

  lemma NotFull(live: Bits, cap: nat)
    requires cap <= |live| && Rank(live, cap) < cap
    ensures !Full(live, 0, cap)
  {
    if Full(live, 0, cap) {
      RankEnds(live);
      FullRank(live, 0, cap);
    }
  }

  // ----- every other layout

  /** A new layout of the old elements and one more, in the same number of slots. */
  ghost predicate Places<T>(b: Block<T>, m: map<nat, T>, i: nat, v: T, b': Block<T>) {
    Holds(b, m) && i < |b.occupancy| && !b.occupancy[i] && Holds(b', m[i := v]) &&
    |b'.occupancy| == |b.occupancy| && |b'.slots| == |b.slots| && |b'.live| == |b.live|
  }

  lemma NewOccupancy<T>(b: Block<T>, m: map<nat, T>, i: nat, v: T, b': Block<T>)
    requires Places(b, m, i, v, b')
    ensures b'.occupancy == b.occupancy[i := true]
    ensures Count(b'.occupancy) == Count(b'.live) == Count(b.live) + 1
    ensures Rank(b.occupancy, i) < Count(b'.live) && SlotOf(b', i) == Pos(b'.live, Rank(b.occupancy, i))
  {
    forall j | 0 <= j < |b.occupancy| ensures b'.occupancy[j] == b.occupancy[i := true][j] {
      assert j in m[i := v] <==> j == i || j in m;
    }
    assert b'.occupancy == b.occupancy[i := true];
    CountUpdate(b.occupancy, i, true);
    RankUpdate(b.occupancy, i, true, i);
    RankBelowCount(b'.occupancy, i);
  }

  /** The new index shifts the ranks above it by one. */
  lemma NewSlot<T>(b: Block<T>, m: map<nat, T>, i: nat, v: T, b': Block<T>, j: nat)
    requires Places(b, m, i, v, b') && j < |b.occupancy| && b.occupancy[j]
    ensures var r, k := Rank(b.occupancy, i), Rank(b.occupancy, j);
            var k' := if k >= r then k + 1 else k;
            Count(b'.occupancy) == Count(b'.live) && b'.occupancy[j] && k' < Count(b'.live) &&
            SlotOf(b', j) == Pos(b'.live, k')
  {
    NewOccupancy(b, m, i, v, b');
    RankUpdate(b.occupancy, i, true, j);
    OneSide(b.occupancy, i, j);
    RankBelowCount(b'.occupancy, j);
  }

  /** The element of a rank inside a full run. */
  lemma RunSlot(live: Bits, from: nat, p: nat, end: nat)
    requires from <= p < end <= |live| && Full(live, from, end)
    ensures Rank(live, p) == Rank(live, from) + (p - from) == Rank(live, end) - (end - p)
    ensures Rank(live, p) < Count(live) && Pos(live, Rank(live, p)) == p
  {
    FullRank(live, from, p);
    FullRank(live, p, end);
    PosRank(live, p);
  }

  lemma AboveSlot(live: Bits, from: nat, end: nat, k: nat)
    requires from <= end <= |live| && Full(live, from, end) && Rank(live, from) <= k < Rank(live, end)
    ensures k < Count(live) && Pos(live, k) == from + (k - Rank(live, from))
  {
    FullRank(live, from, end);
    RunSlot(live, from, from + (k - Rank(live, from)), end);
  }

  /** A rank landing at or above the start of a full run pushes the run's ranks above their slots. */
  lemma RankPushed(live: Bits, live': Bits, hi: nat, end: nat, k: nat)
    requires hi <= end <= |live| && Full(live, hi, end) && Rank(live, hi) <= k < Rank(live, end)
    requires k + 1 < Count(live') && Pos(live', Rank(live, hi)) >= hi
    ensures k < Count(live) && Pos(live', k + 1) > Pos(live, k)
  {
    AboveSlot(live, hi, end, k);
    PosAscends(live', Rank(live, hi), k + 1);
  }

  /** A full run from the bottom leaves no room to land below its end. */
  lemma NoRoomLow(live: Bits, live': Bits, hi: nat)
    requires hi <= |live| && Full(live, 0, hi) && Rank(live, hi) < Count(live')
    ensures Pos(live', Rank(live, hi)) >= hi
  {
    RankEnds(live);
    FullRank(live, 0, hi);
    PosAscends(live', 0, Rank(live, hi));
  }

  /** A full run to the top leaves no room to land at or above its start. */
  lemma NoRoomHigh(live: Bits, live': Bits, hi: nat, cap: nat)
    requires hi <= cap <= |live| && Full(live, hi, cap) && Rank(live, cap) == Count(live)
    requires Count(live') == Count(live) + 1 && Pos(live', Count(live)) < cap
    ensures Rank(live, hi) < Count(live') && Pos(live', Rank(live, hi)) < hi
  {
    FullRank(live, hi, cap);
    PosAscends(live', Rank(live, hi), Count(live));
  }

  /** If the new element lands below the upper neighbour, every element of the run beneath moved down. */
  lemma RunMovedDown<T>(b: Block<T>, m: map<nat, T>, i: nat, v: T, b': Block<T>, from: nat, hi: nat, j: nat)
    requires Places(b, m, i, v, b') && from <= hi <= |b.live| && Full(b.live, from, hi)
    requires Rank(b.live, hi) == Rank(b.occupancy, i) < Count(b'.live) && Pos(b'.live, Rank(b.live, hi)) < hi
    requires j < |b.occupancy| && b.occupancy[j]
    requires Rank(b.live, from) <= Rank(b.occupancy, j) < Rank(b.live, hi)
    ensures Count(b'.occupancy) == Count(b'.live) && b'.occupancy[j] && SlotOf(b', j) < SlotOf(b, j)
  {
    NewSlot(b, m, i, v, b', j);
    var k, r := Rank(b.occupancy, j), Rank(b.live, hi);
    FullRank(b.live, from, hi);
    AboveSlot(b.live, from, hi, k);
    PosAscends(b'.live, k, r);
  }

  /** If it lands at the upper neighbour or above, every element of the run above moved up. */
  lemma RunMovedUp<T>(b: Block<T>, m: map<nat, T>, i: nat, v: T, b': Block<T>, hi: nat, end: nat, j: nat)
    requires Places(b, m, i, v, b') && hi <= end <= |b.live| && Full(b.live, hi, end)
    requires Rank(b.live, hi) == Rank(b.occupancy, i) < Count(b'.live) && Pos(b'.live, Rank(b.live, hi)) >= hi
    requires j < |b.occupancy| && b.occupancy[j]
    requires Rank(b.live, hi) <= Rank(b.occupancy, j) < Rank(b.live, end)
    ensures Count(b'.occupancy) == Count(b'.live) && b'.occupancy[j] && SlotOf(b', j) > SlotOf(b, j)
  {
    NewSlot(b, m, i, v, b', j);
    assert SlotOf(b', j) == Pos(b'.live, Rank(b.occupancy, j) + 1);
    RankPushed(b.live, b'.live, hi, end, Rank(b.occupancy, j));
  }

  /** A window of ranks that all changed slots bounds the number moved from below. */
  lemma MovedAtLeast<T>(b: Block<T>, b': Block<T>, from: nat, end: nat)
    requires |b'.occupancy| == |b.occupancy| && from <= end <= |b.live|
    requires Count(b.occupancy) == Count(b.live) && Count(b'.occupancy) == Count(b'.live)
    requires Full(b.live, from, end)
    requires forall j :: j in Window(b.occupancy, Rank(b.live, from), Rank(b.live, end)) ==>
      b'.occupancy[j] && SlotOf(b', j) != SlotOf(b, j)
    ensures |Moved(b, b')| >= end - from
  {
    FullRank(b.live, from, end);
    RankMonotone(b.live, end, |b.live|);
    RankEnds(b.live);
    var w := Window(b.occupancy, Rank(b.live, from), Rank(b.live, end));
    WindowSize(b.occupancy, Rank(b.live, from), Rank(b.live, end));
    SubsetSize(w, Moved(b, b'));
  }

  lemma LandsLow<T>(b: Block<T>, m: map<nat, T>, i: nat, v: T, b': Block<T>, hi: nat)
    requires Places(b, m, i, v, b') && hi <= |b.live| && Rank(b.live, hi) == Rank(b.occupancy, i)
    requires Rank(b.live, hi) < Count(b'.live) && Pos(b'.live, Rank(b.live, hi)) < hi
    ensures NearestHoleLeft(b.live, hi - 1).Some?
    ensures Count(b'.occupancy) == Count(b'.live) && |Moved(b, b')| >= NearestHoleLeft(b.live, hi - 1).value.1
  {
    if Full(b.live, 0, hi) {
      NoRoomLow(b.live, b'.live, hi);
    }
    var from := NearestHoleLeft(b.live, hi - 1).value.0 + 1;
    forall j | j in Window(b.occupancy, Rank(b.live, from), Rank(b.live, hi))
      ensures b'.occupancy[j] && SlotOf(b', j) != SlotOf(b, j) {
      RunMovedDown(b, m, i, v, b', from, hi, j);
    }
    MovedAtLeast(b, b', from, hi);
  }

  lemma LandsHigh<T>(b: Block<T>, m: map<nat, T>, i: nat, v: T, b': Block<T>, hi: nat)
    requires Places(b, m, i, v, b') && hi <= |b.slots| && Rank(b.live, hi) == Rank(b.occupancy, i)
    requires Rank(b.live, hi) < Count(b'.live) && Pos(b'.live, Rank(b.live, hi)) >= hi
    ensures NearestHoleRight(b.live, hi, |b.slots|).Some?
    ensures Count(b'.occupancy) == Count(b'.live)
    ensures |Moved(b, b')| >= NearestHoleRight(b.live, hi, |b.slots|).value.1
  {
    NewOccupancy(b, m, i, v, b');
    if Full(b.live, hi, |b.slots|) {
      TopClear(b, m);
      assert b'.live[Pos(b'.live, Count(b.live))];
      NoRoomHigh(b.live, b'.live, hi, |b.slots|);
    }
    var end := NearestHoleRight(b.live, hi, |b.slots|).value.0;
    forall j | j in Window(b.occupancy, Rank(b.live, hi), Rank(b.live, end))
      ensures b'.occupancy[j] && SlotOf(b', j) != SlotOf(b, j) {
      RunMovedUp(b, m, i, v, b', hi, end, j);
    }
    MovedAtLeast(b, b', hi, end);
  }

  /** No layout of the same elements and the new one in the same slots moves fewer than the cost. */
  lemma FewestMoves<T>(b: Block<T>, m: map<nat, T>, i: nat, v: T, b': Block<T>)
    requires Places(b, m, i, v, b')
    ensures var lo, hi := Before(b.live, Rank(b.occupancy, i)), Behind(b.live, |b.slots|, Rank(b.occupancy, i));
            -1 <= lo < hi <= |b.slots| && Count(b'.occupancy) == Count(b'.live) &&
            Cost(b.live, lo, hi, |b.slots|).Some? && |Moved(b, b')| >= Cost(b.live, lo, hi, |b.slots|).value
  {
    Neighbors(b, m, i);
    NewOccupancy(b, m, i, v, b');
    var lo, hi := Before(b.live, Rank(b.occupancy, i)), Behind(b.live, |b.slots|, Rank(b.occupancy, i));
    if NearestClearIn(b.live, lo + 1, hi).None? {
      Adjacent(b.live, lo, hi);
      LandsSomewhere(b, m, i, v, b', hi);
    }
  }

  /** Between adjacent neighbours the new element lands on one side or the other, and that side has moved. */
  lemma LandsSomewhere<T>(b: Block<T>, m: map<nat, T>, i: nat, v: T, b': Block<T>, hi: nat)
    requires Places(b, m, i, v, b') && hi <= |b.slots| && |b.slots| <= |b.live|
    requires Rank(b.live, hi) == Rank(b.occupancy, i) < Count(b'.live)
    ensures Count(b'.occupancy) == Count(b'.live)
    ensures var cheaper := Cheaper(NearestHoleLeft(b.live, hi - 1), NearestHoleRight(b.live, hi, |b.slots|));
            cheaper.Some? && |Moved(b, b')| >= cheaper.value
  {
    if Pos(b'.live, Rank(b.live, hi)) < hi {
      LandsLow(b, m, i, v, b', hi);
    } else {
      LandsHigh(b, m, i, v, b', hi);
    }
  }

  /** The new layout opened its slot by moving exactly as many elements as the cost says. */
  ghost predicate OpenedCheaply<T>(b: Block<T>, i: nat, c: Block<T>)
    requires i < |b.occupancy| && Count(b.occupancy) == Count(b.live) && |b.slots| <= |b.live|
  {
    var lo, hi := Before(b.live, Rank(b.occupancy, i)), Behind(b.live, |b.slots|, Rank(b.occupancy, i));
    -1 <= lo < hi <= |b.slots| && Cost(b.live, lo, hi, |b.slots|).Some? &&
    Cost(b.live, lo, hi, |b.slots|).value <= Count(b.live) && Moves(b, c, Cost(b.live, lo, hi, |b.slots|).value)
  }

  /** How far a slot is from the gap between `lo` and `hi`. */
  function Distance(lo: int, hi: nat, p: nat): int {
    if p <= lo then lo - p else if p < hi then 0 else p - hi
  }

  /** The hole an insertion uses: the lowest between the neighbours, else the nearest, the lower on a tie. */
  ghost predicate Chosen(live: Bits, lo: int, hi: nat, cap: nat, hole: nat)
    requires cap <= |live|
  {
    hole < cap && !live[hole] &&
    (forall p :: 0 <= p < cap && !live[p] ==> Distance(lo, hi, hole) <= Distance(lo, hi, p)) &&
    forall p :: 0 <= p < hole && !live[p] ==> Distance(lo, hi, hole) < Distance(lo, hi, p)
  }

  /** That hole is what the new layout fills; with the map it stores, this settles the layout. */
  ghost predicate OpenedAt<T>(b: Block<T>, i: nat, c: Block<T>)
    requires i < |b.occupancy| && |b.slots| <= |b.live|
  {
    var lo, hi := Before(b.live, Rank(b.occupancy, i)), Behind(b.live, |b.slots|, Rank(b.occupancy, i));
    c.occupancy == b.occupancy[i := true] &&
    exists hole: nat :: Chosen(b.live, lo, hi, |b.slots|, hole) && c.live == b.live[hole := true]
  }

  /** A layout is settled by its bitmaps and the map it stores. */
  lemma LayoutSettled<T>(b: Block<T>, c: Block<T>, m: map<nat, T>)
    requires Holds(b, m) && Holds(c, m) && b.occupancy == c.occupancy && b.live == c.live && |b.slots| == |c.slots|
    ensures b == c
  {
    forall p | 0 <= p < |b.slots| ensures b.slots[p] == c.slots[p] {
      if b.live[p] {
        RankBelowCount(b.live, p);
        PosRank(b.occupancy, Pos(b.occupancy, Rank(b.live, p)));
        assert Paired(b, Pos(b.occupancy, Rank(b.live, p)), p) && Paired(c, Pos(b.occupancy, Rank(b.live, p)), p);
      }
    }
  }

  lemma BetweenChosen(live: Bits, lo: int, hi: nat, cap: nat)
    requires -1 <= lo < hi <= cap <= |live| && NearestClearIn(live, lo + 1, hi).Some?
    requires lo >= 0 ==> live[lo]
    ensures Chosen(live, lo, hi, cap, NearestClearIn(live, lo + 1, hi).value)
  {}

  lemma LeftChosen(live: Bits, lo: int, hi: nat, cap: nat)
    requires -1 <= lo < hi <= cap <= |live| && hi == lo + 1 && LeftWins(live, lo, hi, cap)
    ensures Chosen(live, lo, hi, cap, NearestHoleLeft(live, lo).value.0)
  {}

  lemma RightChosen(live: Bits, lo: int, hi: nat, cap: nat)
    requires -1 <= lo < hi <= cap <= |live| && hi == lo + 1 && RightWins(live, lo, hi, cap)
    ensures Chosen(live, lo, hi, cap, NearestHoleRight(live, hi, cap).value.0)
  {}

  /** Neighbours with no element between them are adjacent, or a hole lies between. */
  lemma Adjacent(live: Bits, lo: int, hi: nat)
    requires -1 <= lo < hi <= |live| && forall p: nat :: lo < p < hi ==> !live[p]
    ensures hi == lo + 1 || NearestClearIn(live, lo + 1, hi).Some?
  {
    if lo + 1 < hi {
      ClearInside(live, lo + 1, hi);
    }
  }

  lemma ClearInside(live: Bits, p: nat, end: nat)
    requires p < end <= |live| && !live[p]
    ensures NearestClearIn(live, p, end).Some?
  {}

  /** The left slide is the cheaper one, or the only one. */
  predicate LeftWins(live: Bits, lo: int, hi: nat, cap: nat)
    requires -1 <= lo < hi <= cap <= |live|
  {
    var left, right := NearestHoleLeft(live, lo), NearestHoleRight(live, hi, cap);
    left.Some? && (right.None? || left.value.1 <= right.value.1)
  }

  predicate RightWins(live: Bits, lo: int, hi: nat, cap: nat)
    requires -1 <= lo < hi <= cap <= |live|
  {
    var left, right := NearestHoleLeft(live, lo), NearestHoleRight(live, hi, cap);
    right.Some? && (left.None? || right.value.1 < left.value.1)
  }

  /** The run a winning slide moves, and what it costs. */
  lemma LeftSlide(live: Bits, lo: int, hi: nat, cap: nat)
    requires -1 <= lo < hi <= cap <= |live| && hi == lo + 1 && lo >= 0 && live[lo] && LeftWins(live, lo, hi, cap)
    ensures var hole := NearestHoleLeft(live, lo).value.0;
            hole + 1 < hi && !live[hole] && Full(live, hole + 1, hi) &&
            Cost(live, lo, hi, cap) == Some(hi - hole - 1) && hi - hole - 1 <= Count(live)
  {
    LeftBound(live, lo);
  }

  lemma RightSlide(live: Bits, lo: int, hi: nat, cap: nat)
    requires -1 <= lo < hi <= cap <= |live| && hi == lo + 1 && hi < cap && live[hi] && RightWins(live, lo, hi, cap)
    ensures var hole := NearestHoleRight(live, hi, cap).value.0;
            hi < hole < cap && !live[hole] && Full(live, hi, hole) &&
            Cost(live, lo, hi, cap) == Some(hole - hi) && hole - hi <= Count(live)
  {
    RightBound(live, hi, cap);
  }

  /** Nothing cheaper: any layout of the same map in the same number of slots moves at least as many. */
  lemma NothingCheaper<T>(b: Block<T>, m: map<nat, T>, i: nat, v: T, c: Block<T>, other: Block<T>)
    requires Places(b, m, i, v, other) && OpenedCheaply(b, i, c)
    ensures Count(other.occupancy) == Count(other.live) && |Moved(b, c)| <= |Moved(b, other)|
  {
    FewestMoves(b, m, i, v, other);
  }
}
