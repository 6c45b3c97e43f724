/** Opening a slot for a new element: filling a hole, or sliding a run to one. */
module Placement {
  import opened Wrappers
  import opened Bitmaps
  import opened Layouts

  /** A whole run of slots is live. */
  predicate Full(live: Bits, from: nat, end: nat)
    requires end <= |live|
  {
    forall p :: from <= p < end ==> live[p]
  }

  /** Across a full run ranks and slots advance together. */
  lemma {:induction false} FullRank(live: Bits, from: nat, end: nat)
    requires from <= end <= |live| && Full(live, from, end)
    ensures Rank(live, end) == Rank(live, from) + (end - from)
    decreases end - from
  {
    if from < end {
      RankStep(live, end - 1);
      FullRank(live, from, end - 1);
    }
  }

  // ----- sliding a run one slot

  /** The run `(hole, hi)` slid down by one; the hole moves to `hi - 1`. */
  ghost function SlidDown<T>(b: Block<T>, hole: nat, hi: nat): Block<T>
    requires hole < hi <= |b.slots| <= |b.live|
  {
    Block(b.occupancy, b.live[hole := true][hi - 1 := false],
          b.slots[..hole] + b.slots[hole + 1..hi] + [None] + b.slots[hi..])
  }

  /** The run `[lo, hole)` slid up by one; the hole moves to `lo`. */
  ghost function SlidUp<T>(b: Block<T>, lo: nat, hole: nat): Block<T>
    requires lo <= hole < |b.slots| <= |b.live|
  {
    Block(b.occupancy, b.live[hole := true][lo := false],
          b.slots[..lo] + [None] + b.slots[lo..hole] + b.slots[hole + 1..])
  }

  /** Where the element in slot `q` of the slid block came from. */
  function DownSource(hole: nat, hi: nat, q: nat): nat {
    if hole <= q && q + 1 < hi then q + 1 else q
  }

  function UpSource(lo: nat, hole: nat, q: nat): nat {
    if lo < q <= hole then q - 1 else q
  }

  lemma SlidDownLive<T>(b: Block<T>, hole: nat, hi: nat, q: nat)
    requires hole < hi <= |b.slots| <= |b.live| && !b.live[hole] && Full(b.live, hole + 1, hi) && q < |b.live|
    ensures SlidDown(b, hole, hi).live[q] <==> q != hi - 1 && b.live[DownSource(hole, hi, q)]
  {}

  lemma SlidDownPairs<T>(b: Block<T>, hole: nat, hi: nat, j: nat, q: nat)
    requires hole < hi <= |b.slots| <= |b.live| && !b.live[hole] && Full(b.live, hole + 1, hi)
    requires j < |b.occupancy| && q < |b.live|
    ensures q != hi - 1 ==> (Paired(SlidDown(b, hole, hi), j, q) <==> Paired(b, j, DownSource(hole, hi, q)))
    ensures SlidDown(b, hole, hi).live[q] <==> q != hi - 1 && b.live[DownSource(hole, hi, q)]
  {
    var one := b.live[hole := true];
    RankUpdate(b.live, hole, true, q);
    RankUpdate(one, hi - 1, false, q);
    if hole <= q && q + 1 < hi {
      RankStep(b.live, q);
    }
  }

  lemma SlidUpLive<T>(b: Block<T>, lo: nat, hole: nat, q: nat)
    requires lo <= hole < |b.slots| <= |b.live| && !b.live[hole] && Full(b.live, lo, hole) && q < |b.live|
    ensures SlidUp(b, lo, hole).live[q] <==> q != lo && b.live[UpSource(lo, hole, q)]
  {}

  lemma SlidUpPairs<T>(b: Block<T>, lo: nat, hole: nat, j: nat, q: nat)
    requires lo <= hole < |b.slots| <= |b.live| && !b.live[hole] && Full(b.live, lo, hole)
    requires j < |b.occupancy| && q < |b.live|
    ensures q != lo ==> (Paired(SlidUp(b, lo, hole), j, q) <==> Paired(b, j, UpSource(lo, hole, q)))
    ensures SlidUp(b, lo, hole).live[q] <==> q != lo && b.live[UpSource(lo, hole, q)]
  {
    var one := b.live[hole := true];
    RankUpdate(b.live, hole, true, q);
    RankUpdate(one, lo, false, q);
    if lo < q <= hole {
      RankStep(b.live, q - 1);
    }
  }

  lemma SlidDownSlots<T>(b: Block<T>, hole: nat, hi: nat, q: nat)
    requires hole < hi <= |b.slots| <= |b.live| && q < |b.slots|
    ensures |SlidDown(b, hole, hi).slots| == |b.slots|
    ensures SlidDown(b, hole, hi).slots[q] == if q == hi - 1 then None else b.slots[DownSource(hole, hi, q)]
  {}

  lemma SlidUpSlots<T>(b: Block<T>, lo: nat, hole: nat, q: nat)
    requires lo <= hole < |b.slots| <= |b.live| && q < |b.slots|
    ensures |SlidUp(b, lo, hole).slots| == |b.slots|
    ensures SlidUp(b, lo, hole).slots[q] == if q == lo then None else b.slots[UpSource(lo, hole, q)]
  {}

  lemma SlidDownHolds<T>(b: Block<T>, m: map<nat, T>, hole: nat, hi: nat)
    requires Holds(b, m) && hole < hi <= |b.slots| && !b.live[hole] && Full(b.live, hole + 1, hi)
    ensures Holds(SlidDown(b, hole, hi), m)
  {
    var s := SlidDown(b, hole, hi);
    CountUpdate(b.live, hole, true);
    CountUpdate(b.live[hole := true], hi - 1, false);
    forall q | 0 <= q < |s.slots| ensures s.slots[q].Some? <==> s.live[q] {
      SlidDownSlots(b, hole, hi, q);
      SlidDownLive(b, hole, hi, q);
    }
    forall j, q | 0 <= j < |s.occupancy| && 0 <= q < |s.slots| && Paired(s, j, q)
      ensures s.slots[q] == Some(m[j]) {
      SlidDownSlots(b, hole, hi, q);
      SlidDownPairs(b, hole, hi, j, q);
    }
  }

  lemma SlidUpHolds<T>(b: Block<T>, m: map<nat, T>, lo: nat, hole: nat)
    requires Holds(b, m) && lo <= hole < |b.slots| && !b.live[hole] && Full(b.live, lo, hole)
    ensures Holds(SlidUp(b, lo, hole), m)
  {
    var s := SlidUp(b, lo, hole);
    CountUpdate(b.live, hole, true);
    CountUpdate(b.live[hole := true], lo, false);
    forall q | 0 <= q < |s.slots| ensures s.slots[q].Some? <==> s.live[q] {
      SlidUpSlots(b, lo, hole, q);
      SlidUpLive(b, lo, hole, q);
    }
    forall j, q | 0 <= j < |s.occupancy| && 0 <= q < |s.slots| && Paired(s, j, q)
      ensures s.slots[q] == Some(m[j]) {
      SlidUpSlots(b, lo, hole, q);
      SlidUpPairs(b, lo, hole, j, q);
    }
  }

  // ----- where the new element goes

  /** The slot of the element before a rank, `-1` if there is none. */
  ghost function Before(live: Bits, r: nat): int {
    if r == 0 || r > Count(live) then -1 else Pos(live, r - 1)
  }

  /** The slot of the element at a rank, the capacity if there is none. */
  ghost function Behind(live: Bits, cap: nat, r: nat): nat {
    if r >= Count(live) then cap else Pos(live, r)
  }

  /** The neighbours bracket the index's rank, with nothing live strictly between them. */
  lemma Neighbors<T>(b: Block<T>, m: map<nat, T>, i: nat)
    requires Holds(b, m) && i < |b.occupancy| && !b.occupancy[i]
    ensures var r := Rank(b.occupancy, i);
            var lo, hi := Before(b.live, r), Behind(b.live, |b.slots|, r);
            -1 <= lo < hi <= |b.slots| && r <= Count(b.live) && Rank(b.live, hi) == r &&
            (lo >= 0 ==> b.live[lo]) && (hi < |b.slots| ==> b.live[hi]) &&
            (forall p :: lo < p < hi ==> !b.live[p] && Rank(b.live, p) == r)
  {
    RankMonotone(b.occupancy, i, |b.occupancy|);
    RankEnds(b.occupancy);
    TopClear(b, m);
    RankNeighbors(b.live, |b.slots|, Rank(b.occupancy, i));
  }

  /** The neighbours of a rank in a word whose bits all lie below the capacity. */
  lemma RankNeighbors(live: Bits, cap: nat, r: nat)
    requires r <= Count(live) && cap <= |live| && Rank(live, cap) == Count(live)
    requires forall p :: 0 <= p < |live| && live[p] ==> p < cap
    ensures var lo, hi := Before(live, r), Behind(live, cap, r);
            -1 <= lo < hi <= cap && Rank(live, hi) == r && (lo >= 0 ==> live[lo]) && (hi < cap ==> live[hi]) &&
            (forall p :: lo < p < hi ==> !live[p] && Rank(live, p) == r)
  {
    var lo, hi := Before(live, r), Behind(live, cap, r);
    RankEnds(live);
    if lo >= 0 {
      RankStep(live, lo);
    }
    if lo >= 0 && r < Count(live) {
      PosAscends(live, r - 1, r);
    }
    NoneBetween(live, lo + 1, hi);
  }

  /** Between two positions of equal rank nothing is set. */
  lemma NoneBetween(live: Bits, from: nat, end: nat)
    requires from <= end <= |live| && Rank(live, from) == Rank(live, end)
    ensures forall p :: from <= p < end ==> !live[p] && Rank(live, p) == Rank(live, from)
  {
    forall p | from <= p < end ensures !live[p] && Rank(live, p) == Rank(live, from) {
      RankMonotone(live, from, p);
      RankMonotone(live, p, end);
    }
  }

  /** Nothing is live at or above the capacity. */
  lemma TopClear<T>(b: Block<T>, m: map<nat, T>)
    requires Holds(b, m)
    ensures Rank(b.live, |b.slots|) == Count(b.live)
  {
    assert b.live == b.live[..|b.slots|] + b.live[|b.slots|..];
    CountConcat(b.live[..|b.slots|], b.live[|b.slots|..]);
    CountClear(b.live[|b.slots|..]);
  }

  // ----- how many elements move

  /** The present indices whose element changes its slot. */
  ghost function Moved<T>(b: Block<T>, b': Block<T>): set<nat>
    requires |b'.occupancy| == |b.occupancy|
    requires Count(b.occupancy) == Count(b.live) && Count(b'.occupancy) == Count(b'.live)
  {
    set j | 0 <= j < |b.occupancy| && b.occupancy[j] && b'.occupancy[j] && SlotOf(b, j) != SlotOf(b', j)
  }

  /** From one layout to the next exactly `n` elements change their slots. */
  ghost predicate Moves<T>(b: Block<T>, c: Block<T>, n: nat) {
    |c.occupancy| == |b.occupancy| && Count(b.occupancy) == Count(b.live) && Count(c.occupancy) == Count(c.live) &&
    |Moved(b, c)| == n
  }

  /** The present indices with ranks in `[from, end)`. */
  ghost function Window(occ: Bits, from: nat, end: nat): set<nat> {
    set j | 0 <= j < |occ| && occ[j] && from <= Rank(occ, j) < end
  }

  lemma {:induction false} WindowSize(occ: Bits, from: nat, end: nat)
    requires from <= end <= Count(occ)
    ensures |Window(occ, from, end)| == end - from
    decreases end
  {
    if from == end {
      assert Window(occ, from, end) == {};
    } else {
      var last := Pos(occ, end - 1);
      WindowSize(occ, from, end - 1);
      forall j | j in Window(occ, from, end) ensures j == last || j in Window(occ, from, end - 1) {
        if Rank(occ, j) == end - 1 {
          RankInjective(occ, j, last);
        }
      }
      assert Window(occ, from, end) == Window(occ, from, end - 1) + {last};
    }
  }

  /** The popcount of a key set is the size of the map. */
  lemma MemberCount<T>(occ: Bits, m: map<nat, T>)
    requires Members(occ, m)
    ensures Count(occ) == |m|
  {
    WindowSize(occ, 0, Count(occ));
    forall i | i in m ensures i in Window(occ, 0, Count(occ)) {
      RankBelowCount(occ, i);
    }
    assert m.Keys == Window(occ, 0, Count(occ));
  }

  /** A slot is inside a live run exactly when its rank is in the run's window. */
  lemma RunWindow(live: Bits, from: nat, end: nat, p: nat)
    requires from <= end <= |live| && p < |live| && live[p]
    ensures from <= p < end <==> Rank(live, from) <= Rank(live, p) < Rank(live, end)
  {
    if p < from {
      RankMonotone(live, p, from);
    } else {
      RankMonotone(live, from, p);
    }
    if p < end {
      RankMonotone(live, p, end);
    } else {
      RankMonotone(live, end, p);
    }
  }

  /** When exactly the elements of some ranks change slots, that many move. */
  lemma MovedWindow<T>(b: Block<T>, b': Block<T>, from: nat, end: nat)
    requires |b'.occupancy| == |b.occupancy| && from <= end <= Count(b.occupancy)
    requires Count(b.occupancy) == Count(b.live) && Count(b'.occupancy) == Count(b'.live)
    requires forall j :: 0 <= j < |b.occupancy| && b.occupancy[j] ==>
      b'.occupancy[j] && (SlotOf(b', j) != SlotOf(b, j) <==> from <= Rank(b.occupancy, j) < end)
    ensures Moves(b, b', end - from)
  {
    assert Moved(b, b') == Window(b.occupancy, from, end);
    WindowSize(b.occupancy, from, end);
  }

  lemma PairedSlot<T>(b: Block<T>, j: nat, q: nat)
    requires j < |b.occupancy| && q < |b.live| && Paired(b, j, q) && Count(b.occupancy) == Count(b.live)
    ensures SlotOf(b, j) == q
  {
    PosRank(b.live, q);
  }

  /** Writing into a hole moves nothing. */
  lemma FilledMoves<T>(b: Block<T>, m: map<nat, T>, i: nat, p: nat, v: T)
    requires Holds(b, m) && i < |b.occupancy| && p < |b.slots| && !b.occupancy[i] && !b.live[p]
    requires Rank(b.occupancy, i) == Rank(b.live, p)
    ensures Holds(Filled(b, i, p, v), m[i := v]) && Moves(b, Filled(b, i, p, v), 0)
  {
    FilledHolds(b, m, i, p, v);
    forall j | 0 <= j < |b.occupancy| && b.occupancy[j]
      ensures SlotOf(Filled(b, i, p, v), j) == SlotOf(b, j) {
      FilledPairs(b, i, p, v, j, SlotOf(b, j));
      PairedSlot(Filled(b, i, p, v), j, SlotOf(b, j));
    }
    assert Moved(b, Filled(b, i, p, v)) == {};
  }

  lemma SlidDownRank<T>(b: Block<T>, hole: nat, hi: nat)
    requires hole < hi <= |b.slots| <= |b.live| && !b.live[hole] && Full(b.live, hole + 1, hi)
    ensures Rank(SlidDown(b, hole, hi).live, hi - 1) == Rank(b.live, hi)
  {
    RankUpdate(b.live, hole, true, hi - 1);
    RankUpdate(b.live[hole := true], hi - 1, false, hi - 1);
    RankStep(b.live, hi - 1);
  }

  /** Where one element ends up: a run's member one lower, any other where it was. */
  lemma SlideDownSlot<T>(b: Block<T>, m: map<nat, T>, i: nat, hole: nat, hi: nat, v: T, j: nat)
    requires Holds(b, m) && i < |b.occupancy| && !b.occupancy[i]
    requires hole < hi <= |b.slots| && !b.live[hole] && Full(b.live, hole + 1, hi)
    requires Rank(b.live, hi) == Rank(b.occupancy, i)
    requires j < |b.occupancy| && b.occupancy[j]
    ensures var b' := Filled(SlidDown(b, hole, hi), i, hi - 1, v);
            Holds(b', m[i := v]) && b'.occupancy[j] &&
            SlotOf(b', j) == (if hole < SlotOf(b, j) < hi then SlotOf(b, j) - 1 else SlotOf(b, j))
  {
    var s := SlidDown(b, hole, hi);
    SlidDownHolds(b, m, hole, hi);
    SlidDownRank(b, hole, hi);
    FilledHolds(s, m, i, hi - 1, v);
    var p := SlotOf(b, j);
    var q := if hole < p < hi then p - 1 else p;
    assert p != hole && DownSource(hole, hi, q) == p && q != hi - 1;
    SlidDownPairs(b, hole, hi, j, q);
    FilledPairs(s, i, hi - 1, v, j, q);
    PairedSlot(Filled(s, i, hi - 1, v), j, q);
  }

  /** Sliding a run down and writing above it moves exactly the run. */
  lemma SlideDownMoves<T>(b: Block<T>, m: map<nat, T>, i: nat, hole: nat, hi: nat, v: T)
    requires Holds(b, m) && i < |b.occupancy| && !b.occupancy[i]
    requires hole < hi <= |b.slots| && !b.live[hole] && Full(b.live, hole + 1, hi)
    requires Rank(b.live, hi) == Rank(b.occupancy, i)
    ensures var b' := Filled(SlidDown(b, hole, hi), i, hi - 1, v);
            Holds(b', m[i := v]) && Moves(b, b', hi - hole - 1)
  {
    var b' := Filled(SlidDown(b, hole, hi), i, hi - 1, v);
    SlideDownHolds(b, m, i, hole, hi, v);
    var from, end := Rank(b.live, hole + 1), Rank(b.live, hi);
    FullRank(b.live, hole + 1, hi);
    RankMonotone(b.live, hi, |b.live|);
    RankEnds(b.live);
    forall j | 0 <= j < |b.occupancy| && b.occupancy[j]
      ensures b'.occupancy[j] && (SlotOf(b', j) != SlotOf(b, j) <==> from <= Rank(b.occupancy, j) < end) {
      SlideDownSlot(b, m, i, hole, hi, v, j);
      RunWindow(b.live, hole + 1, hi, SlotOf(b, j));
    }
    MovedWindow(b, b', from, end);
  }

  lemma SlideDownHolds<T>(b: Block<T>, m: map<nat, T>, i: nat, hole: nat, hi: nat, v: T)
    requires Holds(b, m) && i < |b.occupancy| && !b.occupancy[i]
    requires hole < hi <= |b.slots| && !b.live[hole] && Full(b.live, hole + 1, hi)
    requires Rank(b.live, hi) == Rank(b.occupancy, i)
    ensures Holds(Filled(SlidDown(b, hole, hi), i, hi - 1, v), m[i := v])
  {
    SlidDownHolds(b, m, hole, hi);
    SlidDownRank(b, hole, hi);
    FilledHolds(SlidDown(b, hole, hi), m, i, hi - 1, v);
  }

  lemma SlideUpHolds<T>(b: Block<T>, m: map<nat, T>, i: nat, lo: nat, hole: nat, v: T)
    requires Holds(b, m) && i < |b.occupancy| && !b.occupancy[i]
    requires lo <= hole < |b.slots| && !b.live[hole] && Full(b.live, lo, hole)
    requires Rank(b.live, lo) == Rank(b.occupancy, i)
    ensures Holds(Filled(SlidUp(b, lo, hole), i, lo, v), m[i := v])
  {
    SlidUpHolds(b, m, lo, hole);
    RankUpdate(b.live, hole, true, lo);
    RankUpdate(b.live[hole := true], lo, false, lo);
    FilledHolds(SlidUp(b, lo, hole), m, i, lo, v);
  }

  /** The slid and filled block, as the shift leaves it: one bit more in each bitmap. */
  lemma SlidDownLayout<T>(b: Block<T>, i: nat, hole: nat, hi: nat, v: T)
    requires i < |b.occupancy| && hole + 1 < hi <= |b.slots| <= |b.live| && b.live[hi - 1]
    ensures Filled(SlidDown(b, hole, hi), i, hi - 1, v) ==
            Block(b.occupancy[i := true], b.live[hole := true],
                  b.slots[..hole] + b.slots[hole + 1..hi] + [Some(v)] + b.slots[hi..])
  {
    var f := Filled(SlidDown(b, hole, hi), i, hi - 1, v);
    assert f.live == b.live[hole := true];
    assert f.slots == b.slots[..hole] + b.slots[hole + 1..hi] + [Some(v)] + b.slots[hi..];
  }

  lemma SlidUpLayout<T>(b: Block<T>, i: nat, lo: nat, hole: nat, v: T)
    requires i < |b.occupancy| && lo < hole < |b.slots| <= |b.live| && b.live[lo]
    ensures Filled(SlidUp(b, lo, hole), i, lo, v) ==
            Block(b.occupancy[i := true], b.live[hole := true],
                  b.slots[..lo] + [Some(v)] + b.slots[lo..hole] + b.slots[hole + 1..])
  {
    var f := Filled(SlidUp(b, lo, hole), i, lo, v);
    assert f.live == b.live[hole := true];
    assert f.slots == b.slots[..lo] + [Some(v)] + b.slots[lo..hole] + b.slots[hole + 1..];
  }

  /** Sliding a run up and writing below it moves exactly the run. */
  lemma SlideUpMoves<T>(b: Block<T>, m: map<nat, T>, i: nat, lo: nat, hole: nat, v: T)
    requires Holds(b, m) && i < |b.occupancy| && !b.occupancy[i]
    requires lo <= hole < |b.slots| && !b.live[hole] && Full(b.live, lo, hole)
    requires Rank(b.live, lo) == Rank(b.occupancy, i)
    ensures var b' := Filled(SlidUp(b, lo, hole), i, lo, v);
            Holds(b', m[i := v]) && Moves(b, b', hole - lo)
  {
    var s := SlidUp(b, lo, hole);
    SlideUpHolds(b, m, i, lo, hole, v);
    var b' := Filled(s, i, lo, v);
    var from, end := Rank(b.live, lo), Rank(b.live, hole);
    FullRank(b.live, lo, hole);
    RankMonotone(b.live, hole, |b.live|);
    RankEnds(b.live);
    forall j | 0 <= j < |b.occupancy| && b.occupancy[j]
      ensures SlotOf(b', j) != SlotOf(b, j) <==> from <= Rank(b.occupancy, j) < end {
      var p := SlotOf(b, j);
      var q := if lo <= p < hole then p + 1 else p;
      assert p != hole && UpSource(lo, hole, q) == p;
      SlidUpPairs(b, lo, hole, j, q);
      FilledPairs(s, i, lo, v, j, q);
      PairedSlot(b', j, q);
      RunWindow(b.live, lo, hole, p);
    }
    MovedWindow(b, b', from, end);
  }
}
