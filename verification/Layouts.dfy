/** Gapped layouts: logical indices kept in rank order in physical slots, with holes between. */
module Layouts {
  import opened Wrappers
  import opened Bitmaps

  /** A block's header and element slots. */
  datatype Block<T> = Block(occupancy: Bits, live: Bits, slots: seq<Option<T>>)

  /** The word is the key set of the map. */
  ghost predicate Members<T>(occ: Bits, m: map<nat, T>) {
    forall i :: i in m <==> 0 <= i < |occ| && occ[i]
  }


  /**
   * The block stores the map `m`: membership is `occupancy`, the filled slots are the `live` ones
   * below the capacity, and the element of rank `r` sits in the live slot of rank `r`.
   */
  ghost predicate Holds<T>(b: Block<T>, m: map<nat, T>) {
    |b.live| == |b.occupancy| && |b.slots| <= |b.live| && Count(b.occupancy) == Count(b.live) &&
    (forall p :: 0 <= p < |b.live| && b.live[p] ==> p < |b.slots|) &&
    (forall p :: 0 <= p < |b.slots| ==> (b.slots[p].Some? <==> b.live[p])) &&
    Members(b.occupancy, m) &&
    (forall i, p :: 0 <= i < |b.occupancy| && 0 <= p < |b.slots| && Paired(b, i, p) ==> b.slots[p] == Some(m[i]))
  }

  /** The element of index `i` belongs in slot `p`. */
  ghost predicate Paired<T>(b: Block<T>, i: nat, p: nat)
    requires i < |b.occupancy| && p < |b.live|
  {
    b.occupancy[i] && b.live[p] && Rank(b.occupancy, i) == Rank(b.live, p)
  }

  /** The slot of a present index: `select(live, rank(occupancy, i))`. */
  ghost function SlotOf<T>(b: Block<T>, i: nat): nat
    requires i < |b.occupancy| && b.occupancy[i] && Count(b.occupancy) == Count(b.live)
  {
    RankBelowCount(b.occupancy, i);
    Pos(b.live, Rank(b.occupancy, i))
  }

  /** Lookup through ranks agrees with the map. */
  lemma SlotHolds<T>(b: Block<T>, m: map<nat, T>, i: nat)
    requires Holds(b, m) && i in m
    ensures SlotOf(b, i) < |b.slots| && b.slots[SlotOf(b, i)] == Some(m[i])
  {
    assert Paired(b, i, SlotOf(b, i));
  }

  // ----- filling and emptying one slot

  ghost function Filled<T>(b: Block<T>, i: nat, p: nat, v: T): Block<T>
    requires i < |b.occupancy| && p < |b.slots| && p < |b.live|
  {
    Block(b.occupancy[i := true], b.live[p := true], b.slots[p := Some(v)])
  }

  ghost function Emptied<T>(b: Block<T>, i: nat, p: nat): Block<T>
    requires i < |b.occupancy| && p < |b.slots| && p < |b.live|
  {
    Block(b.occupancy[i := false], b.live[p := false], b.slots[p := None])
  }

  /** A new pair of equal rank keeps every old pair paired. */
  lemma FilledPairs<T>(b: Block<T>, i: nat, p: nat, v: T, j: nat, q: nat)
    requires i < |b.occupancy| && p < |b.slots| <= |b.live| && !b.occupancy[i] && !b.live[p]
    requires Rank(b.occupancy, i) == Rank(b.live, p)
    requires j < |b.occupancy| && q < |b.live|
    ensures Paired(Filled(b, i, p, v), j, q) <==> (j == i && q == p) || Paired(b, j, q)
  {
    RankUpdate(b.occupancy, i, true, j);
    RankUpdate(b.live, p, true, q);
    OneSide(b.occupancy, i, j);
    OneSide(b.live, p, q);
  }

  /** Which side of `i` a set bit lies on shows in its rank. */
  lemma OneSide(b: Bits, i: nat, j: nat)
    requires i < |b| && j < |b|
    ensures j <= i && b[j] && j != i ==> Rank(b, j) < Rank(b, i)
    ensures i <= j ==> Rank(b, i) <= Rank(b, j)
    ensures i < j && b[i] ==> Rank(b, i) < Rank(b, j)
  {
    if j <= i {
      RankMonotone(b, j, i);
    }
    if i <= j {
      RankMonotone(b, i, j);
    }
  }

  /** Writing a new element into a hole of the right rank stores it and keeps the rest. */
  lemma FilledHolds<T>(b: Block<T>, m: map<nat, T>, i: nat, p: nat, v: T)
    requires Holds(b, m) && i < |b.occupancy| && p < |b.slots| && !b.occupancy[i] && !b.live[p]
    requires Rank(b.occupancy, i) == Rank(b.live, p)
    ensures Holds(Filled(b, i, p, v), m[i := v])
  {
    var f := Filled(b, i, p, v);
    CountUpdate(b.occupancy, i, true);
    CountUpdate(b.live, p, true);
    forall j, q | 0 <= j < |f.occupancy| && 0 <= q < |f.slots| && Paired(f, j, q)
      ensures f.slots[q] == Some(m[i := v][j]) {
      FilledPairs(b, i, p, v, j, q);
    }
  }

  lemma EmptiedPairs<T>(b: Block<T>, i: nat, p: nat, j: nat, q: nat)
    requires i < |b.occupancy| && p < |b.slots| <= |b.live| && Paired(b, i, p)
    requires j < |b.occupancy| && q < |b.live|
    ensures Paired(Emptied(b, i, p), j, q) <==> Paired(b, j, q) && j != i
  {
    RankUpdate(b.occupancy, i, false, j);
    RankUpdate(b.live, p, false, q);
    OneSide(b.occupancy, i, j);
    OneSide(b.live, p, q);
    if q == p && b.occupancy[j] && Rank(b.occupancy, j) == Rank(b.live, q) {
      RankInjective(b.occupancy, i, j);
    }
  }

  /** Emptying a slot removes its index and keeps the rest. */
  lemma EmptiedHolds<T>(b: Block<T>, m: map<nat, T>, i: nat, p: nat)
    requires Holds(b, m) && i < |b.occupancy| && p < |b.slots| && Paired(b, i, p)
    ensures Holds(Emptied(b, i, p), m - {i})
  {
    var e := Emptied(b, i, p);
    CountUpdate(b.occupancy, i, false);
    CountUpdate(b.live, p, false);
    forall j, q | 0 <= j < |e.occupancy| && 0 <= q < |e.slots| && Paired(e, j, q)
      ensures e.slots[q] == Some((m - {i})[j]) {
      EmptiedPairs(b, i, p, j, q);
      assert b.live[q] && q != p;
    }
  }

  /** Removal moves nothing: the ranks of the shrunken bitmaps name every other element's old slot. */
  lemma RemovalMovesNothing<T>(b: Block<T>, m: map<nat, T>, i: nat, j: nat)
    requires Holds(b, m) && i in m && j in m && j != i
    ensures var e := Emptied(b, i, SlotOf(b, i));
            Count(e.occupancy) == Count(e.live) && e.occupancy[j] && SlotOf(e, j) == SlotOf(b, j)
  {
    var p := SlotOf(b, i);
    var e := Emptied(b, i, p);
    SlotHolds(b, m, i);
    EmptiedHolds(b, m, i, p);
    EmptiedPairs(b, i, p, j, SlotOf(b, j));
    PosRank(e.live, SlotOf(b, j));
  }
}
