/** Rebuilding a block in a new set of slots, with or without one more element. */
module Respreading {
  import opened Wrappers
  import opened Bitmaps
  import opened Layouts
  import opened Cursors

  /** What the live slots hold, in rank order. */
  ghost function Elements<T>(live: Bits, slots: seq<Option<T>>): (s: seq<Option<T>>)
    requires forall p :: 0 <= p < |live| && live[p] ==> p < |slots|
    ensures |s| == Count(live)
    ensures forall r :: 0 <= r < |s| ==> s[r] == slots[Pos(live, r)]
  {
    seq(Count(live), r requires 0 <= r < Count(live) => slots[Pos(live, r)])
  }

  /** The element of a rank. */
  lemma ElementAt<T>(b: Block<T>, m: map<nat, T>, j: nat)
    requires Holds(b, m) && j in m
    ensures Rank(b.occupancy, j) < Count(b.live) && Elements(b.live, b.slots)[Rank(b.occupancy, j)] == Some(m[j])
  {
    SlotHolds(b, m, j);
    RankBelowCount(b.occupancy, j);
  }

  /** The first `n` live slots are filled from `source`, and nothing else is. */
  ghost predicate FilledBy<T>(live: Bits, slots: seq<Option<T>>, n: nat, source: seq<Option<T>>) {
    |slots| <= |live| && (forall p :: 0 <= p < |live| && live[p] ==> p < |slots|) &&
    n <= |source| == Count(live) &&
    (forall p :: 0 <= p < |slots| ==> (slots[p].Some? <==> live[p] && Rank(live, p) < n)) &&
    (forall r :: 0 <= r < n ==> slots[Pos(live, r)] == source[r])
  }

  /** One more slot filled, in rank order. */
  lemma FillNext<T>(live: Bits, slots: seq<Option<T>>, n: nat, source: seq<Option<T>>)
    requires FilledBy(live, slots, n, source) && n < Count(live) && source[n].Some?
    ensures Pos(live, n) < |slots| && FilledBy(live, slots[Pos(live, n) := source[n]], n + 1, source)
  {
    var q := Pos(live, n);
    var s := slots[q := source[n]];
    forall p | 0 <= p < |s| ensures s[p].Some? <==> live[p] && Rank(live, p) < n + 1 {
      if live[p] && Rank(live, p) == n {
        RankInjective(live, p, q);
      }
    }
    forall r | 0 <= r < n + 1 ensures s[Pos(live, r)] == source[r] {
      if r < n {
        PosAscends(live, r, n);
      }
    }
  }

  /** A filled block stores the map whose elements were its source. */
  lemma FilledStores<T>(occ: Bits, live: Bits, slots: seq<Option<T>>, source: seq<Option<T>>, m: map<nat, T>)
    requires |occ| == |live| && Count(occ) == Count(live) && FilledBy(live, slots, Count(live), source)
    requires Members(occ, m)
    requires forall i :: 0 <= i < |occ| && occ[i] ==> Rank(occ, i) < |source| && source[Rank(occ, i)] == Some(m[i])
    ensures Holds(Block(occ, live, slots), m)
  {
    var c := Block(occ, live, slots);
    forall p | 0 <= p < |slots| ensures slots[p].Some? <==> live[p] {
      if live[p] {
        RankBelowCount(live, p);
      }
    }
    forall j, q | 0 <= j < |c.occupancy| && 0 <= q < |c.slots| && Paired(c, j, q)
      ensures c.slots[q] == Some(m[j]) {
      PosRank(live, q);
    }
  }

  /** Refilling rank by rank keeps the map. */
  lemma RespreadHolds<T>(b: Block<T>, m: map<nat, T>, live: Bits, slots: seq<Option<T>>)
    requires Holds(b, m) && |live| == |b.live| && Count(live) == Count(b.live)
    requires FilledBy(live, slots, Count(live), Elements(b.live, b.slots))
    ensures Holds(Block(b.occupancy, live, slots), m)
  {
    forall j | 0 <= j < |b.occupancy| && b.occupancy[j]
      ensures Rank(b.occupancy, j) < Count(live) && Elements(b.live, b.slots)[Rank(b.occupancy, j)] == Some(m[j]) {
      ElementAt(b, m, j);
    }
    FilledStores(b.occupancy, live, slots, Elements(b.live, b.slots), m);
  }

  /** The old elements with the new one at its rank. */
  ghost function WithNew<T>(old': seq<Option<T>>, rank: nat, v: T): (s: seq<Option<T>>)
    requires rank <= |old'|
    ensures |s| == |old'| + 1 && s[rank] == Some(v)
    ensures forall k :: 0 <= k < rank ==> s[k] == old'[k]
    ensures forall k :: rank < k < |s| ==> s[k] == old'[k - 1]
  {
    seq(|old'| + 1, k requires 0 <= k < |old'| + 1 =>
      if k < rank then old'[k] else if k == rank then Some(v) else old'[k - 1])
  }

  /** The rank in the grown block of a member of the old one, or of the new index. */
  lemma WithNewAt<T>(b: Block<T>, m: map<nat, T>, i: nat, v: T, j: nat)
    requires Holds(b, m) && i < |b.occupancy| && !b.occupancy[i] && j in m[i := v]
    ensures Rank(b.occupancy, i) <= Count(b.live) && j < |b.occupancy|
    ensures Rank(b.occupancy[i := true], j) < Count(b.live) + 1
    ensures WithNew(Elements(b.live, b.slots), Rank(b.occupancy, i), v)[Rank(b.occupancy[i := true], j)] == Some(m[i := v][j])
  {
    RankMonotone(b.occupancy, i, |b.occupancy|);
    RankEnds(b.occupancy);
    RankUpdate(b.occupancy, i, true, j);
    OneSide(b.occupancy, i, j);
    if j != i {
      ElementAt(b, m, j);
    }
  }

  /** Refilling with the new element at its rank stores it and keeps the rest. */
  lemma InsertedHolds<T>(b: Block<T>, m: map<nat, T>, i: nat, v: T, live: Bits, slots: seq<Option<T>>)
    requires Holds(b, m) && i < |b.occupancy| && !b.occupancy[i]
    requires |live| == |b.live| && Count(live) == Count(b.live) + 1
    requires Rank(b.occupancy, i) <= Count(b.live)
    requires FilledBy(live, slots, Count(live), WithNew(Elements(b.live, b.slots), Rank(b.occupancy, i), v))
    ensures Holds(Block(b.occupancy[i := true], live, slots), m[i := v])
  {
    var occ, source := b.occupancy[i := true], WithNew(Elements(b.live, b.slots), Rank(b.occupancy, i), v);
    CountUpdate(b.occupancy, i, true);
    forall j | 0 <= j < |occ| && occ[j]
      ensures Rank(occ, j) < Count(live) && source[Rank(occ, j)] == Some(m[i := v][j]) {
      WithNewAt(b, m, i, v, j);
    }
    FilledStores(occ, live, slots, source, m[i := v]);
  }

  // ----- the copy loops

  /** Writes the next element, in rank order. */
  method WriteNext<T>(dst: array<Option<T>>, p: nat, x: Option<T>, ghost live: Bits, ghost n: nat, ghost source: seq<Option<T>>)
    requires FilledBy(live, dst[..], n, source) && n < Count(live) && p == Pos(live, n) && x == source[n] && x.Some?
    modifies dst
    ensures FilledBy(live, dst[..], n + 1, source)
  {
    FillNext(live, dst[..], n, source);
    dst[p] := x;
  }

  /** Moves one element from its old slot to its new one. */
  method MoveRank<T>(dst: array<Option<T>>, from: nat, into: nat, src: array<Option<T>>, ghost live: Bits,
                     ghost newLive: Bits, ghost n: nat)
    requires forall p :: 0 <= p < |live| && live[p] ==> p < src.Length && src[p].Some?
    requires dst != src && FilledBy(newLive, dst[..], n, Elements(live, src[..])) && n < Count(newLive) == Count(live)
    requires from == Pos(live, n) && into == Pos(newLive, n)
    modifies dst
    ensures FilledBy(newLive, dst[..], n + 1, Elements(live, src[..]))
  {
    WriteNext(dst, into, src[from], newLive, n, Elements(live, src[..]));
  }

  /** Copies the r-th live element into the r-th new slot, walking both bitmaps together. */
  method Refill<T>(src: array<Option<T>>, live: Bits, newLive: Bits, newCap: nat) returns (dst: array<Option<T>>)
    requires forall p :: 0 <= p < |live| && live[p] ==> p < src.Length && src[p].Some?
    requires newCap <= |newLive| && Count(newLive) == Count(live)
    requires forall p :: newCap <= p < |newLive| ==> !newLive[p]
    ensures fresh(dst) && dst.Length == newCap
    ensures FilledBy(newLive, dst[..], Count(newLive), Elements(live, src[..]))
  {
    dst := new Option<T>[newCap](_ => None);
    var oldBits := new BitIter(live);
    var newBits := new BitIter(newLive);
    ghost var n: nat := 0;
    while true
      modifies dst, oldBits, newBits
      invariant oldBits.Drawn(live, n) && newBits.Drawn(newLive, n)
      invariant FilledBy(newLive, dst[..], n, Elements(live, src[..]))
      decreases Count(live) - n
    {
      var from := oldBits.Draw(live, n);
      if from.None? {
        break;
      }
      var into := newBits.Draw(newLive, n);
      if into.None? {
        break;
      }
      MoveRank(dst, from.value, into.value, src, live, newLive, n);
      n := n + 1;
    }
  }

  /** How many old elements are taken before the rank `nr` of the grown block is filled. */
  function Taken(nr: nat, newRank: nat): nat {
    if nr <= newRank then nr else nr - 1
  }

  /** Fills rank `nr` of the grown block: the new value at its rank, else the next old element. */
  method FillRank<T>(dst: array<Option<T>>, into: nat, nr: nat, newRank: nat, v: T, oldSlots: BitIter,
                     src: array<Option<T>>, ghost live: Bits, ghost newLive: Bits)
    requires forall p :: 0 <= p < |live| && live[p] ==> p < src.Length && src[p].Some?
    requires newRank <= Count(live) && nr <= Count(live) && oldSlots.Drawn(live, Taken(nr, newRank)) && dst != src
    requires FilledBy(newLive, dst[..], nr, WithNew(Elements(live, src[..]), newRank, v)) && nr < Count(newLive)
    requires into == Pos(newLive, nr)
    modifies dst, oldSlots
    ensures oldSlots.Drawn(live, Taken(nr + 1, newRank))
    ensures FilledBy(newLive, dst[..], nr + 1, WithNew(Elements(live, src[..]), newRank, v))
  {
    ghost var source := WithNew(Elements(live, src[..]), newRank, v);
    if nr == newRank {
      WriteNext(dst, into, Some(v), newLive, nr, source);
    } else {
      var from := oldSlots.Draw(live, Taken(nr, newRank));
      WriteNext(dst, into, src[from.value], newLive, nr, source);
    }
  }

  /** Fills each new slot in rank order: the inserted rank takes the value, the others the next old element. */
  method RefillWith<T>(src: array<Option<T>>, live: Bits, newRank: nat, v: T, newLive: Bits, newCap: nat)
    returns (dst: array<Option<T>>)
    requires forall p :: 0 <= p < |live| && live[p] ==> p < src.Length && src[p].Some?
    requires newCap <= |newLive| && Count(newLive) == Count(live) + 1 && newRank <= Count(live)
    requires forall p :: newCap <= p < |newLive| ==> !newLive[p]
    ensures fresh(dst) && dst.Length == newCap
    ensures FilledBy(newLive, dst[..], Count(newLive), WithNew(Elements(live, src[..]), newRank, v))
  {
    dst := new Option<T>[newCap](_ => None);
    var oldSlots := new BitIter(live);
    var newBits := new BitIter(newLive);
    var nr: nat := 0;
    while true
      modifies dst, oldSlots, newBits
      invariant newBits.Drawn(newLive, nr) && oldSlots.Drawn(live, Taken(nr, newRank))
      invariant FilledBy(newLive, dst[..], nr, WithNew(Elements(live, src[..]), newRank, v))
      decreases Count(newLive) - nr
    {
      var into := newBits.Draw(newLive, nr);
      if into.None? {
        break;
      }
      FillRank(dst, into.value, nr, newRank, v, oldSlots, src, live, newLive);
      nr := nr + 1;
    }
  }
}
