/** The gapped sparse array: a block of slots with holes, indexed through two bitmaps of equal count. */
module Gapped {
  import opened Wrappers
  import opened Bitmaps
  import opened Layouts
  import opened Placement
  import opened Cheapest
  import opened Cursors
  import opened Spreading
  import opened Respreading
  import opened Draining

  /** The machine's largest index; every arity is far below it. */
  const USIZE_MAX: nat := 0xFFFF_FFFF

  function SaturatingAdd(a: nat, b: nat): nat {
    if a + b > USIZE_MAX then USIZE_MAX else a + b
  }

  /** A block for `w` logical indices that stores `m`, in a power-of-two number of slots. */
  ghost predicate Sized<T>(w: nat, b: Block<T>, m: map<nat, T>) {
    |b.occupancy| == |b.live| == w && Holds(b, m) && IsPow2(|b.slots|)
  }

  /** The elements of a block are spread evenly over its slots. */
  ghost predicate Even<T>(b: Block<T>) {
    Count(b.live) <= |b.slots| && EvenlySpread(b.live, Count(b.live), |b.slots|)
  }

  lemma CountFits<T>(b: Block<T>, m: map<nat, T>)
    requires Holds(b, m)
    ensures Count(b.occupancy) == Count(b.live) <= |b.slots|
  {
    TopClear(b, m);
    RankMonotone(b.live, 0, |b.slots|);
    RankEnds(b.live);
  }

  /** The popcount is the size of the map. */
  lemma CountIsSize<T>(b: Block<T>, m: map<nat, T>)
    requires Holds(b, m)
    ensures Count(b.occupancy) == Count(b.live) == |m|
  {
    MemberCount(b.occupancy, m);
  }

  lemma FreshHolds<T>(w: nat, slots: seq<Option<T>>, m: map<nat, T>)
    requires |slots| <= w && (forall p :: 0 <= p < |slots| ==> slots[p].None?) && m == map[]
    ensures Holds(Block(Zero(w), Zero(w), slots), m)
  {
    CountClear(Zero(w));
  }

  lemma SingleHolds<T>(w: nat, i: nat, v: T)
    requires i < w
    ensures Holds(Block(OneBit(w, i), OneBit(w, 0), [Some(v)]), map[i := v])
  {
    var b := Block(Zero(w), Zero(w), [None]);
    CountClear(Zero(w));
    var m: map<nat, T> := map[];
    CountClear(Zero(w)[..i]);
    CountClear(Zero(w)[..0]);
    FilledHolds(b, m, i, 0, v);
  }

  lemma OverwrittenHolds<T>(b: Block<T>, m: map<nat, T>, i: nat, v: T)
    requires Holds(b, m) && i in m
    ensures SlotOf(b, i) < |b.slots|
    ensures Holds(Block(b.occupancy, b.live, b.slots[SlotOf(b, i) := Some(v)]), m[i := v])
  {
    SlotHolds(b, m, i);
    var p := SlotOf(b, i);
    var c := Block(b.occupancy, b.live, b.slots[p := Some(v)]);
    forall j, q | 0 <= j < |c.occupancy| && 0 <= q < |c.slots| && Paired(c, j, q)
      ensures c.slots[q] == Some(m[i := v][j]) {
      assert Paired(b, j, q);
      if q == p {
        RankInjective(b.occupancy, i, j);
      } else if j == i {
        RankInjective(b.live, p, q);
      }
    }
  }

  function Max(a: nat, b: nat): nat {
    if a < b then b else a
  }

  /** A word with a clear bit is not full. */
  lemma SomeAbsent(b: Bits, i: nat)
    requires i < |b| && !b[i]
    ensures Count(b) < |b|
  {
    RankMonotone(b, 0, i);
    RankStep(b, i);
    RankMonotone(b, i + 1, |b|);
    RankEnds(b);
  }

  /** Saturation never shows: the capacity is capped at the arity anyway. */
  lemma SaturatedCap(w: nat, count: nat, n: nat)
    requires IsPow2(w) && w < USIZE_MAX
    ensures Pow2CapFor(w, SaturatingAdd(count, n)) == Pow2CapFor(w, count + n)
  {}

  /** Emptying a slot changes no other element's slot. */
  lemma RemovedMoves<T>(b: Block<T>, m: map<nat, T>, i: nat)
    requires Holds(b, m) && i in m
    ensures SlotOf(b, i) < |b.slots| && Moves(b, Emptied(b, i, SlotOf(b, i)), 0)
  {
    SlotHolds(b, m, i);
    EmptiedHolds(b, m, i, SlotOf(b, i));
    var e := Emptied(b, i, SlotOf(b, i));
    forall j | 0 <= j < |b.occupancy| && b.occupancy[j] && e.occupancy[j] ensures SlotOf(e, j) == SlotOf(b, j) {
      RemovalMovesNothing(b, m, i, j);
    }
    assert Moved(b, e) == {};
  }

  /** The slot of a rank below the count, which the search always finds. */
  method Select(live: Bits, r: nat) returns (p: nat)
    requires IsPow2(|live|) && 2 <= |live| && r < Count(live)
    ensures p == Pos(live, r)
  {
    var found := RawSelect(live, r);
    p := found.value;
  }

  /** The neighbours' slots: `-1` and the capacity stand for a missing one. */
  method NeighborBounds(occ: Bits, live: Bits, cap: nat, count: nat, i: nat) returns (lo: int, hi: nat)
    requires IsPow2(|live|) && 2 <= |live| && i < |occ| && count == Count(occ) == Count(live)
    ensures lo == Before(live, Rank(occ, i)) && hi == Behind(live, cap, Rank(occ, i))
  {
    RankMonotone(occ, i, |occ|);
    RankEnds(occ);
    var r := RankOf(occ, i);
    if r == 0 {
      lo := -1;
    } else {
      lo := Select(live, r - 1);
    }
    if r == count {
      hi := cap;
    } else {
      hi := Select(live, r);
    }
  }

  /** Overlapping copy of the run above the hole one slot down, then the write above it. */
  method CopyDown<T>(a: array<Option<T>>, hole: nat, hi: nat, v: T)
    requires hole < hi <= a.Length
    modifies a
    ensures a[..] == old(a[..hole]) + old(a[hole + 1..hi]) + [Some(v)] + old(a[hi..])
  {
    forall q | hole <= q < hi - 1 {
      a[q] := a[q + 1];
    }
    a[hi - 1] := Some(v);
  }

  /** Overlapping copy of the run below the hole one slot up, then the write beneath it. */
  method CopyUp<T>(a: array<Option<T>>, lo: nat, hole: nat, v: T)
    requires lo <= hole < a.Length
    modifies a
    ensures a[..] == old(a[..lo]) + [Some(v)] + old(a[lo..hole]) + old(a[hole + 1..])
  {
    forall q | lo < q <= hole {
      a[q] := a[q - 1];
    }
    a[lo] := Some(v);
  }

  class GappedArray<T> {
    /** The arity: how many logical indices there are. */
    const w: nat
    /** The logical members; meaningful only while a block is allocated. */
    var occupancy: Bits
    /** The filled slots. */
    var live: Bits
    /** The block's element slots, `null` when unallocated. */
    var slots: array?<Option<T>>
    /** The plain map this array stands for. */
    ghost var contents: map<nat, T>

    ghost function Repr(): set<object>
      reads this
    {
      {this} + (if slots == null then {} else {slots})
    }

    ghost function Layout(): Block<T>
      requires slots != null
      reads this, slots
    {
      Block(occupancy, live, slots[..])
    }

    ghost predicate Valid()
      reads this, slots
    {
      IsPow2(w) && 2 <= w < USIZE_MAX &&
      if slots == null then contents == map[] else Sized(w, Layout(), contents)
    }

    function Capacity(): nat
      reads this, slots
    {
      if slots == null then 0 else slots.Length
    }

    /** The logical-membership bitmap. */
    function Bitmap(): (b: Bits)
      reads this, slots
      requires Valid()
      ensures |b| == w && forall i :: 0 <= i < w ==> (b[i] <==> i in contents)
    {
      if slots == null then Zero(w) else occupancy
    }

    constructor (arity: nat)
      requires IsPow2(arity) && 2 <= arity < USIZE_MAX
      ensures Valid() && w == arity && contents == map[] && Capacity() == 0 && fresh(Repr())
    {
      w := arity;
      occupancy, live := [], [];
      slots := null;
      contents := map[];
    }

    constructor WithCapacity(arity: nat, n: nat)
      requires IsPow2(arity) && 2 <= arity < USIZE_MAX
      ensures Valid() && w == arity && contents == map[] && fresh(Repr())
      ensures Capacity() == Pow2CapFor(arity, n)
    {
      w := arity;
      occupancy, live := [], [];
      slots := null;
      contents := map[];
      new;
      var cap := Pow2CapFor(arity, n);
      if cap > 0 {
        Allocate(cap);
      }
    }

    /** The slot of a present index, by rank and select. */
    method Locate(i: nat) returns (p: nat)
      requires Valid() && slots != null && i < w && occupancy[i]
      ensures p == SlotOf(Layout(), i) && p < slots.Length && slots[p] == Some(contents[i]) && live[p]
    {
      var r := RankOf(occupancy, i);
      RankBelowCount(occupancy, i);
      p := Select(live, r);
      SlotHolds(Layout(), contents, i);
    }

    method Get(i: nat) returns (r: Option<T>)
      requires Valid() && i < w
      ensures r == if i in contents then Some(contents[i]) else None
    {
      if slots == null {
        return None;
      }
      if !occupancy[i] {
        return None;
      }
      var p := Locate(i);
      r := slots[p];
    }

    // ----- opening a slot

    method WriteIntoHole(i: nat, hole: nat, v: T)
      requires Valid() && slots != null && i < w && !occupancy[i] && hole < slots.Length && !live[hole]
      requires Rank(occupancy, i) == Rank(live, hole)
      modifies this, slots
      ensures Valid() && slots == old(slots) && contents == old(contents)[i := v]
      ensures Layout() == Filled(old(Layout()), i, hole, v) && Moves(old(Layout()), Layout(), 0)
    {
      FilledMoves(Layout(), contents, i, hole, v);
      slots[hole] := Some(v);
      occupancy, live := occupancy[i := true], live[hole := true];
      contents := contents[i := v];
    }

    /** Shifts the run above the hole down by one and writes above it. */
    method ShiftLeftAndWrite(i: nat, hole: nat, hi: nat, v: T)
      requires Valid() && slots != null && i < w && !occupancy[i]
      requires hole + 1 < hi <= slots.Length && !live[hole] && Full(live, hole + 1, hi)
      requires Rank(live, hi) == Rank(occupancy, i)
      modifies this, slots
      ensures Valid() && slots == old(slots) && contents == old(contents)[i := v]
      ensures Layout() == Filled(SlidDown(old(Layout()), hole, hi), i, hi - 1, v)
      ensures occupancy == old(occupancy)[i := true] && live == old(live)[hole := true]
      ensures Moves(old(Layout()), Layout(), hi - hole - 1)
    {
      SlideDownMoves(Layout(), contents, i, hole, hi, v);
      SlidDownLayout(Layout(), i, hole, hi, v);
      CopyDown(slots, hole, hi, v);
      occupancy, live := occupancy[i := true], live[hole := true];
      contents := contents[i := v];
    }

    /** Shifts the run below the hole up by one and writes beneath it. */
    method ShiftRightAndWrite(i: nat, hi: nat, hole: nat, v: T)
      requires Valid() && slots != null && i < w && !occupancy[i]
      requires hi < hole < slots.Length && !live[hole] && Full(live, hi, hole)
      requires Rank(live, hi) == Rank(occupancy, i)
      modifies this, slots
      ensures Valid() && slots == old(slots) && contents == old(contents)[i := v]
      ensures Layout() == Filled(SlidUp(old(Layout()), hi, hole), i, hi, v)
      ensures occupancy == old(occupancy)[i := true] && live == old(live)[hole := true]
      ensures Moves(old(Layout()), Layout(), hole - hi)
    {
      SlideUpMoves(Layout(), contents, i, hi, hole, v);
      SlidUpLayout(Layout(), i, hi, hole, v);
      CopyUp(slots, hi, hole, v);
      occupancy, live := occupancy[i := true], live[hole := true];
      contents := contents[i := v];
    }

    /**
     * Places an absent index given spare capacity: in a hole between its neighbours, else by the
     * cheaper of the two slides. The respread arm of the choice is never taken.
     */
    method PlaceAbsent(i: nat, v: T)
      requires Valid() && slots != null && i < w && !occupancy[i] && |contents| < slots.Length
      modifies this, slots
      ensures Valid() && slots == old(slots) && contents == old(contents)[i := v]
      ensures OpenedCheaply(old(Layout()), i, Layout()) && OpenedAt(old(Layout()), i, Layout())
    {
      CountIsSize(Layout(), contents);
      Neighbors(Layout(), contents, i);
      TopClear(Layout(), contents);
      var lo, hi := NeighborBounds(occupancy, live, slots.Length, Count(occupancy), i);
      var hole := RawNearestClearIn(live, lo + 1, hi);
      if hole.Some? {
        BetweenChosen(live, lo, hi, slots.Length);
        WriteIntoHole(i, hole.value, v);
        return;
      }
      Adjacent(live, lo, hi);
      SlideOpen(i, lo, hi, v);
    }

    /** Between adjacent neighbours: the cheaper slide opens the slot. */
    method SlideOpen(i: nat, lo: int, hi: nat, v: T)
      requires Valid() && slots != null && i < w && !occupancy[i] && Count(live) < slots.Length
      requires lo == Before(live, Rank(occupancy, i)) && hi == Behind(live, slots.Length, Rank(occupancy, i))
      requires -1 <= lo && hi == lo + 1 && hi <= slots.Length && Rank(live, hi) == Rank(occupancy, i)
      requires (lo >= 0 ==> live[lo]) && (hi < slots.Length ==> live[hi])
      modifies this, slots
      ensures Valid() && slots == old(slots) && contents == old(contents)[i := v]
      ensures OpenedCheaply(old(Layout()), i, Layout()) && OpenedAt(old(Layout()), i, Layout())
    {
      TopClear(Layout(), contents);
      var slide := PickSlide(live, lo, hi, slots.Length, Count(occupancy));
      if slide.Left? {
        OpenLeft(i, lo, hi, slide.hole, v);
      } else {
        OpenRight(i, lo, hi, slide.hole, v);
      }
    }

    method OpenLeft(i: nat, lo: int, hi: nat, hole: nat, v: T)
      requires Valid() && slots != null && i < w && !occupancy[i]
      requires lo == Before(live, Rank(occupancy, i)) && hi == Behind(live, slots.Length, Rank(occupancy, i))
      requires -1 <= lo && hi == lo + 1 && hi <= slots.Length && Rank(live, hi) == Rank(occupancy, i)
      requires lo >= 0 && live[lo] && LeftWins(live, lo, hi, slots.Length) && hole == NearestHoleLeft(live, lo).value.0
      modifies this, slots
      ensures Valid() && slots == old(slots) && contents == old(contents)[i := v]
      ensures OpenedCheaply(old(Layout()), i, Layout()) && OpenedAt(old(Layout()), i, Layout())
    {
      LeftChosen(live, lo, hi, slots.Length);
      LeftSlide(live, lo, hi, slots.Length);
      ShiftLeftAndWrite(i, hole, hi, v);
    }

    method OpenRight(i: nat, lo: int, hi: nat, hole: nat, v: T)
      requires Valid() && slots != null && i < w && !occupancy[i] && hi < slots.Length && live[hi]
      requires lo == Before(live, Rank(occupancy, i)) && hi == Behind(live, slots.Length, Rank(occupancy, i))
      requires -1 <= lo && hi == lo + 1 && hi <= slots.Length && Rank(live, hi) == Rank(occupancy, i)
      requires RightWins(live, lo, hi, slots.Length) && hole == NearestHoleRight(live, hi, slots.Length).value.0
      modifies this, slots
      ensures Valid() && slots == old(slots) && contents == old(contents)[i := v]
      ensures OpenedCheaply(old(Layout()), i, Layout()) && OpenedAt(old(Layout()), i, Layout())
    {
      RightChosen(live, lo, hi, slots.Length);
      RightSlide(live, lo, hi, slots.Length);
      ShiftRightAndWrite(i, hi, hole, v);
    }

    // ----- respreading

    /** Moves every element to its spread position in a new block of `newCap` slots. */
    method RebuildTo(newCap: nat)
      requires Valid() && slots != null && IsPow2(newCap) && |contents| <= newCap <= w
      modifies this
      ensures Valid() && contents == old(contents) && fresh(Repr() - {this})
      ensures slots != null && slots.Length == newCap && occupancy == old(occupancy) && Even(Layout())
    {
      CountIsSize(Layout(), contents);
      var newLive := SpreadLive(w, Count(occupancy), newCap);
      var dst := Refill(slots, live, newLive, newCap);
      RespreadHolds(Layout(), contents, newLive, dst[..]);
      live, slots := newLive, dst;
    }

    /** Moves every element, and the new one, to its spread position in a new block. */
    method RebuildWithInsert(i: nat, v: T, newCap: nat)
      requires Valid() && slots != null && i < w && !occupancy[i] && IsPow2(newCap) && |contents| < newCap <= w
      modifies this
      ensures Valid() && contents == old(contents)[i := v] && fresh(Repr() - {this})
      ensures slots != null && slots.Length == newCap && Even(Layout())
    {
      CountIsSize(Layout(), contents);
      var newOcc := occupancy[i := true];
      var newLive, dst := Regrow(w, slots, occupancy, live, i, v, newCap, contents);
      occupancy, live, slots := newOcc, newLive, dst;
      contents := contents[i := v];
    }

    // ----- the public operations

    /** Insert or overwrite, returning the displaced value. */
    method Insert(i: nat, v: T) returns (prev: Option<T>)
      requires Valid() && i < w
      modifies Repr()
      ensures Valid() && fresh(Repr() - old(Repr())) && contents == old(contents)[i := v]
      ensures prev == if i in old(contents) then Some(old(contents)[i]) else None
      ensures old(slots) == null ==> Capacity() == 1
      ensures old(slots) != null && i in old(contents) ==>
        slots == old(slots) && occupancy == old(occupancy) && live == old(live)
      ensures old(slots) != null && i !in old(contents) && |old(contents)| < old(Capacity()) ==>
        slots == old(slots) && OpenedCheaply(old(Layout()), i, Layout()) && OpenedAt(old(Layout()), i, Layout())
      ensures old(slots) != null && i !in old(contents) && |old(contents)| == old(Capacity()) ==>
        Capacity() == 2 * old(Capacity()) && Even(Layout())
    {
      if slots == null {
        occupancy, live := OneBit(w, i), OneBit(w, 0);
        slots := new Option<T>[1](_ => Some(v));
        assert slots[..] == [Some(v)];
        SingleHolds(w, i, v);
        contents := map[i := v];
        return None;
      }
      if occupancy[i] {
        var p := Locate(i);
        OverwrittenHolds(Layout(), contents, i, v);
        prev := slots[p];
        slots[p] := Some(v);
        contents := contents[i := v];
        return;
      }
      CountIsSize(Layout(), contents);
      CountFits(Layout(), contents);
      var count := Count(occupancy);
      if count == Capacity() {
        SomeAbsent(occupancy, i);
        FullDoubles(w, count);
        var newCap := Pow2CapFor(w, count + 1);
        RebuildWithInsert(i, v, newCap);
        return None;
      }
      PlaceAbsent(i, v);
      prev := None;
    }

    /** Removes an index, leaving a hole; nothing else moves. */
    method Remove(i: nat) returns (r: Option<T>)
      requires Valid() && i < w
      modifies this, slots
      ensures Valid() && contents == old(contents) - {i}
      ensures r == if i in old(contents) then Some(old(contents)[i]) else None
      ensures slots == old(slots) && (i !in old(contents) ==> occupancy == old(occupancy) && live == old(live))
      ensures i in old(contents) ==> Moves(old(Layout()), Layout(), 0)
    {
      if slots == null {
        return None;
      }
      if !occupancy[i] {
        return None;
      }
      var p := Locate(i);
      RemovedMoves(Layout(), contents, i);
      EmptiedHolds(Layout(), contents, i, p);
      occupancy, live := occupancy[i := false], live[p := false];
      r := slots[p];
      slots[p] := None;
      contents := contents - {i};
    }

    /** Removes the only element, if there is exactly one. */
    method TakeOnlyChild() returns (r: Option<(nat, T)>)
      requires Valid()
      modifies this, slots
      ensures Valid() && slots == old(slots)
      ensures |old(contents)| != 1 ==> r == None && contents == old(contents)
      ensures |old(contents)| == 1 ==> r.Some? && old(contents) == map[r.value.0 := r.value.1] && contents == map[]
    {
      var bitmap := Bitmap();
      BitmapSize();
      if Count(bitmap) != 1 {
        return None;
      }
      var bits := new BitIter(bitmap);
      var only := bits.Next();
      assert only.value in contents;
      OnlyMember(contents, only.value);
      var v := Remove(only.value);
      r := Some((only.value, v.value));
    }

    /** Room for `n` more elements, in a power of two capped at the arity; the sum saturates. */
    method Reserve(n: nat)
      requires Valid()
      modifies this
      ensures Valid() && contents == old(contents) && fresh(Repr() - old(Repr()))
      ensures Capacity() == Max(old(Capacity()), Pow2CapFor(w, |contents| + n))
      ensures Capacity() == old(Capacity()) ==> unchanged(this)
      ensures Capacity() > old(Capacity()) ==> Even(Layout())
    {
      BitmapSize();
      var count := Count(Bitmap());
      var want := SaturatingAdd(count, n);
      var target := Pow2CapFor(w, want);
      SaturatedCap(w, count, n);
      if target <= Capacity() {
        return;
      }
      if slots != null {
        CountFits(Layout(), contents);
        RebuildTo(target);
      } else {
        Allocate(target);
      }
    }

    /** Gives an unallocated array an empty block. */
    method Allocate(cap: nat)
      requires Valid() && slots == null && IsPow2(cap) && cap <= w
      modifies this
      ensures Valid() && contents == map[] && slots != null && fresh(slots) && slots.Length == cap && Even(Layout())
    {
      CountClear(Zero(w));
      occupancy, live := Zero(w), Zero(w);
      slots := new Option<T>[cap](_ => None);
      FreshHolds(w, slots[..], contents);
    }

    /** The least capacity that holds the elements; unallocated when there are none. */
    method ShrinkToFit()
      requires Valid()
      modifies this
      ensures Valid() && contents == old(contents) && fresh(Repr() - old(Repr()))
      ensures Capacity() == Pow2CapFor(w, |contents|) <= old(Capacity())
      ensures Capacity() == old(Capacity()) ==> slots == old(slots) && live == old(live)
      ensures 0 < Capacity() < old(Capacity()) ==> Even(Layout())
    {
      BitmapSize();
      var count := Count(Bitmap());
      if count == 0 {
        slots := null;
        return;
      }
      CountFits(Layout(), contents);
      CapIsLeast(w, count, slots.Length);
      var target := Pow2CapFor(w, count);
      if target < Capacity() {
        RebuildTo(target);
      }
    }

    /** Drops every element and keeps the block. */
    method Clear() returns (ghost dropped: seq<T>)
      requires Valid()
      modifies this, slots
      ensures Valid() && contents == map[] && slots == old(slots)
      ensures old(slots) != null ==> AllDropped(dropped, old(occupancy), old(contents))
    {
      dropped := [];
      if slots == null {
        return;
      }
      ghost var before := Layout();
      var remaining := live;
      occupancy, live := Zero(w), Zero(w);
      contents := map[];
      dropped := DropLive(slots, remaining);
      DroppedAll(before, old(contents), dropped);
      FreshHolds(w, slots[..], contents);
    }

    lemma BitmapSize()
      requires Valid()
      ensures Count(Bitmap()) == |contents|
    {
      if slots == null {
        CountClear(Zero(w));
      } else {
        CountIsSize(Layout(), contents);
      }
    }
  }

  /** The respread block with one more element. */
  method Regrow<T>(w: nat, src: array<Option<T>>, occ: Bits, live: Bits, i: nat, v: T, newCap: nat, ghost m: map<nat, T>)
    returns (newLive: Bits, dst: array<Option<T>>)
    requires |occ| == |live| == w && Holds(Block(occ, live, src[..]), m) && i < w && !occ[i]
    requires Count(occ) < newCap <= w
    ensures fresh(dst) && dst.Length == newCap && |newLive| == w
    ensures Holds(Block(occ[i := true], newLive, dst[..]), m[i := v])
    ensures EvenlySpread(newLive, Count(occ) + 1, newCap)
  {
    CountUpdate(occ, i, true);
    newLive := SpreadLive(w, Count(occ) + 1, newCap);
    RankMonotone(occ, i, w);
    RankEnds(occ);
    RankUpdate(occ, i, true, i);
    var newRank := RankOf(occ[i := true], i);
    dst := RefillWith(src, live, newRank, v, newLive, newCap);
    InsertedHolds(Block(occ, live, src[..]), m, i, v, newLive, dst[..]);
  }

  /** Which way a run slides to open a slot, and to which hole. */
  datatype Slide = Left(hole: nat) | Right(hole: nat)

  /** The nearest hole at or below a slot; none below the missing one. */
  method FindHoleLeft(live: Bits, from: int) returns (r: Option<(nat, nat)>)
    requires -1 <= from < |live|
    ensures r == NearestHoleLeft(live, from)
  {
    if from < 0 {
      return None;
    }
    var hole := RawNearestClearAtOrBelow(live, from);
    r := if hole.None? then None else Some((hole.value, from - hole.value));
  }

  /** The nearest hole at or above a slot, below the capacity. */
  method FindHoleRight(live: Bits, from: nat, cap: nat) returns (r: Option<(nat, nat)>)
    requires from <= cap <= |live|
    ensures r == NearestHoleRight(live, from, cap)
  {
    var hole := RawNearestClearIn(live, from, cap);
    r := if hole.None? then None else Some((hole.value, hole.value - from));
  }

  /** The cheaper slide; respreading the whole block, at the price of all its elements, never wins. */
  method PickSlide(live: Bits, lo: int, hi: nat, cap: nat, count: nat) returns (s: Slide)
    requires -1 <= lo && hi == lo + 1 && hi <= cap <= |live| < USIZE_MAX
    requires count == Count(live) < cap && Rank(live, cap) == count
    ensures s.Left? ==> LeftWins(live, lo, hi, cap) && s.hole == NearestHoleLeft(live, lo).value.0
    ensures s.Right? ==> RightWins(live, lo, hi, cap) && s.hole == NearestHoleRight(live, hi, cap).value.0
    ensures Chosen(live, lo, hi, cap, s.hole) && (s.Left? <==> s.hole <= lo)
  {
    LeftBound(live, lo);
    RightBound(live, hi, cap);
    SomeHole(live, lo, hi, cap);
    var left := FindHoleLeft(live, lo);
    var right := FindHoleRight(live, hi, cap);
    var leftCost := if left.Some? then left.value.1 else USIZE_MAX;
    var rightCost := if right.Some? then right.value.1 else USIZE_MAX;
    if LeftWins(live, lo, hi, cap) {
      LeftChosen(live, lo, hi, cap);
    } else {
      RightChosen(live, lo, hi, cap);
    }
    if leftCost <= rightCost && leftCost <= count {
      s := Left(left.value.0);
    } else if rightCost <= count {
      s := Right(right.value.0);
    } else {
      assert false;
    }
  }
}
