/** Conversions between the fixed, packed and gapped forms, and equality across layouts. */
module Conversions {
  import opened Wrappers
  import opened Bitmaps
  import opened Layouts
  import opened Cursors
  import opened Spreading
  import opened Respreading
  import opened Packed
  import opened Gapped

  // ----- the fixed form: one optional value a slot

  /** The map a fixed array stands for. */
  ghost function MapOf<T>(fixed: seq<Option<T>>): (m: map<nat, T>)
    ensures forall i :: i in m <==> 0 <= i < |fixed| && fixed[i].Some?
    ensures forall i :: i in m ==> fixed[i] == Some(m[i])
  {
    map i: nat | i < |fixed| && fixed[i].Some? :: fixed[i].value
  }

  /** The fixed array of a map. */
  ghost function FixedOf<T>(w: nat, m: map<nat, T>): (fixed: seq<Option<T>>)
    ensures |fixed| == w
    ensures forall i :: 0 <= i < w ==> fixed[i] == if i in m then Some(m[i]) else None
  {
    seq(w, i requires 0 <= i < w => if i in m then Some(m[i]) else None)
  }

  /** The two are inverse. */
  lemma FixedRoundTrips<T>(w: nat, m: map<nat, T>, fixed: seq<Option<T>>)
    requires forall i :: i in m ==> i < w
    ensures MapOf(FixedOf(w, m)) == m && FixedOf(|fixed|, MapOf(fixed)) == fixed
  {}

  /** Pass one: which slots are occupied. */
  method Occupancy<T>(src: seq<Option<T>>) returns (occ: Bits)
    ensures |occ| == |src| && forall i :: 0 <= i < |src| ==> occ[i] == src[i].Some?
  {
    occ := Zero(|src|);
    for i := 0 to |src|
      invariant |occ| == |src| && forall j :: 0 <= j < |src| ==> occ[j] == (j < i && src[j].Some?)
    {
      if src[i].Some? {
        occ := occ[i := true];
      }
    }
  }

  lemma OccupiedElement<T>(occ: Bits, src: seq<Option<T>>, i: nat)
    requires |occ| == |src| && (forall j :: 0 <= j < |src| ==> occ[j] == src[j].Some?)
    requires i < |occ| && occ[i]
    ensures Rank(occ, i) < Count(occ) && Elements(occ, src)[Rank(occ, i)] == src[i]
  {
    PosRank(occ, i);
  }

  // ----- gapped

  /** Moves each element to its spread position in a block of the least fitting capacity. */
  method GappedFromFixed<T>(src: seq<Option<T>>) returns (g: GappedArray<T>)
    requires IsPow2(|src|) && 2 <= |src| < USIZE_MAX
    ensures fresh(g.Repr()) && g.Valid() && g.w == |src| && g.contents == MapOf(src)
    ensures g.Capacity() == Pow2CapFor(|src|, |MapOf(src)|) && (g.slots != null ==> Even(g.Layout()))
  {
    var occ := Occupancy(src);
    g := new GappedArray(|src|);
    OccupancySize(occ, src);
    var count := Count(occ);
    if count == 0 {
      return;
    }
    CountAtMost(occ);
    var cap := Pow2CapFor(|src|, count);
    var live := SpreadLive(|src|, count, cap);
    var dst := Spreaded(src, occ, live, count, cap);
    FillStores(occ, live, dst[..], src);
    g.occupancy, g.live, g.slots := occ, live, dst;
    g.contents := MapOf(src);
  }

  lemma CountAtMost(b: Bits)
    ensures Count(b) <= |b|
  {
    RankMonotone(b, 0, |b|);
    RankEnds(b);
  }

  lemma OccupancySize<T>(occ: Bits, src: seq<Option<T>>)
    requires |occ| == |src| && forall j :: 0 <= j < |src| ==> occ[j] == src[j].Some?
    ensures Count(occ) == |MapOf(src)|
  {
    var b := Block(occ, occ, src);
    FixedHolds(occ, src);
    CountIsSize(b, MapOf(src));
  }

  /** A fixed array is itself a layout: every element in the slot of its own index. */
  lemma FixedHolds<T>(occ: Bits, src: seq<Option<T>>)
    requires |occ| == |src| && forall j :: 0 <= j < |src| ==> occ[j] == src[j].Some?
    ensures Holds(Block(occ, occ, src), MapOf(src))
  {
    var b := Block(occ, occ, src);
    forall i, p | 0 <= i < |occ| && 0 <= p < |src| && Paired(b, i, p) ensures src[p] == Some(MapOf(src)[i]) {
      RankInjective(occ, i, p);
    }
  }

  lemma FillStores<T>(occ: Bits, live: Bits, slots: seq<Option<T>>, src: seq<Option<T>>)
    requires |occ| == |src| == |live| && forall j :: 0 <= j < |src| ==> occ[j] == src[j].Some?
    requires Count(live) == Count(occ) && FilledBy(live, slots, Count(live), Elements(occ, src))
    ensures Holds(Block(occ, live, slots), MapOf(src))
  {
    forall i | 0 <= i < |occ| && occ[i]
      ensures Rank(occ, i) < |Elements(occ, src)| && Elements(occ, src)[Rank(occ, i)] == Some(MapOf(src)[i]) {
      OccupiedElement(occ, src, i);
    }
    FilledStores(occ, live, slots, Elements(occ, src), MapOf(src));
  }

  /** Pass two: each element, by rank, to its spread position. */
  method Spreaded<T>(src: seq<Option<T>>, occ: Bits, live: Bits, count: nat, cap: nat) returns (dst: array<Option<T>>)
    requires |occ| == |src| == |live| && forall j :: 0 <= j < |src| ==> occ[j] == src[j].Some?
    requires 0 < count == Count(occ) == Count(live) <= cap <= |src| && Ranked(live, Spread(count, cap))
    requires forall p :: cap <= p < |live| ==> !live[p]
    ensures fresh(dst) && dst.Length == cap && FilledBy(live, dst[..], count, Elements(occ, src))
  {
    dst := new Option<T>[cap](_ => None);
    ghost var source := Elements(occ, src);
    var r: nat := 0;
    RankEnds(occ);
    for i := 0 to |src|
      invariant r == Rank(occ, i) && FilledBy(live, dst[..], r, source)
    {
      RankStep(occ, i);
      if src[i].Some? {
        OccupiedElement(occ, src, i);
        assert Spread(count, cap)[r] == SpreadPos(r, count, cap);
        WriteNext(dst, SpreadPos(r, count, cap), src[i], live, r, source);
        r := r + 1;
      }
    }
  }

  /** Zips the two bitmaps and moves each element to the slot of its index. */
  method FixedFromGapped<T>(g: GappedArray<T>) returns (out: array<Option<T>>)
    requires g.Valid()
    ensures fresh(out) && out[..] == FixedOf(g.w, g.contents)
  {
    if g.slots == null {
      out := new Option<T>[g.w](_ => None);
      return;
    }
    out := Refill(g.slots, g.live, g.occupancy, g.w);
    RefillIsFixed(g.Layout(), g.contents, out[..]);
  }

  lemma RefillIsFixed<T>(b: Block<T>, m: map<nat, T>, out: seq<Option<T>>)
    requires Holds(b, m) && |out| == |b.occupancy|
    requires FilledBy(b.occupancy, out, Count(b.occupancy), Elements(b.live, b.slots))
    ensures out == FixedOf(|out|, m)
  {
    forall i | 0 <= i < |out| ensures out[i] == FixedOf(|out|, m)[i] {
      if b.occupancy[i] {
        PosRank(b.occupancy, i);
        ElementAt(b, m, i);
      }
    }
  }

  // ----- packed

  /** Moves each element into the next dense slot. */
  method PackedFromFixed<T>(src: seq<Option<T>>) returns (p: PackedArray<T>)
    ensures fresh(p.Repr()) && p.Valid() && p.w == |src| && p.contents == MapOf(src)
  {
    var bitmap := Occupancy(src);
    p := new PackedArray(|src|);
    if IsZero(bitmap) {
      assert MapOf(src) == map[];
      return;
    }
    NoPositions(bitmap);
    var count := Count(bitmap);
    var dst := new Option<T>[count](_ => None);
    ghost var source := Dense(bitmap, MapOf(src));
    var rank: nat := 0;
    RankEnds(bitmap);
    for i := 0 to |src|
      invariant rank == Rank(bitmap, i) <= count && dst[..rank] == source[..rank]
    {
      RankStep(bitmap, i);
      if src[i].Some? {
        DenseAt(bitmap, MapOf(src), i);
        dst[rank] := src[i];
        rank := rank + 1;
      }
    }
    assert dst[..] == source;
    p.bitmap, p.slots := bitmap, dst;
    p.contents := MapOf(src);
  }

  /** Moves each element back to the slot of its index. */
  method FixedFromPacked<T>(p: PackedArray<T>) returns (out: array<Option<T>>)
    requires p.Valid()
    ensures fresh(out) && out[..] == FixedOf(p.w, p.contents)
  {
    if p.slots == null {
      out := new Option<T>[p.w](_ => None);
      return;
    }
    out := Unpack(p.bitmap, p.slots, p.contents);
  }

  /** The r-th element goes to the slot of the r-th member. */
  method Unpack<T>(bitmap: Bits, slots: array<Option<T>>, ghost m: map<nat, T>) returns (out: array<Option<T>>)
    requires Members(bitmap, m) && slots[..] == Dense(bitmap, m)
    ensures fresh(out) && out[..] == FixedOf(|bitmap|, m)
  {
    out := new Option<T>[|bitmap|](_ => None);
    var bits := new BitIter(bitmap);
    var rank: nat := 0;
    while true
      modifies bits, out
      invariant bits.Drawn(bitmap, rank) && FilledBy(bitmap, out[..], rank, slots[..])
      decreases Count(bitmap) - rank
    {
      var index := bits.Draw(bitmap, rank);
      if index.None? {
        break;
      }
      assert slots[rank] == slots[..][rank];
      WriteNext(out, index.value, slots[rank], bitmap, rank, slots[..]);
      rank := rank + 1;
    }
    DenseIsFixed(bitmap, m, out[..]);
  }

  lemma DenseIsFixed<T>(bitmap: Bits, m: map<nat, T>, out: seq<Option<T>>)
    requires Members(bitmap, m) && |out| == |bitmap| && FilledBy(bitmap, out, Count(bitmap), Dense(bitmap, m))
    ensures out == FixedOf(|out|, m)
  {
    forall i | 0 <= i < |out| ensures out[i] == FixedOf(|out|, m)[i] {
      if bitmap[i] {
        PosRank(bitmap, i);
        DenseAt(bitmap, m, i);
      }
    }
  }

  // ----- chains

  method GappedFromPacked<T>(p: PackedArray<T>) returns (g: GappedArray<T>)
    requires p.Valid() && IsPow2(p.w) && 2 <= p.w < USIZE_MAX
    ensures fresh(g.Repr()) && g.Valid() && g.w == p.w && g.contents == p.contents
    ensures g.Capacity() == Pow2CapFor(p.w, |p.contents|) && (g.slots != null ==> Even(g.Layout()))
  {
    var fixed := FixedFromPacked(p);
    FixedRoundTrips(p.w, p.contents, fixed[..]);
    g := GappedFromFixed(fixed[..]);
  }

  method PackedFromGapped<T>(g: GappedArray<T>) returns (p: PackedArray<T>)
    requires g.Valid()
    ensures fresh(p.Repr()) && p.Valid() && p.w == g.w && p.contents == g.contents
  {
    var fixed := FixedFromGapped(g);
    FixedRoundTrips(g.w, g.contents, fixed[..]);
    p := PackedFromFixed(fixed[..]);
  }
}
