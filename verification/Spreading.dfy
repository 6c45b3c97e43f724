/** Power-of-two capacities, and spreading the elements of a block evenly over its slots. */
module Spreading {
  import opened Bitmaps

  // ----- capacities

  /** The least power of two at or above `n`. */
  function NextPow2(n: nat): (p: nat)
    requires n > 0
    ensures IsPow2(p) && n <= p < 2 * n
  {
    if n == 1 then 1 else 2 * NextPow2((n + 1) / 2)
  }

  /** Between a power of two and its double there is no other. */
  lemma {:induction false} Pow2Gap(p: nat, q: nat)
    requires IsPow2(p) && IsPow2(q) && p < q
    ensures 2 * p <= q
    decreases q
  {
    if p > 1 {
      Pow2Gap(p / 2, q / 2);
    }
  }

  /** The least power of two that holds `n` elements, capped at the arity `w`; none for no elements. */
  function Pow2CapFor(w: nat, n: nat): (cap: nat)
    requires IsPow2(w)
    ensures n == 0 ==> cap == 0
    ensures 0 < n ==> IsPow2(cap) && cap <= w && (n <= w ==> n <= cap) && (w <= n ==> cap == w)
  {
    if n == 0 then 0 else if n >= w then w else
      assert NextPow2(n) <= w by {
        if w < NextPow2(n) {
          Pow2Gap(w, NextPow2(n));
        }
      }
      NextPow2(n)
  }

  /** No smaller power of two would do. */
  lemma CapIsLeast(w: nat, n: nat, p: nat)
    requires IsPow2(w) && 0 < n <= w && IsPow2(p) && n <= p
    ensures Pow2CapFor(w, n) <= p
  {
    if n < w && p < NextPow2(n) {
      Pow2Gap(p, NextPow2(n));
    }
    if n == w && p < w {
      Pow2Gap(p, w);
    }
  }

  /** A full block grows to exactly twice its capacity, and never past the arity. */
  lemma FullDoubles(w: nat, cap: nat)
    requires IsPow2(w) && IsPow2(cap) && cap < w
    ensures Pow2CapFor(w, cap + 1) == 2 * cap <= w
  {
    Pow2Gap(cap, w);
    DoublePow2(cap);
    CapIsLeast(w, cap + 1, 2 * cap);
    Pow2Gap(cap, Pow2CapFor(w, cap + 1));
  }

  lemma DoublePow2(p: nat)
    requires IsPow2(p)
    ensures IsPow2(2 * p)
  {
    assert 2 * p / 2 == p;
  }

  // ----- spread positions

  /** The slot of rank `r` among `count` elements over `cap` slots. */
  function SpreadPos(r: nat, count: nat, cap: nat): nat
    requires 0 < count <= cap && r < count
  {
    r * cap / count
  }

  lemma MulMonotone(x: nat, y: nat, n: nat)
    requires x <= y
    ensures x * n <= y * n
  {}

  lemma DivStep(a: nat, b: nat, n: nat)
    requires n > 0 && a + n <= b
    ensures a / n + 1 <= b / n
  {
    if b / n <= a / n {
      MulMonotone(b / n, a / n, n);
    }
  }

  lemma DivBound(a: nat, b: nat, n: nat)
    requires n > 0 && a < b * n
    ensures a / n < b
  {
    if b <= a / n {
      MulMonotone(b, a / n, n);
    }
  }

  /** It is the last slot at or below the rank's proportional place. */
  lemma SpreadFloor(r: nat, count: nat, cap: nat)
    requires 0 < count <= cap && r < count
    ensures SpreadPos(r, count, cap) * count <= r * cap < (SpreadPos(r, count, cap) + 1) * count
  {
    DivFloor(r * cap, count);
  }

  lemma DivFloor(a: nat, n: nat)
    requires n > 0
    ensures a / n * n <= a < (a / n + 1) * n
  {}

  /** The element of each rank is in the last slot at or below its proportional place. */
  ghost predicate EvenlySpread(live: Bits, count: nat, cap: nat) {
    count == Count(live) &&
    forall r :: 0 <= r < count ==> Pos(live, r) * count <= r * cap < (Pos(live, r) + 1) * count
  }

  lemma RankedSpread(live: Bits, count: nat, cap: nat)
    requires count <= cap && Ranked(live, Spread(count, cap))
    ensures EvenlySpread(live, count, cap)
  {
    forall r | 0 <= r < count
      ensures Pos(live, r) * count <= r * cap < (Pos(live, r) + 1) * count {
      SpreadFloor(r, count, cap);
      assert Pos(live, r) == Spread(count, cap)[r] == SpreadPos(r, count, cap);
    }
  }

  /** Spread positions are strictly increasing and below the capacity. */
  lemma SpreadAscends(r: nat, s: nat, count: nat, cap: nat)
    requires 0 < count <= cap && r < s < count
    ensures SpreadPos(r, count, cap) < SpreadPos(s, count, cap)
  {
    assert r * cap + cap <= s * cap by {
      assert (r + 1) * cap <= s * cap;
    }
    DivStep(r * cap, s * cap, count);
  }

  lemma SpreadBelow(r: nat, count: nat, cap: nat)
    requires 0 < count <= cap && r < count
    ensures SpreadPos(r, count, cap) < cap
  {
    assert r * cap < cap * count;
    DivBound(r * cap, cap, count);
  }

  /** The spread positions of all ranks. */
  ghost function Spread(count: nat, cap: nat): (ps: seq<nat>)
    requires count <= cap
    ensures |ps| == count && forall r :: 0 <= r < count ==> ps[r] == SpreadPos(r, count, cap)
  {
    seq(count, r requires 0 <= r < count => SpreadPos(r, count, cap))
  }

  // ----- setting bits one position at a time

  ghost predicate Ascending(ps: seq<nat>, bound: nat) {
    (forall r, s :: 0 <= r < s < |ps| ==> ps[r] < ps[s]) && forall r :: 0 <= r < |ps| ==> ps[r] < bound
  }

  /** The word with the bits at the given positions set. */
  ghost function BitsAt(w: nat, ps: seq<nat>): (b: Bits)
    requires forall r :: 0 <= r < |ps| ==> ps[r] < w
    ensures |b| == w
  {
    if ps == [] then Zero(w) else BitsAt(w, ps[..|ps| - 1])[ps[|ps| - 1] := true]
  }

  /** Only the given positions are set. */
  lemma {:induction false} BitsAtOnly(w: nat, ps: seq<nat>, p: nat)
    requires (forall r :: 0 <= r < |ps| ==> ps[r] < w) && p < w && p !in ps
    ensures !BitsAt(w, ps)[p]
    decreases |ps|
  {
    if ps != [] {
      BitsAtOnly(w, ps[..|ps| - 1], p);
    }
  }

  /** Setting a bit above all others makes it the last position and keeps the rest. */
  lemma SetAbove(b: Bits, p: nat)
    requires p < |b| && forall q :: p <= q < |b| ==> !b[q]
    ensures Count(b[p := true]) == Count(b) + 1
    ensures Pos(b[p := true], Count(b)) == p
    ensures forall r :: 0 <= r < Count(b) ==> Pos(b[p := true], r) == Pos(b, r)
  {
    var c := b[p := true];
    CountUpdate(b, p, true);
    assert b == b[..p] + b[p..];
    CountConcat(b[..p], b[p..]);
    CountClear(b[p..]);
    assert c[..p] == b[..p];
    PosRank(c, p);
    forall r | 0 <= r < Count(b) ensures Pos(c, r) == Pos(b, r) {
      var q := Pos(b, r);
      RankUpdate(b, p, true, q);
      PosRank(c, q);
    }
  }

  /** The set positions of the word, in order. */
  ghost predicate Ranked(b: Bits, ps: seq<nat>) {
    Count(b) == |ps| && forall r :: 0 <= r < |ps| ==> Pos(b, r) == ps[r]
  }

  lemma RankedAbove(b: Bits, ps: seq<nat>, p: nat)
    requires Ranked(b, ps) && p < |b| && forall q :: p <= q < |b| ==> !b[q]
    ensures Ranked(b[p := true], ps + [p])
  {
    SetAbove(b, p);
    var c := b[p := true];
    forall r | 0 <= r < |ps| + 1 ensures Pos(c, r) == (ps + [p])[r] {
      if r < |ps| {
        assert Pos(c, r) == Pos(b, r);
      }
    }
  }

  /** Ascending positions keep their ranks. */
  lemma {:induction false} BitsAtRanks(w: nat, ps: seq<nat>)
    requires Ascending(ps, w)
    ensures Ranked(BitsAt(w, ps), ps)
    decreases |ps|
  {
    if ps == [] {
      CountClear(Zero(w));
    } else {
      var last := |ps| - 1;
      BitsAtRanks(w, ps[..last]);
      forall q | ps[last] <= q < w ensures !BitsAt(w, ps[..last])[q] {
        BitsAtOnly(w, ps[..last], q);
      }
      RankedAbove(BitsAt(w, ps[..last]), ps[..last], ps[last]);
      assert ps == ps[..last] + [ps[last]];
    }
  }

  lemma SpreadAscending(count: nat, cap: nat)
    requires count <= cap
    ensures Ascending(Spread(count, cap), cap)
  {
    forall r | 0 <= r < count ensures SpreadPos(r, count, cap) < cap {
      SpreadBelow(r, count, cap);
    }
    forall r, s | 0 <= r < s < count ensures SpreadPos(r, count, cap) < SpreadPos(s, count, cap) {
      SpreadAscends(r, s, count, cap);
    }
  }

  /** Builds the live bitmap of a respread block, one rank at a time. */
  method SpreadLive(w: nat, count: nat, cap: nat) returns (live: Bits)
    requires count <= cap <= w
    ensures |live| == w && Count(live) == count && (forall p :: cap <= p < w ==> !live[p])
    ensures EvenlySpread(live, count, cap) && Ranked(live, Spread(count, cap))
  {
    ghost var ps := Spread(count, cap);
    SpreadAscending(count, cap);
    live := Zero(w);
    for r := 0 to count
      invariant live == BitsAt(w, ps[..r])
    {
      assert ps[..r + 1][..r] == ps[..r];
      live := live[SpreadPos(r, count, cap) := true];
    }
    assert ps[..count] == ps;
    BitsAtRanks(w, ps);
    RankedSpread(live, count, cap);
    forall p | cap <= p < w ensures !live[p] {
      BitsAtOnly(w, ps, p);
    }
  }
}
