/** Fixed-width bitmaps as machine words, least significant bit first, for any power-of-two width. */
module Bitmaps {
  import opened Wrappers

  type Bits = seq<bool>

  predicate IsPow2(n: nat) {
    n == 1 || (n > 1 && n % 2 == 0 && IsPow2(n / 2))
  }

  // ----- reference definitions: counting, ranks, the position of a rank

  /** The number of set bits. */
  function Count(b: Bits): nat {
    if b == [] then 0 else Count(b[..|b| - 1]) + (if b[|b| - 1] then 1 else 0)
  }

  /** The rank of an index: how many set bits come before it. */
  function Rank(b: Bits, i: nat): nat
    requires i <= |b|
  {
    Count(b[..i])
  }

  lemma RankStep(b: Bits, i: nat)
    requires i < |b|
    ensures Rank(b, i + 1) == Rank(b, i) + (if b[i] then 1 else 0)
  {
    assert b[..i + 1][..i] == b[..i];
  }

  lemma RankEnds(b: Bits)
    ensures Rank(b, 0) == 0 && Rank(b, |b|) == Count(b)
  {
    assert b[..|b|] == b;
  }

  /** Ranks grow by at most one a bit, and past a set bit by exactly one. */
  lemma {:induction false} RankMonotone(b: Bits, i: nat, j: nat)
    requires i <= j <= |b|
    ensures Rank(b, i) <= Rank(b, j) <= Rank(b, i) + (j - i)
    ensures i < j && b[i] ==> Rank(b, i) < Rank(b, j)
    decreases j - i
  {
    if i < j {
      RankStep(b, i);
      RankMonotone(b, i + 1, j);
    }
  }

  /** A set bit is determined by its rank. */
  lemma RankInjective(b: Bits, p: nat, q: nat)
    requires p < |b| && q < |b| && b[p] && b[q] && Rank(b, p) == Rank(b, q)
    ensures p == q
  {
    if p < q {
      RankMonotone(b, p, q);
    } else if q < p {
      RankMonotone(b, q, p);
    }
  }

  lemma OnlyRank(b: Bits, p: nat)
    requires p < |b| && b[p]
    ensures forall q :: 0 <= q < |b| && b[q] && Rank(b, q) == Rank(b, p) ==> q == p
  {
    forall q | 0 <= q < |b| && b[q] && Rank(b, q) == Rank(b, p) ensures q == p {
      RankInjective(b, p, q);
    }
  }

  /** What flipping one bit does to every rank. */
  lemma {:induction false} RankUpdate(b: Bits, j: nat, v: bool, i: nat)
    requires j < |b| && i <= |b|
    ensures Rank(b[j := v], i) ==
            Rank(b, i) + (if j < i && v && !b[j] then 1 else 0) - (if j < i && !v && b[j] then 1 else 0)
    decreases i
  {
    var u := b[j := v];
    if i > 0 {
      RankUpdate(b, j, v, i - 1);
      RankStep(b, i - 1);
      RankStep(u, i - 1);
    } else {
      RankEnds(b);
      RankEnds(u);
    }
    if j < i {
      RankMonotone(b, j, i);
    }
  }

  lemma CountUpdate(b: Bits, j: nat, v: bool)
    requires j < |b|
    ensures Count(b[j := v]) == Count(b) + (if v && !b[j] then 1 else 0) - (if !v && b[j] then 1 else 0)
  {
    RankUpdate(b, j, v, |b|);
    RankEnds(b);
    RankEnds(b[j := v]);
  }

  /** A set bit's rank is below the count. */
  lemma RankBelowCount(b: Bits, p: nat)
    requires p < |b| && b[p]
    ensures Rank(b, p) < Count(b)
  {
    RankMonotone(b, p, |b|);
    RankEnds(b);
  }

  /** The position of the set bit of rank `r`. */
  function Pos(b: Bits, r: nat): (p: nat)
    requires r < Count(b)
    ensures p < |b| && b[p] && Rank(b, p) == r
  {
    var last := |b| - 1;
    if b[last] && Count(b[..last]) == r then last else
      var p := Pos(b[..last], r);
      assert b[..last][..p] == b[..p];
      p
  }

  /** `Pos` inverts `Rank` on set bits. */
  lemma PosRank(b: Bits, p: nat)
    requires p < |b| && b[p]
    ensures Rank(b, p) < Count(b) && Pos(b, Rank(b, p)) == p
  {
    RankBelowCount(b, p);
    RankInjective(b, p, Pos(b, Rank(b, p)));
  }

  /** Positions ascend with ranks, by at least the difference of the ranks. */
  lemma PosAscends(b: Bits, r: nat, s: nat)
    requires r <= s < Count(b)
    ensures Pos(b, r) + (s - r) <= Pos(b, s)
  {
    var p, q := Pos(b, r), Pos(b, s);
    if q < p {
      RankMonotone(b, q, p);
    } else {
      RankMonotone(b, p, q);
    }
  }

  lemma {:induction false} CountConcat(a: Bits, b: Bits)
    ensures Count(a + b) == Count(a) + Count(b)
    decreases |b|
  {
    if b == [] {
      assert a + b == a;
    } else {
      var last := |b| - 1;
      assert (a + b)[..|a| + last] == a + b[..last];
      CountConcat(a, b[..last]);
    }
  }

  lemma {:induction false} CountClear(b: Bits)
    requires forall k :: 0 <= k < |b| ==> !b[k]
    ensures Count(b) == 0
  {
    if b != [] {
      CountClear(b[..|b| - 1]);
    }
  }

  lemma {:induction false} CountPositive(b: Bits, k: nat)
    requires k < |b| && b[k]
    ensures Count(b) > 0
  {
    RankBelowCount(b, k);
  }

  // ----- machine operations on words

  function Zero(w: nat): (b: Bits)
    ensures |b| == w && forall k :: 0 <= k < w ==> !b[k]
  {
    seq(w, _ => false)
  }

  function Ones(w: nat): (b: Bits)
    ensures |b| == w && forall k :: 0 <= k < w ==> b[k]
  {
    seq(w, _ => true)
  }

  function And(a: Bits, b: Bits): (c: Bits)
    requires |a| == |b|
    ensures |c| == |a| && forall k :: 0 <= k < |a| ==> c[k] == (a[k] && b[k])
  {
    seq(|a|, k requires 0 <= k < |a| => a[k] && b[k])
  }

  function Not(a: Bits): (c: Bits)
    ensures |c| == |a| && forall k :: 0 <= k < |a| ==> c[k] == !a[k]
  {
    seq(|a|, k requires 0 <= k < |a| => !a[k])
  }

  /** The word `1 << i`. */
  function OneBit(w: nat, i: nat): Bits
    requires i < w
  {
    Zero(w)[i := true]
  }

  /** The word shifted right by `n`. */
  function ShiftRight(a: Bits, n: nat): Bits
    requires n <= |a|
  {
    a[n..] + Zero(n)
  }

  /** The word less one, wrapping at zero: the borrow runs up to the lowest set bit. */
  function Decrement(a: Bits): Bits {
    if a == [] then [] else if a[0] then [false] + a[1..] else [true] + Decrement(a[1..])
  }

  predicate IsZero(a: Bits) {
    forall k :: 0 <= k < |a| ==> !a[k]
  }

  /** The number of trailing zeros. */
  function LowestPos(a: Bits): (p: nat)
    requires !IsZero(a)
    ensures p < |a| && a[p] && forall k :: 0 <= k < p ==> !a[k]
  {
    if a[0] then 0 else
      assert !IsZero(a[1..]) by {
        var k :| 0 <= k < |a| && a[k];
        assert a[1..][k - 1];
      }
      1 + LowestPos(a[1..])
  }

  /** The binary logarithm, rounded down. */
  function HighestPos(a: Bits): (p: nat)
    requires !IsZero(a)
    ensures p < |a| && a[p] && forall k :: p < k < |a| ==> !a[k]
  {
    var last := |a| - 1;
    if a[last] then last else
      assert !IsZero(a[..last]) by {
        var k :| 0 <= k < |a| && a[k];
        assert a[..last][k];
      }
      HighestPos(a[..last])
  }

  /** Subtracting one turns a lone bit into the mask of all bits below it. */
  lemma {:induction false} DecrementLone(w: nat, i: nat)
    requires i < w
    ensures var m := Decrement(OneBit(w, i)); |m| == w && forall k :: 0 <= k < w ==> m[k] == (k < i)
    decreases i
  {
    var a := OneBit(w, i);
    if i > 0 {
      assert a[1..] == OneBit(w - 1, i - 1);
      DecrementLone(w - 1, i - 1);
    }
  }

  /** Subtracting one leaves every bit above the lowest set one, and masks that one out. */
  lemma {:induction false} DecrementLowest(a: Bits)
    requires !IsZero(a)
    ensures |Decrement(a)| == |a|
    ensures And(a, Decrement(a)) == a[LowestPos(a) := false]
  {
    if a[0] {
      assert forall k :: 1 <= k < |a| ==> Decrement(a)[k] == a[k];
    } else {
      assert !IsZero(a[1..]) by {
        var k :| 0 <= k < |a| && a[k];
        assert a[1..][k - 1];
      }
      var low, d := a[1..], Decrement(a[1..]);
      DecrementLowest(low);
      forall k | 0 <= k < |a| ensures And(a, Decrement(a))[k] == a[LowestPos(a) := false][k] {
        if k > 0 {
          assert Decrement(a)[k] == d[k - 1] && a[k] == low[k - 1];
          assert And(low, d)[k - 1] == low[LowestPos(low) := false][k - 1];
        }
      }
    }
  }

  /** `x & (x - 1)` clears the lowest set bit; a zero word is returned unchanged. */
  function ClearLowest(a: Bits): (c: Bits)
    ensures IsZero(a) ==> c == a
    ensures !IsZero(a) ==> c == a[LowestPos(a) := false]
  {
    if IsZero(a) then
      DecrementLength(a);
      assert And(a, Decrement(a)) == a;
      And(a, Decrement(a))
    else
      DecrementLowest(a);
      And(a, Decrement(a))
  }

  lemma {:induction false} DecrementLength(a: Bits)
    ensures |Decrement(a)| == |a|
  {
    if a != [] {
      DecrementLength(a[1..]);
    }
  }

  /** `x & !(1 << log2 x)` clears the highest set bit; a zero word is returned unchanged. */
  function ClearHighest(a: Bits): (c: Bits)
    ensures IsZero(a) ==> c == a
    ensures !IsZero(a) ==> c == a[HighestPos(a) := false]
  {
    if IsZero(a) then a else
      var c := And(a, Not(OneBit(|a|, HighestPos(a))));
      assert c == a[HighestPos(a) := false];
      c
  }

  /** The mask of the bits below `n`; `n` may be the width, where the shift would overflow. */
  function LowMask(w: nat, n: nat): (m: Bits)
    requires n <= w
    ensures |m| == w && forall k :: 0 <= k < w ==> m[k] == (k < n)
  {
    if n >= w then Ones(w) else
      DecrementLone(w, n);
      Decrement(OneBit(w, n))
  }

  /** Masking to the low `n` bits and counting is counting the first `n` bits. */
  lemma MaskedCount(b: Bits, n: nat)
    requires n <= |b|
    ensures Count(And(b, LowMask(|b|, n))) == Rank(b, n)
  {
    var c := And(b, LowMask(|b|, n));
    assert c == b[..n] + c[n..];
    CountConcat(b[..n], c[n..]);
    CountClear(c[n..]);
  }

  // ----- the operations of the bitmap trait

  /** The dense rank as the bitmap computes it, by masking. */
  function RankOf(b: Bits, i: nat): (r: nat)
    requires i < |b|
    ensures r == Rank(b, i)
  {
    MaskedCount(b, i);
    Count(And(b, LowMask(|b|, i)))
  }

  /** The bits counted in a shifted word are those of a window of the original. */
  lemma WindowCount(b: Bits, pos: nat, size: nat)
    requires pos + size <= |b|
    ensures Rank(ShiftRight(b, pos), size) == Rank(b, pos + size) - Rank(b, pos)
  {
    assert b[..pos + size] == b[..pos] + b[pos..pos + size];
    CountConcat(b[..pos], b[pos..pos + size]);
    assert ShiftRight(b, pos)[..size] == b[pos..pos + size];
  }

  lemma FoundBit(b: Bits, pos: nat, n: nat)
    requires pos < |b| && Rank(b, pos) <= n < Rank(b, pos + 1)
    ensures n < Count(b) && Pos(b, n) == pos
  {
    RankStep(b, pos);
    PosRank(b, pos);
  }

  lemma ShiftTwice(b: Bits, i: nat, j: nat)
    requires i + j <= |b|
    ensures ShiftRight(ShiftRight(b, i), j) == ShiftRight(b, i + j)
  {}

  /** Counting under a low mask is ranking its end. */
  method LowCount(x: Bits, size: nat) returns (c: nat)
    requires size <= |x|
    ensures c == Rank(x, size)
  {
    MaskedCount(x, size);
    c := Count(And(x, LowMask(|x|, size)));
  }

  /**
   * The position of the `n`-th set bit, by a popcount-guided halving search: at each step the
   * answer lies in the window of twice `size` bits at `pos`.
   */
  method RawSelect(self: Bits, n: nat) returns (r: Option<nat>)
    requires |self| >= 2 && IsPow2(|self|)
    ensures r == if n < Count(self) then Some(Pos(self, n)) else None
  {
    if n >= Count(self) {
      return None;
    }
    var n': nat, x, pos: nat, size: nat := n, self, 0, |self| / 2;
    RankEnds(self);
    assert ShiftRight(self, 0) == self;
    while true
      invariant IsPow2(size) && pos + 2 * size <= |self|
      invariant x == ShiftRight(self, pos)
      invariant Rank(self, pos) + n' == n && n < Rank(self, pos + 2 * size)
      decreases size
    {
      WindowCount(self, pos, size);
      var lowCount := LowCount(x, size);
      if n' >= lowCount {
        ShiftTwice(self, pos, size);
        n', x, pos := n' - lowCount, ShiftRight(x, size), pos + size;
      }
      assert n < Rank(self, pos + size);
      if size == 1 {
        FoundBit(self, pos, n);
        return Some(pos);
      }
      assert size == 2 * (size / 2);
      size := size / 2;
    }
  }

  /** The reference for searching downwards, a bit at a time. */
  function NearestClearAtOrBelow(b: Bits, from: nat): (r: Option<nat>)
    requires from < |b|
    ensures r.None? <==> forall k :: 0 <= k <= from ==> b[k]
    ensures r.Some? ==> r.value <= from && !b[r.value] && forall k :: r.value < k <= from ==> b[k]
  {
    if !b[from] then Some(from) else if from == 0 then None else NearestClearAtOrBelow(b, from - 1)
  }

  /** The reference for searching upwards, a bit at a time. */
  function NearestClearIn(b: Bits, from: nat, limit: nat): (r: Option<nat>)
    requires from <= limit <= |b|
    ensures r.None? <==> forall k :: from <= k < limit ==> b[k]
    ensures r.Some? ==> from <= r.value < limit && !b[r.value] && forall k :: from <= k < r.value ==> b[k]
    decreases limit - from
  {
    if from == limit then None else if !b[from] then Some(from) else NearestClearIn(b, from + 1, limit)
  }

  /** The search as one masked word: the highest hole left under the mask. */
  function RawNearestClearAtOrBelow(b: Bits, from: nat): (r: Option<nat>)
    requires from < |b|
    ensures r == NearestClearAtOrBelow(b, from)
  {
    var holes := And(Not(b), LowMask(|b|, from + 1));
    assert forall k :: 0 <= k < |b| ==> holes[k] == (!b[k] && k <= from);
    if IsZero(holes) then None else Some(HighestPos(holes))
  }

  /** The search as one masked word: the lowest hole left between the masks. */
  function RawNearestClearIn(b: Bits, from: nat, limit: nat): (r: Option<nat>)
    requires from <= limit <= |b|
    ensures r == NearestClearIn(b, from, limit)
  {
    var holes := And(And(Not(b), LowMask(|b|, limit)), Not(LowMask(|b|, from)));
    assert forall k :: 0 <= k < |b| ==> holes[k] == (!b[k] && from <= k < limit);
    if IsZero(holes) then None else Some(LowestPos(holes))
  }
}
