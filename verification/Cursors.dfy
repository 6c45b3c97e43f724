/** Cursors over set bits and over index ranges: each draw peels one end of a known sequence. */
module Cursors {
  import opened Wrappers
  import opened Bitmaps
  import opened Interleaving

  /** The set positions, ascending. */
  ghost function Positions(b: Bits): (s: seq<nat>)
    ensures |s| == Count(b)
    ensures forall r :: 0 <= r < |s| ==> s[r] == Pos(b, r)
  {
    seq(Count(b), r requires 0 <= r < Count(b) => Pos(b, r))
  }

  lemma NoPositions(b: Bits)
    ensures IsZero(b) <==> Count(b) == 0
  {
    if IsZero(b) {
      CountClear(b);
    } else {
      var k :| 0 <= k < |b| && b[k];
      CountPositive(b, k);
    }
  }

  /** Clearing a bit takes one position out, and shifts the ranks above it down. */
  lemma ClearedPos(b: Bits, p: nat, r: nat)
    requires p < |b| && b[p] && r < Count(b) && Pos(b, r) != p
    ensures var k := if Pos(b, r) > p then r - 1 else r;
            0 <= k < Count(b[p := false]) && Pos(b[p := false], k) == Pos(b, r)
    ensures Count(b[p := false]) == Count(b) - 1
  {
    var q := Pos(b, r);
    CountUpdate(b, p, false);
    RankUpdate(b, p, false, q);
    PosRank(b[p := false], q);
  }

  /** The lowest set bit is the first position. */
  lemma PositionsClearLowest(b: Bits)
    requires !IsZero(b)
    ensures Positions(b) == [LowestPos(b)] + Positions(ClearLowest(b))
  {
    var p := LowestPos(b);
    CountClear(b[..p]);
    PosRank(b, p);
    CountUpdate(b, p, false);
    forall r | 1 <= r < Count(b) ensures Positions(b)[r] == Positions(ClearLowest(b))[r - 1] {
      PosAscends(b, 0, r);
      ClearedPos(b, p, r);
    }
  }

  /** The highest set bit is the last position. */
  lemma PositionsClearHighest(b: Bits)
    requires !IsZero(b)
    ensures Positions(b) == Positions(ClearHighest(b)) + [HighestPos(b)]
  {
    var p := HighestPos(b);
    assert b == b[..p + 1] + b[p + 1..];
    CountConcat(b[..p + 1], b[p + 1..]);
    CountClear(b[p + 1..]);
    RankStep(b, p);
    PosRank(b, p);
    CountUpdate(b, p, false);
    forall r | 0 <= r < Count(b) - 1 ensures Positions(b)[r] == Positions(ClearHighest(b))[r] {
      PosAscends(b, r, Count(b) - 1);
      ClearedPos(b, p, r);
    }
  }

  /** Taking the first position out leaves the others. */
  lemma FrontPosition(b: Bits)
    requires Count(b) > 0
    ensures var i := Pos(b, 0);
            Positions(b) == [i] + Positions(b[i := false]) && i !in Positions(b[i := false])
  {
    NoPositions(b);
    PositionsClearLowest(b);
    assert LowestPos(b) == Positions(b)[0];
  }

  /** Taking the last position out leaves the others. */
  lemma BackPosition(b: Bits)
    requires Count(b) > 0
    ensures var i := Pos(b, Count(b) - 1);
            Positions(b) == Positions(b[i := false]) + [i] && i !in Positions(b[i := false])
  {
    NoPositions(b);
    PositionsClearHighest(b);
    assert HighestPos(b) == Positions(b)[Count(b) - 1];
  }

  /** Reading a fold left to right. */
  ghost function FoldLeft<A>(f: (A, nat) -> A, init: A, s: seq<nat>): A {
    if s == [] then init else FoldLeft(f, f(init, s[0]), s[1..])
  }

  /** Reading a fold right to left. */
  ghost function FoldRight<A>(f: (A, nat) -> A, init: A, s: seq<nat>): A {
    if s == [] then init else FoldRight(f, f(init, s[|s| - 1]), s[..|s| - 1])
  }

  /** A left fold starts from `init` and takes the elements in order, the last one last. */
  lemma {:induction false} FoldLeftSnoc<A>(f: (A, nat) -> A, init: A, s: seq<nat>, x: nat)
    ensures FoldLeft(f, init, []) == init && FoldLeft(f, init, s + [x]) == f(FoldLeft(f, init, s), x)
  {
    if s == [] {
      assert s + [x] == [x];
    } else {
      assert (s + [x])[1..] == s[1..] + [x];
      FoldLeftSnoc(f, f(init, s[0]), s[1..], x);
    }
  }

  /** A right fold is the left fold of the elements in reverse. */
  lemma {:induction false} FoldRightReversed<A>(f: (A, nat) -> A, init: A, s: seq<nat>)
    ensures FoldRight(f, init, s) == FoldLeft(f, init, Reversed(s))
    decreases |s|
  {
    if s != [] {
      var last := |s| - 1;
      FoldRightReversed(f, f(init, s[last]), s[..last]);
      assert Reversed(s) == [s[last]] + Reversed(s[..last]);
      assert Reversed(s)[1..] == Reversed(s[..last]);
    }
  }

  /** Drains a snapshot of a word from both ends. */
  class BitIter {
    var remaining: Bits

    constructor (b: Bits)
      ensures remaining == b && Drawn(b, 0)
    {
      remaining := b;
    }

    /** The positions still to be drawn, in order. */
    ghost function Pending(): seq<nat>
      reads this
    {
      Positions(remaining)
    }

    /** Draws from the front. */
    method Next() returns (r: Option<nat>)
      modifies this
      ensures r.None? <==> old(Pending()) == []
      ensures r.None? ==> remaining == old(remaining)
      ensures r.Some? ==> old(Pending()) == [r.value] + Pending()
      ensures r.Some? ==> r.value == Pos(old(remaining), 0) && remaining == old(remaining)[r.value := false]
    {
      NoPositions(remaining);
      if IsZero(remaining) {
        return None;
      }
      PositionsClearLowest(remaining);
      assert LowestPos(remaining) == Positions(remaining)[0];
      var pos := LowestPos(remaining);
      remaining := ClearLowest(remaining);
      r := Some(pos);
    }

    /** The first `n` positions of `b` have been drawn, all from the front. */
    ghost predicate Drawn(b: Bits, n: nat)
      reads this
    {
      n <= Count(b) && Pending() == Positions(b)[n..]
    }

    /** Draws from the front, naming the position by its rank in the word the cursor started on. */
    method Draw(ghost b: Bits, ghost n: nat) returns (r: Option<nat>)
      requires Drawn(b, n)
      modifies this
      ensures r.None? <==> n == Count(b)
      ensures r.Some? ==> r.value == Pos(b, n) && Drawn(b, n + 1)
    {
      ghost var rest := Positions(b)[n..];
      r := Next();
      if r.Some? {
        assert rest[0] == Positions(b)[n] && rest[1..] == Positions(b)[n + 1..];
      }
    }

    /** Draws from the back. */
    method NextBack() returns (r: Option<nat>)
      modifies this
      ensures r.None? <==> old(Pending()) == []
      ensures r.None? ==> remaining == old(remaining)
      ensures r.Some? ==> old(Pending()) == Pending() + [r.value]
      ensures r.Some? ==> r.value == Pos(old(remaining), |old(Pending())| - 1) && remaining == old(remaining)[r.value := false]
    {
      NoPositions(remaining);
      if IsZero(remaining) {
        return None;
      }
      PositionsClearHighest(remaining);
      assert HighestPos(remaining) == Positions(remaining)[Count(remaining) - 1];
      var pos := HighestPos(remaining);
      remaining := ClearHighest(remaining);
      r := Some(pos);
    }

    /** The number left to draw. */
    method Len() returns (n: nat)
      ensures n == |Pending()|
    {
      n := Count(remaining);
    }

    /** Folds what is left, ascending, in one loop. */
    method Fold<A>(init: A, f: (A, nat) -> A) returns (acc: A)
      modifies this
      ensures acc == FoldLeft(f, init, old(Pending())) && Pending() == []
    {
      acc := init;
      while !IsZero(remaining)
        invariant FoldLeft(f, acc, Pending()) == FoldLeft(f, init, old(Pending()))
        decreases |Pending()|
      {
        PositionsClearLowest(remaining);
        assert Pending()[1..] == Positions(ClearLowest(remaining));
        var pos := LowestPos(remaining);
        remaining := ClearLowest(remaining);
        acc := f(acc, pos);
      }
      NoPositions(remaining);
    }

    /** Folds what is left, descending, in one loop. */
    method FoldBack<A>(init: A, f: (A, nat) -> A) returns (acc: A)
      modifies this
      ensures acc == FoldRight(f, init, old(Pending())) && Pending() == []
    {
      acc := init;
      while !IsZero(remaining)
        invariant FoldRight(f, acc, Pending()) == FoldRight(f, init, old(Pending()))
        decreases |Pending()|
      {
        PositionsClearHighest(remaining);
        assert Pending()[..|Pending()| - 1] == Positions(ClearHighest(remaining));
        var pos := HighestPos(remaining);
        remaining := ClearHighest(remaining);
        acc := f(acc, pos);
      }
      NoPositions(remaining);
    }
  }

  /** Drops the elements at the set bits, each exactly once: the r-th dropped was in the r-th live slot. */
  method DropLive<T>(slots: array<Option<T>>, live: Bits) returns (ghost dropped: seq<T>)
    requires forall p :: 0 <= p < slots.Length ==> (slots[p].Some? <==> p < |live| && live[p])
    requires forall p :: 0 <= p < |live| && live[p] ==> p < slots.Length
    modifies slots
    ensures forall p :: 0 <= p < slots.Length ==> slots[p].None?
    ensures |dropped| == Count(live)
    ensures forall r :: 0 <= r < |dropped| ==> old(slots[Pos(live, r)]) == Some(dropped[r])
  {
    dropped := [];
    var bits := new BitIter(live);
    while true
      modifies slots, bits
      invariant bits.Drawn(live, |dropped|)
      invariant forall p :: 0 <= p < slots.Length ==>
        slots[p] == if p < |live| && live[p] && Rank(live, p) >= |dropped| then old(slots[p]) else None
      invariant forall r :: 0 <= r < |dropped| ==> old(slots[Pos(live, r)]) == Some(dropped[r])
      decreases Count(live) - |dropped|
    {
      var p := bits.Draw(live, |dropped|);
      if p.None? {
        break;
      }
      OnlyRank(live, p.value);
      dropped := dropped + [slots[p.value].value];
      slots[p.value] := None;
    }
    forall p | 0 <= p < |live| && live[p] ensures Rank(live, p) < Count(live) {
      RankBelowCount(live, p);
    }
  }

  ghost function Interval(from: nat, end: nat): (s: seq<nat>)
    requires from <= end
    ensures |s| == end - from && forall k :: 0 <= k < |s| ==> s[k] == from + k
  {
    seq(end - from, k => from + k)
  }

  /** The double-ended range over a closed interval of indices. */
  class RangeInclusive {
    var lo: nat
    var hi: nat
    var done: bool
    /** The half-open interval still to be drawn. */
    ghost var from: nat
    ghost var end: nat

    constructor (first: nat, last: nat)
      ensures Valid() && from == first && end == if first <= last then last + 1 else first
    {
      lo, hi, done := first, last, first > last;
      from, end := first, if first <= last then last + 1 else first;
    }

    ghost predicate Valid()
      reads this
    {
      from <= end && (done <==> from == end) && (!done ==> lo == from && hi + 1 == end)
    }

    /** The indices still to be drawn. */
    ghost function Pending(): (s: seq<nat>)
      requires Valid()
      reads this
    {
      Interval(from, end)
    }

    method Next() returns (r: Option<nat>)
      requires Valid()
      modifies this
      ensures Valid() && end == old(end) && (r.None? <==> old(Pending()) == [])
      ensures if r.None? then from == old(from) else r.value == old(from) && from == old(from) + 1
      ensures if r.None? then Pending() == [] else old(Pending()) == [r.value] + Pending()
    {
      if done {
        return None;
      }
      r := Some(lo);
      if lo == hi {
        done := true;
      } else {
        lo := lo + 1;
      }
      from := from + 1;
    }

    method NextBack() returns (r: Option<nat>)
      requires Valid()
      modifies this
      ensures Valid() && from == old(from) && (r.None? <==> old(Pending()) == [])
      ensures if r.None? then end == old(end) else r.value == end && old(end) == end + 1
      ensures if r.None? then Pending() == [] else old(Pending()) == Pending() + [r.value]
    {
      if done {
        return None;
      }
      r := Some(hi);
      if lo == hi {
        done := true;
      } else {
        hi := hi - 1;
      }
      end := end - 1;
    }
  }
}
