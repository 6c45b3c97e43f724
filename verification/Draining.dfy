/** Iterators of the gapped array: both bitmaps drained in lockstep, from either end. */
module Draining {
  import opened Wrappers
  import opened Bitmaps
  import opened Layouts
  import opened Placement
  import opened Cursors
  import opened Interleaving

  lemma OnlyMember<T>(m: map<nat, T>, i: nat)
    requires |m| == 1 && i in m
    ensures m == map[i := m[i]] && m - {i} == map[]
  {
    assert |m.Keys - {i}| == 0;
    assert forall j :: j in m ==> j == i || j in m.Keys - {i};
    assert m.Keys == {i};
  }

  lemma NoMembers<T>(occ: Bits, m: map<nat, T>)
    requires Members(occ, m) && Count(occ) == 0
    ensures m == map[]
  {
    NoPositions(occ);
  }

  /** The keys, each with its value. */
  ghost function PairsOf<T>(ps: seq<nat>, m: map<nat, T>): (s: seq<(nat, T)>)
    requires forall p :: p in ps ==> p in m
    ensures |s| == |ps| && forall r :: 0 <= r < |s| ==> s[r] == (ps[r], m[ps[r]])
  {
    seq(|ps|, r requires 0 <= r < |ps| => (ps[r], m[ps[r]]))
  }

  /** The pairs of a map, ascending, for a key set given as a word. */
  ghost function Listing<T>(occ: Bits, m: map<nat, T>): (s: seq<(nat, T)>)
    requires forall i :: 0 <= i < |occ| && occ[i] ==> i in m
    ensures |s| == Count(occ)
  {
    PairsOf(Positions(occ), m)
  }

  /** The listing names every key once, in strictly ascending order, with its own value. */
  lemma ListingIsMap<T>(occ: Bits, m: map<nat, T>)
    requires Members(occ, m)
    ensures forall r, s :: 0 <= r < s < |Listing(occ, m)| ==> Listing(occ, m)[r].0 < Listing(occ, m)[s].0
    ensures forall i :: i in m ==> (i, m[i]) in Listing(occ, m)
    ensures forall e :: e in Listing(occ, m) ==> e.0 in m && e.1 == m[e.0]
  {
    var l := Listing(occ, m);
    forall r, s | 0 <= r < s < |l| ensures l[r].0 < l[s].0 {
      PosAscends(occ, r, s);
    }
    forall i | i in m ensures (i, m[i]) in l {
      PosRank(occ, i);
      assert Positions(occ)[Rank(occ, i)] == i && l[Rank(occ, i)] == (i, m[i]);
    }
  }

  /** From an ascending sequence, front draws ascend and back draws descend. */
  lemma AscendingDraws<T>(l: seq<(nat, T)>, ends: seq<End>)
    requires forall j, k :: 0 <= j < k < |l| ==> l[j].0 < l[k].0
    ensures var (fronts, _, backs) := DrawnBy(l, ends);
            (forall j, k :: 0 <= j < k < |fronts| ==> fronts[j].0 < fronts[k].0) &&
            (forall j, k :: 0 <= j < k < |backs| ==> backs[j].0 > backs[k].0)
  {
    DrawsPlace(l, ends);
    var (fronts, rest, backs) := DrawnBy(l, ends);
    forall j, k | 0 <= j < k < |backs| ensures backs[j].0 > backs[k].0 {
      assert backs[j] == l[|l| - 1 - j] && backs[k] == l[|l| - 1 - k];
    }
  }

  /**
   * Whatever the order of ends: the keys drawn from the front ascend, those drawn from the back
   * descend, and with what is left they make up the listing, each entry once.
   */
  lemma DrawsOfListing<T>(occ: Bits, m: map<nat, T>, ends: seq<End>)
    requires Members(occ, m)
    ensures var (fronts, rest, backs) := DrawnBy(Listing(occ, m), ends);
            Listing(occ, m) == fronts + rest + Reversed(backs) &&
            (forall j, k :: 0 <= j < k < |fronts| ==> fronts[j].0 < fronts[k].0) &&
            (forall j, k :: 0 <= j < k < |backs| ==> backs[j].0 > backs[k].0) &&
            (|ends| >= |m| ==> rest == [])
  {
    ListingIsMap(occ, m);
    MemberCount(occ, m);
    DrawsSplit(Listing(occ, m), ends);
    AscendingDraws(Listing(occ, m), ends);
  }

  /** Drawing rank `r` of both words takes one pair out and leaves a block of the rest. */
  lemma DrawRank<T>(b: Block<T>, m: map<nat, T>, r: nat)
    requires Holds(b, m) && r < Count(b.occupancy)
    ensures r < Count(b.live)
    ensures var i, p := Pos(b.occupancy, r), Pos(b.live, r);
            p < |b.slots| && i in m && b.slots[p] == Some(m[i]) && Holds(Emptied(b, i, p), m - {i})
  {
    var i, p := Pos(b.occupancy, r), Pos(b.live, r);
    assert Paired(b, i, p);
    EmptiedHolds(b, m, i, p);
  }

  /** Taking the first key out of the listing. */
  lemma ListingFront<T>(occ: Bits, m: map<nat, T>)
    requires Count(occ) > 0 && Members(occ, m)
    ensures var i := Pos(occ, 0);
            Listing(occ, m) == [(i, m[i])] + Listing(occ[i := false], m - {i})
  {
    FrontPosition(occ);
    var i := Pos(occ, 0);
    PairsFront(i, Positions(occ[i := false]), m);
  }

  lemma PairsFront<T>(i: nat, ps: seq<nat>, m: map<nat, T>)
    requires i in m && i !in ps && forall p :: p in ps ==> p in m
    ensures PairsOf([i] + ps, m) == [(i, m[i])] + PairsOf(ps, m - {i})
  {}

  /** Taking the last key out of the listing. */
  lemma ListingBack<T>(occ: Bits, m: map<nat, T>)
    requires Count(occ) > 0 && Members(occ, m)
    ensures var i := Pos(occ, Count(occ) - 1);
            Listing(occ, m) == Listing(occ[i := false], m - {i}) + [(i, m[i])]
  {
    BackPosition(occ);
    var i := Pos(occ, Count(occ) - 1);
    PairsBack(i, Positions(occ[i := false]), m);
  }

  lemma PairsBack<T>(i: nat, ps: seq<nat>, m: map<nat, T>)
    requires i in m && i !in ps && forall p :: p in ps ==> p in m
    ensures PairsOf(ps + [i], m) == PairsOf(ps, m - {i}) + [(i, m[i])]
  {}

  /** Drawing from the front of both words. */
  lemma DrawFirst<T>(b: Block<T>, m: map<nat, T>)
    requires Holds(b, m) && Count(b.occupancy) > 0
    ensures Count(b.live) > 0
    ensures var i, p := Pos(b.occupancy, 0), Pos(b.live, 0);
            p < |b.slots| && i in m && b.slots[p] == Some(m[i]) && Holds(Emptied(b, i, p), m - {i}) &&
            Listing(b.occupancy, m) == [(i, m[i])] + Listing(b.occupancy[i := false], m - {i})
  {
    DrawRank(b, m, 0);
    ListingFront(b.occupancy, m);
  }

  /** Drawing from the back of both words. */
  lemma DrawLast<T>(b: Block<T>, m: map<nat, T>)
    requires Holds(b, m) && Count(b.occupancy) > 0
    ensures Count(b.live) > 0
    ensures var i, p := Pos(b.occupancy, Count(b.occupancy) - 1), Pos(b.live, Count(b.live) - 1);
            p < |b.slots| && i in m && b.slots[p] == Some(m[i]) && Holds(Emptied(b, i, p), m - {i}) &&
            Listing(b.occupancy, m) == Listing(b.occupancy[i := false], m - {i}) + [(i, m[i])]
  {
    DrawRank(b, m, Count(b.occupancy) - 1);
    ListingBack(b.occupancy, m);
  }

  /** The slots with everything outside the live word blanked. */
  ghost function Masked<T>(slots: seq<Option<T>>, live: Bits): (s: seq<Option<T>>)
    requires |slots| <= |live|
    ensures |s| == |slots| && forall p :: 0 <= p < |s| ==> s[p] == if live[p] then slots[p] else None
  {
    seq(|slots|, p requires 0 <= p < |slots| => if live[p] then slots[p] else None)
  }

  lemma MaskedLess<T>(slots: seq<Option<T>>, live: Bits, p: nat)
    requires p < |slots| <= |live|
    ensures Masked(slots, live[p := false]) == Masked(slots, live)[p := None]
  {}

  /** The borrowing iterator over present pairs: it reads the slots and never changes them. */
  class PresentIter<T> {
    const data: array<Option<T>>
    const occBits: BitIter
    const liveBits: BitIter
    /** What is still to be drawn. */
    ghost var rest: map<nat, T>

    ghost function View(): Block<T>
      reads this, data, occBits, liveBits
      requires data.Length <= |liveBits.remaining|
    {
      Block(occBits.remaining, liveBits.remaining, Masked(data[..], liveBits.remaining))
    }

    ghost predicate Valid()
      reads this, data, occBits, liveBits
    {
      occBits != liveBits && data.Length <= |liveBits.remaining| && Holds(View(), rest)
    }

    /** The pairs still to be drawn, ascending. */
    ghost function Pending(): seq<(nat, T)>
      requires Valid()
      reads this, data, occBits, liveBits
    {
      Listing(occBits.remaining, rest)
    }

    /** What one draw did: the pair of rank `r` is gone from the word and from the rest. */
    ghost predicate Drawn(occ: Bits, m: map<nat, T>, r: int, e: (nat, T))
      reads this, occBits
    {
      0 <= r < Count(occ) && e.0 == Pos(occ, r) && occBits.remaining == occ[e.0 := false] &&
      e.0 in m && e.1 == m[e.0] && rest == m - {e.0}
    }

    constructor (occ: Bits, live: Bits, slots: array<Option<T>>, ghost m: map<nat, T>)
      requires Holds(Block(occ, live, slots[..]), m)
      ensures Valid() && rest == m && Pending() == Listing(occ, m)
      ensures fresh(occBits) && fresh(liveBits) && data == slots && occBits.remaining == occ
    {
      data := slots;
      occBits := new BitIter(occ);
      liveBits := new BitIter(live);
      rest := m;
      new;
      assert Masked(slots[..], live) == slots[..];
    }

    /** Draws the front pair. */
    method Next() returns (r: Option<(nat, T)>)
      requires Valid()
      modifies this, occBits, liveBits
      ensures Valid() && (r.None? <==> old(Pending()) == [])
      ensures if r.None? then Pending() == [] else old(Pending()) == [r.value] + Pending()
      ensures r.Some? ==> Drawn(old(occBits.remaining), old(rest), 0, r.value)
    {
      ghost var before := View();
      var i := occBits.Next();
      if i.None? {
        return None;
      }
      DrawFirst(before, rest);
      var p := liveBits.Next();
      rest := rest - {i.value};
      MaskedLess(data[..], before.live, p.value);
      assert View() == Emptied(before, i.value, p.value);
      r := Some((i.value, data[p.value].value));
    }

    /** Draws the back pair. */
    method NextBack() returns (r: Option<(nat, T)>)
      requires Valid()
      modifies this, occBits, liveBits
      ensures Valid() && (r.None? <==> old(Pending()) == [])
      ensures if r.None? then Pending() == [] else old(Pending()) == Pending() + [r.value]
      ensures r.Some? ==> Drawn(old(occBits.remaining), old(rest), |old(Pending())| - 1, r.value)
    {
      ghost var before := View();
      var i := occBits.NextBack();
      if i.None? {
        return None;
      }
      DrawLast(before, rest);
      var p := liveBits.NextBack();
      rest := rest - {i.value};
      MaskedLess(data[..], before.live, p.value);
      assert View() == Emptied(before, i.value, p.value);
      r := Some((i.value, data[p.value].value));
    }

    /** Draws from the given ends, one after another. */
    method DrawEach(ends: seq<End>) returns (fronts: seq<(nat, T)>, backs: seq<(nat, T)>)
      requires Valid()
      modifies this, occBits, liveBits
      ensures Valid() && (fronts, Pending(), backs) == DrawnBy(old(Pending()), ends)
    {
      fronts, backs := [], [];
      for k := 0 to |ends|
        invariant Valid() && (fronts, Pending(), backs) == DrawnBy(old(Pending()), ends[..k])
      {
        assert ends[..k + 1] == ends[..k] + [ends[k]];
        ghost var rest := Pending();
        var r;
        if ends[k].Front? {
          r := Next();
        } else {
          r := NextBack();
        }
        if r.None? {
          DrawNone(old(Pending()), ends[..k], ends[k]);
          continue;
        }
        DrawOne(old(Pending()), ends[..k], fronts, rest, backs, r.value, Pending());
        if ends[k].Front? {
          fronts := fronts + [r.value];
        } else {
          backs := backs + [r.value];
        }
      }
      assert ends[..|ends|] == ends;
    }

    /** Drains the front to the end. */
    method Collect() returns (items: seq<(nat, T)>)
      requires Valid()
      modifies this, occBits, liveBits
      ensures Valid() && items == old(Pending()) && Pending() == []
    {
      items := [];
      while true
        invariant Valid() && items + Pending() == old(Pending())
        decreases |Pending()|
      {
        var e := Next();
        if e.None? {
          break;
        }
        items := items + [e.value];
      }
    }
  }

  /** The elements of a map, each once, in the order of their indices. */
  ghost predicate AllDropped<T>(dropped: seq<T>, occ: Bits, m: map<nat, T>) {
    Members(occ, m) && |dropped| == Count(occ) && forall r :: 0 <= r < |dropped| ==> dropped[r] == m[Pos(occ, r)]
  }

  lemma DroppedAll<T>(b: Block<T>, m: map<nat, T>, dropped: seq<T>)
    requires Holds(b, m) && |dropped| == Count(b.live)
    requires forall r :: 0 <= r < |dropped| ==> Pos(b.live, r) < |b.slots| && b.slots[Pos(b.live, r)] == Some(dropped[r])
    ensures AllDropped(dropped, b.occupancy, m)
  {
    forall r | 0 <= r < |dropped| ensures dropped[r] == m[Pos(b.occupancy, r)] {
      DrawRank(b, m, r);
    }
  }

  /** The owning iterator: every draw moves the element out of its slot. */
  class IntoIter<T> {
    /** The block taken over from the array. */
    const slots: array<Option<T>>
    const occBits: BitIter
    const liveBits: BitIter
    /** The slots still holding an element. */
    var remainingLive: Bits
    ghost var rest: map<nat, T>

    ghost function View(): Block<T>
      reads this, slots, occBits, liveBits
    {
      Block(occBits.remaining, liveBits.remaining, slots[..])
    }

    ghost predicate Valid()
      reads this, slots, occBits, liveBits
    {
      occBits != liveBits && Holds(View(), rest) && remainingLive == liveBits.remaining
    }

    ghost function Pending(): seq<(nat, T)>
      requires Valid()
      reads this, slots, occBits, liveBits
    {
      Listing(occBits.remaining, rest)
    }

    /** The slots that hold an element are exactly the ones the iterator would drop. */
    ghost predicate KnowsInitialised()
      reads this, slots
    {
      forall p :: 0 <= p < slots.Length ==> (slots[p].Some? <==> p < |remainingLive| && remainingLive[p])
    }

    constructor (occ: Bits, live: Bits, block: array<Option<T>>, ghost m: map<nat, T>)
      requires Holds(Block(occ, live, block[..]), m)
      ensures Valid() && rest == m && Pending() == Listing(occ, m) && KnowsInitialised()
      ensures fresh(occBits) && fresh(liveBits) && slots == block
    {
      slots := block;
      occBits := new BitIter(occ);
      liveBits := new BitIter(live);
      remainingLive := live;
      rest := m;
    }

    method Next() returns (r: Option<(nat, T)>)
      requires Valid()
      modifies this, slots, occBits, liveBits
      ensures Valid() && KnowsInitialised() && (r.None? <==> old(Pending()) == [])
      ensures if r.None? then Pending() == [] else old(Pending()) == [r.value] + Pending()
    {
      ghost var before := View();
      var i := occBits.Next();
      if i.None? {
        return None;
      }
      DrawFirst(before, rest);
      var p := liveBits.Next();
      remainingLive := remainingLive[p.value := false];
      r := Some((i.value, slots[p.value].value));
      slots[p.value] := None;
      rest := rest - {i.value};
      assert View() == Emptied(before, i.value, p.value);
    }

    method NextBack() returns (r: Option<(nat, T)>)
      requires Valid()
      modifies this, slots, occBits, liveBits
      ensures Valid() && KnowsInitialised() && (r.None? <==> old(Pending()) == [])
      ensures if r.None? then Pending() == [] else old(Pending()) == Pending() + [r.value]
    {
      ghost var before := View();
      var i := occBits.NextBack();
      if i.None? {
        return None;
      }
      DrawLast(before, rest);
      var p := liveBits.NextBack();
      remainingLive := remainingLive[p.value := false];
      r := Some((i.value, slots[p.value].value));
      slots[p.value] := None;
      rest := rest - {i.value};
      assert View() == Emptied(before, i.value, p.value);
    }

    /** Dropping the iterator at any point drops exactly what was not drawn, each element once. */
    method Drop() returns (ghost dropped: seq<T>)
      requires Valid()
      modifies slots
      ensures AllDropped(dropped, occBits.remaining, rest)
      ensures forall p :: 0 <= p < slots.Length ==> slots[p].None?
    {
      ghost var before := View();
      dropped := DropLive(slots, remainingLive);
      DroppedAll(before, rest, dropped);
    }

    /** Draws from the given ends, one after another. */
    method DrawEach(ends: seq<End>) returns (fronts: seq<(nat, T)>, backs: seq<(nat, T)>)
      requires Valid()
      modifies this, slots, occBits, liveBits
      ensures Valid() && (fronts, Pending(), backs) == DrawnBy(old(Pending()), ends)
    {
      fronts, backs := [], [];
      for k := 0 to |ends|
        invariant Valid() && (fronts, Pending(), backs) == DrawnBy(old(Pending()), ends[..k])
      {
        assert ends[..k + 1] == ends[..k] + [ends[k]];
        ghost var rest := Pending();
        var r;
        if ends[k].Front? {
          r := Next();
        } else {
          r := NextBack();
        }
        if r.None? {
          DrawNone(old(Pending()), ends[..k], ends[k]);
          continue;
        }
        DrawOne(old(Pending()), ends[..k], fronts, rest, backs, r.value, Pending());
        if ends[k].Front? {
          fronts := fronts + [r.value];
        } else {
          backs := backs + [r.value];
        }
      }
      assert ends[..|ends|] == ends;
    }
  }

  /** The indices of an interval, each with its element if it is present. */
  ghost function Entries<T>(m: map<nat, T>, from: nat, end: nat): (s: seq<(nat, Option<T>)>)
    requires from <= end
    ensures |s| == end - from && forall k :: 0 <= k < |s| ==> s[k] == Entry(m, from + k)
  {
    seq(end - from, k requires 0 <= k < end - from => Entry(m, from + k))
  }

  /** The first entry, and the entries of the map without it. */
  lemma FrontEntry<T>(m: map<nat, T>, from: nat, end: nat)
    requires from < end
    ensures Entries(m, from, end) == [Entry(m, from)] + Entries(m - {from}, from + 1, end)
    ensures from !in m ==> m - {from} == m
  {}

  lemma BackEntry<T>(m: map<nat, T>, from: nat, last: nat)
    requires from <= last
    ensures Entries(m, from, last + 1) == Entries(m - {last}, from, last) + [Entry(m, last)]
    ensures last !in m ==> m - {last} == m
  {}

  /** The iterator over all slots: the index range, pulling present elements as it crosses them. */
  class AllIter<T> {
    const present: PresentIter<T>
    const bitmap: Bits
    const range: RangeInclusive

    ghost predicate Valid()
      reads this, present, present.data, present.occBits, present.liveBits, range
    {
      present.Valid() && range.Valid() && Within(present.occBits.remaining, bitmap, range.from, range.end)
    }

    /** Every index still to be drawn, with its element if it is present. */
    ghost function Pending(): (s: seq<(nat, Option<T>)>)
      requires range.Valid()
      reads this, present, range
    {
      Entries(present.rest, range.from, range.end)
    }

    constructor (occ: Bits, live: Bits, slots: array<Option<T>>, ghost m: map<nat, T>)
      requires Holds(Block(occ, live, slots[..]), m) && 0 < |occ|
      ensures Valid() && Pending() == Entries(m, 0, |occ|)
      ensures fresh(present) && fresh(present.occBits) && fresh(present.liveBits) && fresh(range)
    {
      present := new PresentIter(occ, live, slots, m);
      bitmap := occ;
      range := new RangeInclusive(0, |occ| - 1);
    }

    method Next() returns (r: Option<(nat, Option<T>)>)
      requires Valid()
      modifies present, present.occBits, present.liveBits, range
      ensures Valid() && (r.None? <==> old(Pending()) == [])
      ensures if r.None? then Pending() == [] else old(Pending()) == [r.value] + Pending()
    {
      ghost var m, from, end := present.rest, range.from, range.end;
      var i := range.Next();
      if i.None? {
        return None;
      }
      FrontEntry(m, from, end);
      WithinFront(present.occBits.remaining, bitmap, from, end);
      if bitmap[i.value] {
        var e := present.Next();
        r := Some((i.value, Some(e.value.1)));
      } else {
        r := Some((i.value, None));
      }
    }

    method NextBack() returns (r: Option<(nat, Option<T>)>)
      requires Valid()
      modifies present, present.occBits, present.liveBits, range
      ensures Valid() && (r.None? <==> old(Pending()) == [])
      ensures if r.None? then Pending() == [] else old(Pending()) == Pending() + [r.value]
    {
      ghost var m, from, end := present.rest, range.from, range.end;
      var i := range.NextBack();
      if i.None? {
        return None;
      }
      BackEntry(m, from, i.value);
      WithinBack(present.occBits.remaining, bitmap, from, i.value);
      if bitmap[i.value] {
        var e := present.NextBack();
        r := Some((i.value, Some(e.value.1)));
      } else {
        r := Some((i.value, None));
      }
    }

    /** Draws from the given ends, one after another. */
    method DrawEach(ends: seq<End>) returns (fronts: seq<(nat, Option<T>)>, backs: seq<(nat, Option<T>)>)
      requires Valid()
      modifies present, present.occBits, present.liveBits, range
      ensures Valid() && (fronts, Pending(), backs) == DrawnBy(old(Pending()), ends)
    {
      fronts, backs := [], [];
      for k := 0 to |ends|
        invariant Valid() && (fronts, Pending(), backs) == DrawnBy(old(Pending()), ends[..k])
      {
        assert ends[..k + 1] == ends[..k] + [ends[k]];
        ghost var rest := Pending();
        var r;
        if ends[k].Front? {
          r := Next();
        } else {
          r := NextBack();
        }
        if r.None? {
          DrawNone(old(Pending()), ends[..k], ends[k]);
          continue;
        }
        DrawOne(old(Pending()), ends[..k], fronts, rest, backs, r.value, Pending());
        if ends[k].Front? {
          fronts := fronts + [r.value];
        } else {
          backs := backs + [r.value];
        }
      }
      assert ends[..|ends|] == ends;
    }
  }

  function Entry<T>(m: map<nat, T>, i: nat): (e: (nat, Option<T>))
    ensures e.0 == i && (e.1.Some? <==> i in m) && (i in m ==> e.1.value == m[i])
  {
    (i, if i in m then Some(m[i]) else None)
  }

  /** The members of a word inside an interval. */
  ghost predicate Within(ahead: Bits, bitmap: Bits, from: nat, end: nat) {
    from <= end <= |bitmap| == |ahead| && forall i :: 0 <= i < |bitmap| ==> (ahead[i] <==> bitmap[i] && from <= i < end)
  }

  /** Crossing the first index of the interval: a member there is the first one ahead. */
  lemma WithinFront(ahead: Bits, bitmap: Bits, from: nat, end: nat)
    requires Within(ahead, bitmap, from, end) && from < end
    ensures bitmap[from] ==> Count(ahead) > 0 && Pos(ahead, 0) == from
    ensures Within(ahead[from := false], bitmap, from + 1, end)
    ensures !bitmap[from] ==> ahead[from := false] == ahead
  {
    if bitmap[from] {
      CountClear(ahead[..from]);
      PosRank(ahead, from);
    }
  }

  /** Crossing the last index of the interval: a member there is the last one ahead. */
  lemma WithinBack(ahead: Bits, bitmap: Bits, from: nat, last: nat)
    requires Within(ahead, bitmap, from, last + 1) && from <= last
    ensures bitmap[last] ==> Count(ahead) > 0 && Pos(ahead, Count(ahead) - 1) == last
    ensures Within(ahead[last := false], bitmap, from, last)
    ensures !bitmap[last] ==> ahead[last := false] == ahead
  {
    if bitmap[last] {
      assert ahead == ahead[..last + 1] + ahead[last + 1..];
      CountConcat(ahead[..last + 1], ahead[last + 1..]);
      CountClear(ahead[last + 1..]);
      RankStep(ahead, last);
      PosRank(ahead, last);
    }
  }
}
