/** Iterators of the packed array: running rank counters instead of rank queries. */
module PackedDraining {
  import opened Wrappers
  import opened Bitmaps
  import opened Layouts
  import opened Cursors
  import opened Interleaving
  import opened Draining
  import opened Packed

  /** The first element of a dense run belongs to the first member. */
  lemma DenseFront<T>(bits: Bits, m: map<nat, T>)
    requires Members(bits, m) && Count(bits) > 0
    ensures var i := Pos(bits, 0);
            i in m && Members(bits[i := false], m - {i}) && Count(bits[i := false]) == Count(bits) - 1 &&
            Dense(bits, m) == [Some(m[i])] + Dense(bits[i := false], m - {i})
  {
    FrontPosition(bits);
    CountUpdate(bits, Pos(bits, 0), false);
    DenseCons(Pos(bits, 0), Positions(bits[Pos(bits, 0) := false]), m);
  }

  lemma DenseCons<T>(i: nat, ps: seq<nat>, m: map<nat, T>)
    requires i in m && i !in ps && forall p :: p in ps ==> p in m
    ensures DenseOf([i] + ps, m) == [Some(m[i])] + DenseOf(ps, m - {i})
  {}

  /** The last element of a dense run belongs to the last member. */
  lemma DenseBack<T>(bits: Bits, m: map<nat, T>)
    requires Members(bits, m) && Count(bits) > 0
    ensures var i := Pos(bits, Count(bits) - 1);
            i in m && Members(bits[i := false], m - {i}) && Count(bits[i := false]) == Count(bits) - 1 &&
            Dense(bits, m) == Dense(bits[i := false], m - {i}) + [Some(m[i])]
  {
    BackPosition(bits);
    CountUpdate(bits, Pos(bits, Count(bits) - 1), false);
    DenseSnoc(Pos(bits, Count(bits) - 1), Positions(bits[Pos(bits, Count(bits) - 1) := false]), m);
  }

  lemma DenseSnoc<T>(i: nat, ps: seq<nat>, m: map<nat, T>)
    requires i in m && i !in ps && forall p :: p in ps ==> p in m
    ensures DenseOf(ps + [i], m) == DenseOf(ps, m - {i}) + [Some(m[i])]
  {}

  /** The stretch `[front, back)` of the block holds the rest of the map, in order. */
  ghost predicate Lined<T>(slots: seq<Option<T>>, front: nat, back: nat, bits: Bits, m: map<nat, T>) {
    front <= back <= |slots| && Members(bits, m) && slots[front..back] == Dense(bits, m)
  }

  /** Drawing the front element moves the front up by one. */
  lemma LinedFront<T>(slots: seq<Option<T>>, front: nat, back: nat, bits: Bits, m: map<nat, T>)
    requires Lined(slots, front, back, bits, m) && Count(bits) > 0
    ensures var i := Pos(bits, 0);
            front < back && i in m && slots[front] == Some(m[i]) && Lined(slots, front + 1, back, bits[i := false], m - {i})
  {
    DenseFront(bits, m);
    var i := Pos(bits, 0);
    SliceFront(slots, front, back, Some(m[i]), Dense(bits[i := false], m - {i}));
  }

  lemma SliceFront<X>(s: seq<X>, front: nat, back: nat, x: X, rest: seq<X>)
    requires front <= back <= |s| && s[front..back] == [x] + rest
    ensures front < back && s[front] == x && s[front + 1..back] == rest
  {
    assert s[front] == s[front..back][0];
    assert s[front + 1..back] == s[front..back][1..];
  }

  lemma SliceBack<X>(s: seq<X>, front: nat, back: nat, rest: seq<X>, x: X)
    requires front <= back <= |s| && s[front..back] == rest + [x]
    ensures front < back && s[back - 1] == x && s[front..back - 1] == rest
  {
    assert s[back - 1] == s[front..back][|rest|];
    assert s[front..back - 1] == s[front..back][..|rest|];
  }

  /** Drawing the back element moves the back down by one. */
  lemma LinedBack<T>(slots: seq<Option<T>>, front: nat, back: nat, bits: Bits, m: map<nat, T>)
    requires Lined(slots, front, back, bits, m) && Count(bits) > 0
    ensures var i := Pos(bits, Count(bits) - 1);
            front < back && i in m && slots[back - 1] == Some(m[i]) && Lined(slots, front, back - 1, bits[i := false], m - {i})
  {
    DenseBack(bits, m);
    var i := Pos(bits, Count(bits) - 1);
    SliceBack(slots, front, back, Dense(bits[i := false], m - {i}), Some(m[i]));
  }

  /** The borrowing iterator over present pairs: one bit cursor and a rank counter for each end. */
  class PackedIter<T> {
    const data: array<Option<T>>
    const bits: BitIter
    const count: nat
    var frontRank: nat
    var backConsumed: nat
    ghost var rest: map<nat, T>

    ghost predicate Valid()
      reads this, data, bits
    {
      count == data.Length && frontRank + backConsumed <= count &&
      Lined(data[..], frontRank, count - backConsumed, bits.remaining, rest)
    }

    /** The pairs still to be drawn, ascending. */
    ghost function Pending(): seq<(nat, T)>
      requires Valid()
      reads this, data, bits
    {
      Listing(bits.remaining, rest)
    }

    constructor (bitmap: Bits, slots: array<Option<T>>, ghost m: map<nat, T>)
      requires Members(bitmap, m) && slots[..] == Dense(bitmap, m)
      ensures Valid() && Pending() == Listing(bitmap, m) && fresh(bits) && data == slots
    {
      data := slots;
      bits := new BitIter(bitmap);
      count := slots.Length;
      frontRank, backConsumed := 0, 0;
      rest := m;
      new;
      assert slots[..][0..slots.Length] == slots[..];
    }

    method Next() returns (r: Option<(nat, T)>)
      requires Valid()
      modifies this, bits
      ensures Valid() && (r.None? <==> old(Pending()) == [])
      ensures if r.None? then Pending() == [] else old(Pending()) == [r.value] + Pending()
    {
      ghost var before := bits.remaining;
      var index := bits.Next();
      if index.None? {
        return None;
      }
      LinedFront(data[..], frontRank, count - backConsumed, before, rest);
      ListingFront(before, rest);
      var rank := frontRank;
      frontRank := frontRank + 1;
      rest := rest - {index.value};
      r := Some((index.value, data[rank].value));
    }

    method NextBack() returns (r: Option<(nat, T)>)
      requires Valid()
      modifies this, bits
      ensures Valid() && (r.None? <==> old(Pending()) == [])
      ensures if r.None? then Pending() == [] else old(Pending()) == Pending() + [r.value]
    {
      ghost var before := bits.remaining;
      var index := bits.NextBack();
      if index.None? {
        return None;
      }
      LinedBack(data[..], frontRank, count - backConsumed, before, rest);
      ListingBack(before, rest);
      var rank := count - 1 - backConsumed;
      backConsumed := backConsumed + 1;
      rest := rest - {index.value};
      r := Some((index.value, data[rank].value));
    }

    /** Draws from the given ends, one after another. */
    method DrawEach(ends: seq<End>) returns (fronts: seq<(nat, T)>, backs: seq<(nat, T)>)
      requires Valid()
      modifies this, bits
      ensures Valid() && (fronts, Pending(), backs) == DrawnBy(old(Pending()), ends)
    {
      fronts, backs := [], [];
      for k := 0 to |ends|
        invariant Valid() && (fronts, Pending(), backs) == DrawnBy(old(Pending()), ends[..k])
      {
        assert ends[..k + 1] == ends[..k] + [ends[k]];
        ghost var rest := Pending();
        var r;
        if ends[k].Front? {
          r := Next();
        } else {
          r := NextBack();
        }
        if r.None? {
          DrawNone(old(Pending()), ends[..k], ends[k]);
          continue;
        }
        DrawOne(old(Pending()), ends[..k], fronts, rest, backs, r.value, Pending());
        if ends[k].Front? {
          fronts := fronts + [r.value];
        } else {
          backs := backs + [r.value];
        }
      }
      assert ends[..|ends|] == ends;
    }

    /** Drains the front to the end. */
    method Collect() returns (items: seq<(nat, T)>)
      requires Valid()
      modifies this, bits
      ensures Valid() && items == old(Pending()) && Pending() == []
    {
      items := [];
      while true
        invariant Valid() && items + Pending() == old(Pending())
        decreases |Pending()|
      {
        var e := Next();
        if e.None? {
          break;
        }
        items := items + [e.value];
      }
    }
  }

  /** The owning iterator: the elements not yet moved out are always one stretch of the block. */
  class PackedInto<T> {
    const slots: array<Option<T>>
    const bits: BitIter
    var front: nat
    var back: nat
    ghost var rest: map<nat, T>

    ghost predicate Valid()
      reads this, slots, bits
    {
      Lined(slots[..], front, back, bits.remaining, rest) &&
      forall p :: 0 <= p < slots.Length ==> (slots[p].Some? <==> front <= p < back)
    }

    ghost function Pending(): seq<(nat, T)>
      requires Valid()
      reads this, slots, bits
    {
      Listing(bits.remaining, rest)
    }

    constructor (bitmap: Bits, block: array<Option<T>>, ghost m: map<nat, T>)
      requires Members(bitmap, m) && block[..] == Dense(bitmap, m)
      ensures Valid() && Pending() == Listing(bitmap, m) && fresh(bits) && slots == block
    {
      slots := block;
      bits := new BitIter(bitmap);
      front, back := 0, block.Length;
      rest := m;
      new;
      assert block[..][0..block.Length] == block[..];
      assert forall p :: 0 <= p < block.Length ==> block[p] == block[..][p];
    }

    method Next() returns (r: Option<(nat, T)>)
      requires Valid()
      modifies this, slots, bits
      ensures Valid() && (r.None? <==> old(Pending()) == [])
      ensures if r.None? then Pending() == [] else old(Pending()) == [r.value] + Pending()
    {
      ghost var before, was := bits.remaining, slots[..];
      var i := bits.Next();
      if i.None? {
        return None;
      }
      LinedFront(was, front, back, before, rest);
      ListingFront(before, rest);
      var rank := front;
      front := front + 1;
      r := Some((i.value, slots[rank].value));
      slots[rank] := None;
      rest := rest - {i.value};
      assert slots[front..back] == was[front..back];
    }

    method NextBack() returns (r: Option<(nat, T)>)
      requires Valid()
      modifies this, slots, bits
      ensures Valid() && (r.None? <==> old(Pending()) == [])
      ensures if r.None? then Pending() == [] else old(Pending()) == Pending() + [r.value]
    {
      ghost var before, was := bits.remaining, slots[..];
      var i := bits.NextBack();
      if i.None? {
        return None;
      }
      LinedBack(was, front, back, before, rest);
      ListingBack(before, rest);
      back := back - 1;
      var rank := back;
      r := Some((i.value, slots[rank].value));
      slots[rank] := None;
      rest := rest - {i.value};
      assert slots[front..back] == was[front..back];
    }

    /** Draws from the given ends, one after another. */
    method DrawEach(ends: seq<End>) returns (fronts: seq<(nat, T)>, backs: seq<(nat, T)>)
      requires Valid()
      modifies this, slots, bits
      ensures Valid() && (fronts, Pending(), backs) == DrawnBy(old(Pending()), ends)
    {
      fronts, backs := [], [];
      for k := 0 to |ends|
        invariant Valid() && (fronts, Pending(), backs) == DrawnBy(old(Pending()), ends[..k])
      {
        assert ends[..k + 1] == ends[..k] + [ends[k]];
        ghost var rest := Pending();
        var r;
        if ends[k].Front? {
          r := Next();
        } else {
          r := NextBack();
        }
        if r.None? {
          DrawNone(old(Pending()), ends[..k], ends[k]);
          continue;
        }
        DrawOne(old(Pending()), ends[..k], fronts, rest, backs, r.value, Pending());
        if ends[k].Front? {
          fronts := fronts + [r.value];
        } else {
          backs := backs + [r.value];
        }
      }
      assert ends[..|ends|] == ends;
    }

    /** Dropping the iterator at any point drops the stretch not yet drawn, each element once. */
    method Drop() returns (ghost dropped: seq<T>)
      requires Valid()
      modifies slots
      ensures AllDropped(dropped, bits.remaining, rest)
      ensures forall p :: 0 <= p < slots.Length ==> slots[p].None?
    {
      dropped := [];
      for p := front to back
        invariant |dropped| == p - front
        invariant forall q :: 0 <= q < slots.Length ==> slots[q] == if q < p then None else old(slots[q])
        invariant forall r :: 0 <= r < |dropped| ==> old(slots[front + r]) == Some(dropped[r])
      {
        dropped := dropped + [slots[p].value];
        slots[p] := None;
      }
      ghost var elements := Dense(bits.remaining, rest);
      assert forall r :: 0 <= r < |dropped| ==> elements[r] == old(slots[..])[front..back][r];
    }
  }

  /** The stretch `[front, back)` of the block holds what lies ahead in the interval `[from, end)`. */
  ghost predicate Crossing<T>(slots: seq<Option<T>>, front: nat, back: nat, bitmap: Bits, ahead: Bits, m: map<nat, T>,
                              from: nat, end: nat) {
    Lined(slots, front, back, ahead, m) && Within(ahead, bitmap, from, end)
  }

  /** Crossing a member from the front takes the front element. */
  lemma CrossFront<T>(slots: seq<Option<T>>, front: nat, back: nat, bitmap: Bits, ahead: Bits, m: map<nat, T>,
                      from: nat, end: nat)
    requires Crossing(slots, front, back, bitmap, ahead, m, from, end) && from < end && bitmap[from]
    ensures front < back && from in m && slots[front] == Some(m[from])
    ensures Crossing(slots, front + 1, back, bitmap, ahead[from := false], m - {from}, from + 1, end)
    ensures Entries(m, from, end) == [(from, slots[front])] + Entries(m - {from}, from + 1, end)
  {
    WithinFront(ahead, bitmap, from, end);
    LinedFront(slots, front, back, ahead, m);
    FrontEntry(m, from, end);
  }

  /** Crossing an absent index from the front takes nothing. */
  lemma SkipFront<T>(slots: seq<Option<T>>, front: nat, back: nat, bitmap: Bits, ahead: Bits, m: map<nat, T>,
                     from: nat, end: nat)
    requires Crossing(slots, front, back, bitmap, ahead, m, from, end) && from < end && !bitmap[from]
    ensures Crossing(slots, front, back, bitmap, ahead, m, from + 1, end)
    ensures Entries(m, from, end) == [(from, None)] + Entries(m, from + 1, end)
  {
    WithinFront(ahead, bitmap, from, end);
    FrontEntry(m, from, end);
  }

  /** Crossing a member from the back takes the back element. */
  lemma CrossBack<T>(slots: seq<Option<T>>, front: nat, back: nat, bitmap: Bits, ahead: Bits, m: map<nat, T>,
                     from: nat, last: nat)
    requires Crossing(slots, front, back, bitmap, ahead, m, from, last + 1) && from <= last && bitmap[last]
    ensures front < back && last in m && slots[back - 1] == Some(m[last])
    ensures Crossing(slots, front, back - 1, bitmap, ahead[last := false], m - {last}, from, last)
    ensures Entries(m, from, last + 1) == Entries(m - {last}, from, last) + [(last, slots[back - 1])]
  {
    WithinBack(ahead, bitmap, from, last);
    LinedBack(slots, front, back, ahead, m);
    BackEntry(m, from, last);
  }

  /** Crossing an absent index from the back takes nothing. */
  lemma SkipBack<T>(slots: seq<Option<T>>, front: nat, back: nat, bitmap: Bits, ahead: Bits, m: map<nat, T>,
                    from: nat, last: nat)
    requires Crossing(slots, front, back, bitmap, ahead, m, from, last + 1) && from <= last && !bitmap[last]
    ensures Crossing(slots, front, back, bitmap, ahead, m, from, last)
    ensures Entries(m, from, last + 1) == Entries(m, from, last) + [(last, None)]
  {
    WithinBack(ahead, bitmap, from, last);
    BackEntry(m, from, last);
  }

  /** The iterator over all slots: the index range, counting ranks as it crosses present ones. */
  class PackedAll<T> {
    const data: array<Option<T>>
    const bitmap: Bits
    const count: nat
    const range: RangeInclusive
    var frontRank: nat
    var backConsumed: nat
    /** The members still to be crossed, and their elements. */
    ghost var ahead: Bits
    ghost var rest: map<nat, T>

    ghost predicate Valid()
      reads this, data, range
    {
      range.Valid() && count == data.Length && frontRank + backConsumed <= count &&
      Crossing(data[..], frontRank, count - backConsumed, bitmap, ahead, rest, range.from, range.end)
    }

    /** Every index still to be drawn, with its element if it is present. */
    ghost function Pending(): seq<(nat, Option<T>)>
      requires range.Valid()
      reads this, range
    {
      Entries(rest, range.from, range.end)
    }

    constructor (members: Bits, slots: array<Option<T>>, ghost m: map<nat, T>)
      requires Members(members, m) && slots[..] == Dense(members, m) && 0 < |members|
      ensures Valid() && Pending() == Entries(m, 0, |members|) && fresh(range) && data == slots
    {
      data := slots;
      bitmap := members;
      count := slots.Length;
      range := new RangeInclusive(0, |members| - 1);
      frontRank, backConsumed := 0, 0;
      ahead, rest := members, m;
      new;
      assert slots[..][0..slots.Length] == slots[..];
    }

    method Next() returns (r: Option<(nat, Option<T>)>)
      requires Valid()
      modifies this, range
      ensures Valid() && (r.None? <==> old(Pending()) == [])
      ensures if r.None? then Pending() == [] else old(Pending()) == [r.value] + Pending()
    {
      ghost var back := count - backConsumed;
      var i := range.Next();
      if i.None? {
        return None;
      }
      if bitmap[i.value] {
        CrossFront(data[..], frontRank, back, bitmap, ahead, rest, i.value, range.end);
        r := Some((i.value, data[frontRank]));
        frontRank := frontRank + 1;
        ahead, rest := ahead[i.value := false], rest - {i.value};
      } else {
        SkipFront(data[..], frontRank, back, bitmap, ahead, rest, i.value, range.end);
        r := Some((i.value, None));
      }
    }

    method NextBack() returns (r: Option<(nat, Option<T>)>)
      requires Valid()
      modifies this, range
      ensures Valid() && (r.None? <==> old(Pending()) == [])
      ensures if r.None? then Pending() == [] else old(Pending()) == Pending() + [r.value]
    {
      ghost var back := count - backConsumed;
      var i := range.NextBack();
      if i.None? {
        return None;
      }
      if bitmap[i.value] {
        CrossBack(data[..], frontRank, back, bitmap, ahead, rest, range.from, i.value);
        var rank := count - 1 - backConsumed;
        r := Some((i.value, data[rank]));
        backConsumed := backConsumed + 1;
        ahead, rest := ahead[i.value := false], rest - {i.value};
      } else {
        SkipBack(data[..], frontRank, back, bitmap, ahead, rest, range.from, i.value);
        r := Some((i.value, None));
      }
    }

    /** Draws from the given ends, one after another. */
    method DrawEach(ends: seq<End>) returns (fronts: seq<(nat, Option<T>)>, backs: seq<(nat, Option<T>)>)
      requires Valid()
      modifies this, range
      ensures Valid() && (fronts, Pending(), backs) == DrawnBy(old(Pending()), ends)
    {
      fronts, backs := [], [];
      for k := 0 to |ends|
        invariant Valid() && (fronts, Pending(), backs) == DrawnBy(old(Pending()), ends[..k])
      {
        assert ends[..k + 1] == ends[..k] + [ends[k]];
        ghost var rest := Pending();
        var r;
        if ends[k].Front? {
          r := Next();
        } else {
          r := NextBack();
        }
        if r.None? {
          DrawNone(old(Pending()), ends[..k], ends[k]);
          continue;
        }
        DrawOne(old(Pending()), ends[..k], fronts, rest, backs, r.value, Pending());
        if ends[k].Front? {
          fronts := fronts + [r.value];
        } else {
          backs := backs + [r.value];
        }
      }
      assert ends[..|ends|] == ends;
    }
  }
}
