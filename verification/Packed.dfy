/** The packed sparse array: present elements side by side in rank order, in a block of exactly that size. */
module Packed {
  import opened Wrappers
  import opened Bitmaps
  import opened Layouts
  import opened Cursors
  import opened Placement
  import opened Draining

  /** The elements of some keys, in the keys' order. */
  ghost function DenseOf<T>(ps: seq<nat>, m: map<nat, T>): (s: seq<Option<T>>)
    requires forall p :: p in ps ==> p in m
    ensures |s| == |ps| && forall r :: 0 <= r < |s| ==> s[r] == Some(m[ps[r]])
  {
    seq(|ps|, r requires 0 <= r < |ps| => Some(m[ps[r]]))
  }

  /** The block that stores a map: its elements by rank. */
  ghost function Dense<T>(bitmap: Bits, m: map<nat, T>): (s: seq<Option<T>>)
    requires forall i :: 0 <= i < |bitmap| && bitmap[i] ==> i in m
    ensures |s| == Count(bitmap)
  {
    DenseOf(Positions(bitmap), m)
  }

  /** The rank of a member finds its element. */
  lemma DenseAt<T>(bitmap: Bits, m: map<nat, T>, i: nat)
    requires Members(bitmap, m) && i in m
    ensures Rank(bitmap, i) < Count(bitmap) && Dense(bitmap, m)[Rank(bitmap, i)] == Some(m[i])
  {
    PosRank(bitmap, i);
  }

  /** A new bit splits the positions at its rank. */
  lemma PositionsWith(b: Bits, i: nat)
    requires i < |b| && !b[i]
    ensures Rank(b, i) <= Count(b)
    ensures Positions(b[i := true]) == Positions(b)[..Rank(b, i)] + [i] + Positions(b)[Rank(b, i)..]
  {
    RankMonotone(b, i, |b|);
    RankEnds(b);
    var c, k := b[i := true], Rank(b, i);
    CountUpdate(b, i, true);
    RankUpdate(b, i, true, i);
    PosRank(c, i);
    var after, spliced := Positions(c), Positions(b)[..k] + [i] + Positions(b)[k..];
    forall r | 0 <= r < |after| ensures after[r] == spliced[r] {
      SpliceAt(Positions(b), k, i, r);
      if r != k {
        ShiftedPos(b, i, if r < k then r else r - 1);
      }
    }
  }

  lemma SpliceAt(ps: seq<nat>, k: nat, i: nat, r: nat)
    requires k <= |ps| && r <= |ps|
    ensures (ps[..k] + [i] + ps[k..])[r] == if r < k then ps[r] else if r == k then i else ps[r - 1]
  {}

  lemma ShiftedPos(b: Bits, i: nat, r: nat)
    requires i < |b| && !b[i] && r < Count(b)
    ensures var k := if r < Rank(b, i) then r else r + 1;
            k < Count(b[i := true]) && Pos(b[i := true], k) == Pos(b, r)
  {
    var q := Pos(b, r);
    RankUpdate(b, i, true, q);
    if q < i {
      RankMonotone(b, q, i);
    } else {
      RankMonotone(b, i, q);
    }
    PosRank(b[i := true], q);
  }

  /** Inserting splices one element in at its rank. */
  lemma DenseInsert<T>(bitmap: Bits, m: map<nat, T>, i: nat, v: T)
    requires Members(bitmap, m) && i < |bitmap| && !bitmap[i]
    ensures var k := Rank(bitmap, i);
            k <= Count(bitmap) && Count(bitmap[i := true]) == Count(bitmap) + 1 && Members(bitmap[i := true], m[i := v]) &&
            Dense(bitmap[i := true], m[i := v]) == Dense(bitmap, m)[..k] + [Some(v)] + Dense(bitmap, m)[k..]
  {
    CountUpdate(bitmap, i, true);
    PositionsWith(bitmap, i);
    DenseSplice(Positions(bitmap), Rank(bitmap, i), m, i, v);
  }

  lemma DenseSplice<T>(ps: seq<nat>, k: nat, m: map<nat, T>, i: nat, v: T)
    requires k <= |ps| && (forall p :: p in ps ==> p in m) && i !in m
    ensures DenseOf(ps[..k] + [i] + ps[k..], m[i := v]) == DenseOf(ps, m)[..k] + [Some(v)] + DenseOf(ps, m)[k..]
  {}

  /** Removing splices one element out. */
  lemma DenseRemove<T>(bitmap: Bits, m: map<nat, T>, i: nat)
    requires Members(bitmap, m) && i in m
    ensures var k := Rank(bitmap, i);
            k < Count(bitmap) && Count(bitmap[i := false]) == Count(bitmap) - 1 && Members(bitmap[i := false], m - {i}) &&
            Dense(bitmap[i := false], m - {i}) == Dense(bitmap, m)[..k] + Dense(bitmap, m)[k + 1..]
  {
    var c, n := bitmap[i := false], m - {i};
    assert c[i := true] == bitmap && n[i := m[i]] == m;
    DenseInsert(c, n, i, m[i]);
    RankUpdate(bitmap, i, false, i);
  }

  class PackedArray<T> {
    const w: nat
    var bitmap: Bits
    /** Exactly the present elements; `null` when there are none. */
    var slots: array?<Option<T>>
    ghost var contents: map<nat, T>

    ghost function Repr(): set<object>
      reads this
    {
      {this} + (if slots == null then {} else {slots})
    }

    /** A block is never empty, and holds the elements by rank. */
    ghost predicate Valid()
      reads this, slots
    {
      if slots == null then contents == map[] else
        |bitmap| == w && Members(bitmap, contents) && Count(bitmap) > 0 && slots[..] == Dense(bitmap, contents)
    }

    /** The membership bitmap. */
    function Bitmap(): (b: Bits)
      reads this, slots
      requires Valid()
      ensures |b| == w && Members(b, contents)
    {
      if slots == null then Zero(w) else bitmap
    }

    constructor (arity: nat)
      ensures Valid() && w == arity && contents == map[] && slots == null
    {
      w, bitmap, slots, contents := arity, [], null, map[];
    }

    method Get(i: nat) returns (r: Option<T>)
      requires Valid() && i < w
      ensures r == if i in contents then Some(contents[i]) else None
    {
      if slots == null {
        return None;
      }
      if !bitmap[i] {
        return None;
      }
      DenseAt(bitmap, contents, i);
      var rank := RankOf(bitmap, i);
      assert slots[..][rank] == slots[rank];
      r := slots[rank];
    }

    /** Insert or overwrite; a new element reallocates to exactly one slot more. */
    method Insert(i: nat, v: T) returns (prev: Option<T>)
      requires Valid() && i < w
      modifies Repr()
      ensures Valid() && fresh(Repr() - old(Repr())) && contents == old(contents)[i := v]
      ensures prev == if i in old(contents) then Some(old(contents)[i]) else None
    {
      if slots == null {
        SingleDense(w, i, v);
        bitmap := OneBit(w, i);
        slots := new Option<T>[1](_ => Some(v));
        contents := map[i := v];
        return None;
      }
      var rank := RankOf(bitmap, i);
      if bitmap[i] {
        DenseAt(bitmap, contents, i);
        DenseOverwrite(bitmap, contents, i, v);
        assert slots[..][rank] == slots[rank];
        prev := slots[rank];
        slots[rank] := Some(v);
        contents := contents[i := v];
        return;
      }
      DenseInsert(bitmap, contents, i, v);
      var dst := Spliced(slots, rank, v);
      bitmap, slots := bitmap[i := true], dst;
      contents := contents[i := v];
      prev := None;
    }

    /** Removes an index, reallocating to exactly one slot fewer, or to none. */
    method Remove(i: nat) returns (r: Option<T>)
      requires Valid() && i < w
      modifies this
      ensures Valid() && fresh(Repr() - old(Repr())) && contents == old(contents) - {i}
      ensures r == if i in old(contents) then Some(old(contents)[i]) else None
    {
      if slots == null {
        return None;
      }
      if !bitmap[i] {
        return None;
      }
      DenseAt(bitmap, contents, i);
      DenseRemove(bitmap, contents, i);
      var rank := RankOf(bitmap, i);
      assert slots[..][rank] == slots[rank];
      r := slots[rank];
      contents := contents - {i};
      if slots.Length == 1 {
        NoMembers(bitmap[i := false], contents);
        slots := null;
        return;
      }
      var dst := Unspliced(slots, rank);
      bitmap, slots := bitmap[i := false], dst;
    }

    /** Removes the only element, if there is exactly one. */
    method TakeOnlyChild() returns (r: Option<(nat, T)>)
      requires Valid()
      modifies this
      ensures Valid() && fresh(Repr() - old(Repr()))
      ensures |old(contents)| != 1 ==> r == None && contents == old(contents)
      ensures |old(contents)| == 1 ==> r.Some? && old(contents) == map[r.value.0 := r.value.1] && contents == map[]
    {
      if slots == null {
        return None;
      }
      MemberCount(bitmap, contents);
      if Count(bitmap) != 1 {
        return None;
      }
      var bits := new BitIter(bitmap);
      var only := bits.Next();
      assert only.value in contents;
      OnlyMember(contents, only.value);
      var v := Remove(only.value);
      r := Some((only.value, v.value));
    }
  }

  lemma SingleDense<T>(w: nat, i: nat, v: T)
    requires i < w
    ensures Count(OneBit(w, i)) == 1 && Members(OneBit(w, i), map[i := v])
    ensures Dense(OneBit(w, i), map[i := v]) == [Some(v)]
  {
    CountClear(Zero(w));
    CountUpdate(Zero(w), i, true);
    assert Pos(OneBit(w, i), 0) == i;
  }

  lemma DenseOverwrite<T>(bitmap: Bits, m: map<nat, T>, i: nat, v: T)
    requires Members(bitmap, m) && i in m
    ensures Rank(bitmap, i) < Count(bitmap) && Members(bitmap, m[i := v])
    ensures Dense(bitmap, m[i := v]) == Dense(bitmap, m)[Rank(bitmap, i) := Some(v)]
  {
    PosRank(bitmap, i);
    var s, t := Dense(bitmap, m[i := v]), Dense(bitmap, m)[Rank(bitmap, i) := Some(v)];
    forall r | 0 <= r < Count(bitmap) ensures s[r] == t[r] {
      assert r != Rank(bitmap, i) ==> Positions(bitmap)[r] != i;
    }
  }

  /** Copies the two segments around the new element. */
  method Spliced<T>(src: array<Option<T>>, rank: nat, v: T) returns (dst: array<Option<T>>)
    requires rank <= src.Length
    ensures fresh(dst) && dst[..] == src[..rank] + [Some(v)] + src[rank..]
  {
    dst := new Option<T>[src.Length + 1](_ => None);
    forall q | 0 <= q < rank {
      dst[q] := src[q];
    }
    dst[rank] := Some(v);
    forall q | rank <= q < src.Length {
      dst[q + 1] := src[q];
    }
  }

  /** Copies the survivors around the element taken out. */
  method Unspliced<T>(src: array<Option<T>>, rank: nat) returns (dst: array<Option<T>>)
    requires rank < src.Length
    ensures fresh(dst) && dst[..] == src[..rank] + src[rank + 1..]
  {
    dst := new Option<T>[src.Length - 1](_ => None);
    forall q | 0 <= q < rank {
      dst[q] := src[q];
    }
    forall q | rank < q < src.Length {
      dst[q - 1] := src[q];
    }
  }
}
