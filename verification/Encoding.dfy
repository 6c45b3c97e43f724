/** Equality across layouts, and the two encoded forms: compact (bitmap, values) and index-value pairs. */
module Encoding {
  import opened Wrappers
  import opened Bitmaps
  import opened Layouts
  import opened Placement
  import opened Cursors
  import opened Draining
  import opened Gapped
  import opened Packed
  import opened PackedDraining
  import opened Conversions

  // ----- equality

  /** The values in index order. */
  ghost function Values<T>(occ: Bits, m: map<nat, T>): (s: seq<T>)
    requires forall i :: 0 <= i < |occ| && occ[i] ==> i in m
    ensures |s| == Count(occ) && forall r :: 0 <= r < |s| ==> s[r] == m[Pos(occ, r)]
  {
    seq(Count(occ), r requires 0 <= r < Count(occ) => m[Pos(occ, r)])
  }

  /** Equal bitmaps and equal values in order mean exactly equal maps, whatever the layouts. */
  lemma EqualityIsLogical<T>(occ: Bits, m: map<nat, T>, occ': Bits, m': map<nat, T>)
    requires Members(occ, m) && Members(occ', m') && |occ| == |occ'|
    ensures occ == occ' && Values(occ, m) == Values(occ', m') <==> m == m'
  {
    if m == m' {
      assert forall i :: 0 <= i < |occ| ==> occ[i] == occ'[i];
    }
    if occ == occ' && Values(occ, m) == Values(occ', m') {
      forall i | i in m ensures m[i] == m'[i] {
        PosRank(occ, i);
        assert Values(occ, m)[Rank(occ, i)] == m[i] && Values(occ', m')[Rank(occ, i)] == m'[i];
      }
    }
  }

  // ----- the byte form of a bitmap

  /** Eight bits, least significant first. */
  type Byte = b: Bits | |b| == 8 witness [false, false, false, false, false, false, false, false]

  /** Bit `i` of the word is bit `i % 8` of byte `i / 8`. */
  ghost predicate LittleEndian(s: seq<Byte>, b: Bits) {
    |b| == 8 * |s| && forall i :: 0 <= i < |b| ==> s[i / 8][i % 8] == b[i]
  }

  function ToBytes(b: Bits): (s: seq<Byte>)
    requires |b| % 8 == 0
    ensures LittleEndian(s, b)
    decreases |b|
  {
    if b == [] then [] else
      var s := [b[..8]] + ToBytes(b[8..]);
      assert forall i :: 8 <= i < |b| ==> s[i / 8][i % 8] == ToBytes(b[8..])[(i - 8) / 8][(i - 8) % 8] == b[8..][i - 8];
      s
  }

  function FromBytes(s: seq<Byte>): (b: Bits)
    ensures LittleEndian(s, b)
  {
    if s == [] then [] else
      var b := s[0] + FromBytes(s[1..]);
      assert forall i :: 8 <= i < |b| ==> s[i / 8][i % 8] == s[1..][(i - 8) / 8][(i - 8) % 8] == b[i];
      b
  }

  /** A word has one little-endian form, and is read from no other. */
  lemma LittleEndianOnce(s: seq<Byte>, b: Bits, s': seq<Byte>, b': Bits)
    requires LittleEndian(s, b) && LittleEndian(s', b')
    ensures s == s' <==> b == b'
  {
    if s == s' {
      assert forall i :: 0 <= i < |b| ==> b[i] == s[i / 8][i % 8] == b'[i];
    }
    if b == b' {
      forall k | 0 <= k < |s| ensures s[k] == s'[k] {
        forall j | 0 <= j < 8 ensures s[k][j] == s'[k][j] {
          assert (8 * k + j) / 8 == k && (8 * k + j) % 8 == j;
          assert s[k][j] == b[8 * k + j] == b'[8 * k + j];
        }
      }
    }
  }

  lemma BytesRoundTrip(b: Bits)
    requires |b| % 8 == 0
    ensures FromBytes(ToBytes(b)) == b
  {
    LittleEndianOnce(ToBytes(b), b, ToBytes(b), FromBytes(ToBytes(b)));
  }

  /** Decodes exactly the buffers of the bitmap's length. */
  function TryFromBytes(w: nat, buf: seq<Byte>): (r: Option<Bits>)
    requires w % 8 == 0
    ensures r.Some? <==> |buf| == w / 8
    ensures r.Some? ==> |r.value| == w && LittleEndian(buf, r.value)
  {
    if |buf| != w / 8 then None else Some(FromBytes(buf))
  }

  // ----- the compact form

  datatype DecodeError = WrongLength | WrongPopcount | NotAscending
  datatype Decoded<+V> = Good(value: V) | Bad(error: DecodeError)

  datatype Compact<T> = Compact(buf: seq<Byte>, values: seq<T>)

  /** The members below `i`. */
  ghost function Smaller<T>(m: map<nat, T>, i: nat): set<nat> {
    set j | j in m && j < i
  }

  /**
   * The compact form of a map over the indices below `w`: bit `i` of the buffer says whether `i` is a
   * member, and the values stand by the number of smaller members.
   */
  ghost predicate Spells<T>(w: nat, m: map<nat, T>, c: Compact<T>) {
    w == 8 * |c.buf| && (forall i :: i in m ==> i < w) &&
    (forall i :: 0 <= i < w ==> (c.buf[i / 8][i % 8] <==> i in m)) &&
    |c.values| == |m| &&
    forall i :: i in m ==> |Smaller(m, i)| < |m| && c.values[|Smaller(m, i)|] == m[i]
  }

  lemma RankIsSmaller<T>(b: Bits, m: map<nat, T>, i: nat)
    requires Members(b, m) && i <= |b|
    ensures Rank(b, i) == |Smaller(m, i)|
  {
    var part := map j | j in Smaller(m, i) :: m[j];
    assert Members(b[..i], part);
    MemberCount(b[..i], part);
    assert part.Keys == Smaller(m, i);
  }

  /** The bytes of the bitmap with the values in order are the compact form. */
  lemma BitmapSpells<T>(b: Bits, m: map<nat, T>, c: Compact<T>)
    requires Members(b, m) && LittleEndian(c.buf, b) && c.values == Values(b, m)
    ensures Spells(|b|, m, c)
  {
    MemberCount(b, m);
    forall i | i in m ensures |Smaller(m, i)| < |m| && c.values[|Smaller(m, i)|] == m[i] {
      RankIsSmaller(b, m, i);
      PosRank(b, i);
    }
  }

  /** A map has one compact form, and one compact form has one map. */
  lemma SpellsOnce<T>(w: nat, m: map<nat, T>, c: Compact<T>, m': map<nat, T>, c': Compact<T>)
    requires Spells(w, m, c) && Spells(w, m', c')
    ensures m == m' <==> c == c'
  {
    if c == c' {
      assert forall i :: i in m <==> 0 <= i < w && c.buf[i / 8][i % 8];
      assert m.Keys == m'.Keys;
      forall i | i in m ensures m[i] == m'[i] {
        assert Smaller(m, i) == Smaller(m', i);
      }
    }
    if m == m' {
      SameSpelling(w, m, c, c');
    }
  }

  lemma SameSpelling<T>(w: nat, m: map<nat, T>, c: Compact<T>, c': Compact<T>)
    requires Spells(w, m, c) && Spells(w, m, c')
    ensures c == c'
  {
    var b := seq(w, i => i in m);
    LittleEndianOnce(c.buf, b, c'.buf, b);
    forall r | 0 <= r < |m| ensures c.values[r] == c'.values[r] {
      MemberCount(b, m);
      RankIsSmaller(b, m, Pos(b, r));
    }
  }

  /** Scatters the values over the set bits, the r-th to the r-th. */
  method Scatter<T>(bitmap: Bits, values: seq<T>) returns (out: array<Option<T>>)
    requires Count(bitmap) == |values|
    ensures fresh(out) && out.Length == |bitmap| && forall i :: 0 <= i < |bitmap| ==> out[i].Some? == bitmap[i]
    ensures forall r :: 0 <= r < |values| ==> out[Pos(bitmap, r)] == Some(values[r])
  {
    out := new Option<T>[|bitmap|](_ => None);
    var bits := new BitIter(bitmap);
    var r: nat := 0;
    while true
      modifies bits, out
      invariant bits.Drawn(bitmap, r)
      invariant forall i :: 0 <= i < |bitmap| ==> (out[i].Some? <==> bitmap[i] && Rank(bitmap, i) < r)
      invariant forall k :: 0 <= k < r ==> out[Pos(bitmap, k)] == Some(values[k])
      decreases Count(bitmap) - r
    {
      var index := bits.Draw(bitmap, r);
      if index.None? {
        break;
      }
      OnlyRank(bitmap, index.value);
      out[index.value] := Some(values[r]);
      r := r + 1;
    }
    forall i | 0 <= i < |bitmap| && bitmap[i] ensures Rank(bitmap, i) < Count(bitmap) {
      RankBelowCount(bitmap, i);
    }
  }

  /** The bits set in a buffer. */
  ghost function SetBits(w: nat, buf: seq<Byte>): set<nat>
    requires w == 8 * |buf|
  {
    set i | 0 <= i < w && buf[i / 8][i % 8]
  }

  /**
   * What the compact decoder must make of its input: an error, which depends on the buffer's length
   * and on how many of its bits are set, or the map that it spells.
   */
  ghost predicate CompactVerdict<T>(w: nat, c: Compact<T>, r: Decoded<map<nat, T>>)
    requires w % 8 == 0
  {
    if |c.buf| != w / 8 then r == Bad(WrongLength)
    else if |SetBits(w, c.buf)| != |c.values| then r == Bad(WrongPopcount)
    else r.Good? && Spells(w, r.value, c)
  }

  lemma SetBitsCount(buf: seq<Byte>, b: Bits)
    requires LittleEndian(buf, b)
    ensures |SetBits(|b|, buf)| == Count(b)
  {
    var m := map i | i in SetBits(|b|, buf) :: ();
    MemberCount(b, m);
    assert m.Keys == SetBits(|b|, buf);
  }

  ghost function FixedMap<T>(r: Decoded<seq<Option<T>>>): Decoded<map<nat, T>> {
    match r
    case Good(fixed) => Good(MapOf(fixed))
    case Bad(e) => Bad(e)
  }

  /** Accepts exactly a buffer of the bitmap's length with as many bits set as there are values. */
  method DecodeCompact<T>(w: nat, c: Compact<T>) returns (r: Decoded<seq<Option<T>>>)
    requires w % 8 == 0
    ensures CompactVerdict(w, c, FixedMap(r)) && (r.Good? ==> |r.value| == w)
  {
    var decoded := TryFromBytes(w, c.buf);
    if decoded.None? {
      return Bad(WrongLength);
    }
    var bitmap := decoded.value;
    SetBitsCount(c.buf, bitmap);
    if Count(bitmap) != |c.values| {
      return Bad(WrongPopcount);
    }
    var out := Scatter(bitmap, c.values);
    ScatterValues(bitmap, c.values, out[..]);
    BitmapSpells(bitmap, MapOf(out[..]), c);
    r := Good(out[..]);
  }

  lemma ScatterValues<T>(bitmap: Bits, values: seq<T>, out: seq<Option<T>>)
    requires Count(bitmap) == |values| && |out| == |bitmap|
    requires forall i :: 0 <= i < |bitmap| ==> out[i].Some? == bitmap[i]
    requires forall r :: 0 <= r < |values| ==> out[Pos(bitmap, r)] == Some(values[r])
    ensures Members(bitmap, MapOf(out)) && Values(bitmap, MapOf(out)) == values
  {
    var vs := Values(bitmap, MapOf(out));
    forall r | 0 <= r < |values| ensures vs[r] == values[r] {
      assert out[Pos(bitmap, r)] == Some(values[r]);
    }
  }

  /** Decoding the compact form of a map gives it back. */
  method CompactRoundTrip<T>(w: nat, ghost m: map<nat, T>, c: Compact<T>) returns (r: Decoded<seq<Option<T>>>)
    requires w % 8 == 0 && Spells(w, m, c)
    ensures r == Good(FixedOf(w, m))
  {
    r := DecodeCompact(w, c);
    CompactInverts(w, m, c, FixedMap(r));
    FixedRoundTrips(w, m, r.value);
  }

  /** The only verdict on the compact form of a map is that map. */
  lemma CompactInverts<T>(w: nat, m: map<nat, T>, c: Compact<T>, r: Decoded<map<nat, T>>)
    requires w % 8 == 0 && Spells(w, m, c) && CompactVerdict(w, c, r)
    ensures r == Good(m)
  {
    assert SetBits(w, c.buf) == m.Keys;
    SpellsOnce(w, m, c, r.value, c);
  }

  // ----- the pair form

  ghost predicate AscendingPairs<T>(pairs: seq<(nat, T)>) {
    forall a, b :: 0 <= a < b < |pairs| ==> pairs[a].0 < pairs[b].0
  }

  /** The map of a pair sequence. */
  ghost function PairMap<T>(pairs: seq<(nat, T)>): map<nat, T> {
    if pairs == [] then map[] else PairMap(pairs[..|pairs| - 1])[pairs[|pairs| - 1].0 := pairs[|pairs| - 1].1]
  }

  /** Accepts exactly the strictly ascending sequences of indices of the arity. */
  method DecodePairs<T>(w: nat, pairs: seq<(nat, T)>) returns (r: Decoded<seq<Option<T>>>)
    requires forall k :: 0 <= k < |pairs| ==> pairs[k].0 < w
    ensures r.Good? <==> AscendingPairs(pairs)
    ensures r.Good? ==> |r.value| == w && MapOf(r.value) == PairMap(pairs)
    ensures r.Bad? ==> r.error == NotAscending
  {
    var out := new Option<T>[w](_ => None);
    var last: Option<nat> := None;
    for k := 0 to |pairs|
      invariant AscendingPairs(pairs[..k]) && (last == if k == 0 then None else Some(pairs[k - 1].0))
      invariant MapOf(out[..]) == PairMap(pairs[..k])
    {
      var (i, v) := pairs[k];
      if last.Some? && i <= last.value {
        assert pairs[k].0 <= pairs[k - 1].0;
        return Bad(NotAscending);
      }
      assert pairs[..k + 1][..k] == pairs[..k];
      ghost var before := out[..];
      out[i] := Some(v);
      assert out[..] == before[i := Some(v)];
      last := Some(i);
    }
    assert pairs[..|pairs|] == pairs;
    r := Good(out[..]);
  }

  /** The listing of a map is an encoding of it. */
  lemma {:induction false} ListingMap<T>(occ: Bits, m: map<nat, T>)
    requires Members(occ, m)
    ensures PairMap(Listing(occ, m)) == m
    decreases Count(occ)
  {
    if Count(occ) == 0 {
      NoMembers(occ, m);
    } else {
      var i := Pos(occ, Count(occ) - 1);
      ListingBack(occ, m);
      CountUpdate(occ, i, false);
      ListingMap(occ[i := false], m - {i});
      LastPair(Listing(occ[i := false], m - {i}), (i, m[i]));
      assert (m - {i})[i := m[i]] == m;
    }
  }

  lemma LastPair<T>(init: seq<(nat, T)>, last: (nat, T))
    ensures PairMap(init + [last]) == PairMap(init)[last.0 := last.1]
  {
    assert (init + [last])[..|init|] == init;
  }

  /** The keys of an ascending sequence are at most its last index. */
  lemma {:induction false} PairKeys<T>(pairs: seq<(nat, T)>, k: nat)
    requires k in PairMap(pairs)
    ensures exists a :: 0 <= a < |pairs| && pairs[a].0 == k
    decreases |pairs|
  {
    var last := |pairs| - 1;
    if k != pairs[last].0 {
      PairKeys(pairs[..last], k);
      var a :| 0 <= a < last && pairs[..last][a].0 == k;
      assert pairs[a].0 == k;
    } else {
      assert pairs[last].0 == k;
    }
  }

  /** Encoding what was decoded gives the accepted sequence back. */
  lemma {:induction false} PairsRoundTrip<T>(occ: Bits, pairs: seq<(nat, T)>)
    requires AscendingPairs(pairs) && Members(occ, PairMap(pairs))
    ensures Listing(occ, PairMap(pairs)) == pairs
    decreases |pairs|
  {
    var m := PairMap(pairs);
    if pairs == [] {
      NoMember(occ);
    } else {
      var last := |pairs| - 1;
      var i := pairs[last].0;
      LastIsHighest(pairs);
      HighestMember(occ, m, i);
      ListingBack(occ, m);
      NotAhead(pairs[..last], i);
      assert m - {i} == PairMap(pairs[..last]);
      PairsRoundTrip(occ[i := false], pairs[..last]);
      assert pairs == pairs[..last] + [pairs[last]];
    }
  }

  lemma NoMember(occ: Bits)
    requires forall k :: 0 <= k < |occ| ==> !occ[k]
    ensures Count(occ) == 0
  {
    CountClear(occ);
  }

  /** The last index of an ascending sequence is its greatest. */
  lemma LastIsHighest<T>(pairs: seq<(nat, T)>)
    requires AscendingPairs(pairs) && pairs != []
    ensures var i := pairs[|pairs| - 1].0; i in PairMap(pairs) && forall k :: k in PairMap(pairs) ==> k <= i
  {
    forall k | k in PairMap(pairs) ensures k <= pairs[|pairs| - 1].0 {
      PairKeys(pairs, k);
      var a :| 0 <= a < |pairs| && pairs[a].0 == k;
    }
  }

  lemma HighestMember<T>(occ: Bits, m: map<nat, T>, i: nat)
    requires Members(occ, m) && i in m && forall k :: k in m ==> k <= i
    ensures Count(occ) > 0 && Pos(occ, Count(occ) - 1) == i
  {
    assert forall k :: i < k < |occ| ==> !occ[k];
    WithinBack(occ, occ, 0, i);
  }

  lemma NotAhead<T>(init: seq<(nat, T)>, i: nat)
    requires forall a :: 0 <= a < |init| ==> init[a].0 < i
    ensures i !in PairMap(init)
  {
    if i in PairMap(init) {
      PairKeys(init, i);
    }
  }

  /** Decoding the pair form of a map gives it back. */
  method PairsDecoded<T>(occ: Bits, ghost m: map<nat, T>, pairs: seq<(nat, T)>) returns (r: Decoded<seq<Option<T>>>)
    requires Members(occ, m) && pairs == Listing(occ, m)
    ensures r == Good(FixedOf(|occ|, m))
  {
    ListingMap(occ, m);
    ListingIsMap(occ, m);
    r := DecodePairs(|occ|, pairs);
    FixedRoundTrips(|occ|, m, r.value);
  }

  // ----- encoding the arrays, and decoding to them

  /** The values of some pairs, in order. */
  function Seconds<T>(pairs: seq<(nat, T)>): (s: seq<T>)
    ensures |s| == |pairs| && forall k :: 0 <= k < |s| ==> s[k] == pairs[k].1
  {
    seq(|pairs|, k requires 0 <= k < |pairs| => pairs[k].1)
  }

  lemma SecondsAreValues<T>(occ: Bits, m: map<nat, T>)
    requires Members(occ, m)
    ensures Seconds(Listing(occ, m)) == Values(occ, m)
  {}

  /** The pair form of a gapped array: its present entries as it iterates them. */
  method PairsOfGapped<T>(g: GappedArray<T>) returns (pairs: seq<(nat, T)>)
    requires g.Valid()
    ensures pairs == Listing(g.Bitmap(), g.contents)
  {
    if g.slots == null {
      CountClear(g.Bitmap());
      return [];
    }
    var it := new PresentIter(g.occupancy, g.live, g.slots, g.contents);
    pairs := it.Collect();
  }

  /** The pair form of a packed array: its present entries as it iterates them. */
  method PairsOfPacked<T>(p: PackedArray<T>) returns (pairs: seq<(nat, T)>)
    requires p.Valid()
    ensures pairs == Listing(p.Bitmap(), p.contents)
  {
    if p.slots == null {
      CountClear(p.Bitmap());
      return [];
    }
    var it := new PackedIter(p.bitmap, p.slots, p.contents);
    pairs := it.Collect();
  }

  /** The compact form of a gapped array: the bytes of its bitmap, and its values in order. */
  method CompactOfGapped<T>(g: GappedArray<T>) returns (c: Compact<T>)
    requires g.Valid() && g.w % 8 == 0
    ensures Spells(g.w, g.contents, c)
  {
    var pairs := PairsOfGapped(g);
    SecondsAreValues(g.Bitmap(), g.contents);
    c := Compact(ToBytes(g.Bitmap()), Seconds(pairs));
    BitmapSpells(g.Bitmap(), g.contents, c);
  }

  method CompactOfPacked<T>(p: PackedArray<T>) returns (c: Compact<T>)
    requires p.Valid() && p.w % 8 == 0
    ensures Spells(p.w, p.contents, c)
  {
    var pairs := PairsOfPacked(p);
    SecondsAreValues(p.Bitmap(), p.contents);
    c := Compact(ToBytes(p.Bitmap()), Seconds(pairs));
    BitmapSpells(p.Bitmap(), p.contents, c);
  }

  /** What the pair decoder must make of its input. */
  ghost predicate PairsVerdict<T>(pairs: seq<(nat, T)>, r: Decoded<map<nat, T>>) {
    if AscendingPairs(pairs) then r == Good(PairMap(pairs)) else r == Bad(NotAscending)
  }

  ghost function GappedMap<T>(r: Decoded<GappedArray<T>>): Decoded<map<nat, T>>
    reads if r.Good? then {r.value} else {}
  {
    match r
    case Good(g) => Good(g.contents)
    case Bad(e) => Bad(e)
  }

  ghost function PackedMap<T>(r: Decoded<PackedArray<T>>): Decoded<map<nat, T>>
    reads if r.Good? then {r.value} else {}
  {
    match r
    case Good(p) => Good(p.contents)
    case Bad(e) => Bad(e)
  }

  method GappedFromCompact<T>(w: nat, c: Compact<T>) returns (r: Decoded<GappedArray<T>>)
    requires IsPow2(w) && 2 <= w < USIZE_MAX && w % 8 == 0
    ensures CompactVerdict(w, c, GappedMap(r))
    ensures r.Good? ==> r.value.Valid() && r.value.w == w && fresh(r.value.Repr())
  {
    var decoded := DecodeCompact(w, c);
    if decoded.Bad? {
      return Bad(decoded.error);
    }
    var g := GappedFromFixed(decoded.value);
    r := Good(g);
  }

  method PackedFromCompact<T>(w: nat, c: Compact<T>) returns (r: Decoded<PackedArray<T>>)
    requires w % 8 == 0
    ensures CompactVerdict(w, c, PackedMap(r))
    ensures r.Good? ==> r.value.Valid() && r.value.w == w && fresh(r.value.Repr())
  {
    var decoded := DecodeCompact(w, c);
    if decoded.Bad? {
      return Bad(decoded.error);
    }
    var p := PackedFromFixed(decoded.value);
    r := Good(p);
  }

  method GappedFromPairs<T>(w: nat, pairs: seq<(nat, T)>) returns (r: Decoded<GappedArray<T>>)
    requires IsPow2(w) && 2 <= w < USIZE_MAX && forall k :: 0 <= k < |pairs| ==> pairs[k].0 < w
    ensures PairsVerdict(pairs, GappedMap(r))
    ensures r.Good? ==> r.value.Valid() && r.value.w == w && fresh(r.value.Repr())
  {
    var decoded := DecodePairs(w, pairs);
    if decoded.Bad? {
      return Bad(decoded.error);
    }
    var g := GappedFromFixed(decoded.value);
    r := Good(g);
  }

  method PackedFromPairs<T>(w: nat, pairs: seq<(nat, T)>) returns (r: Decoded<PackedArray<T>>)
    requires forall k :: 0 <= k < |pairs| ==> pairs[k].0 < w
    ensures PairsVerdict(pairs, PackedMap(r))
    ensures r.Good? ==> r.value.Valid() && r.value.w == w && fresh(r.value.Repr())
  {
    var decoded := DecodePairs(w, pairs);
    if decoded.Bad? {
      return Bad(decoded.error);
    }
    var p := PackedFromFixed(decoded.value);
    r := Good(p);
  }

  lemma PairsInvert<T>(occ: Bits, m: map<nat, T>, r: Decoded<map<nat, T>>)
    requires Members(occ, m) && PairsVerdict(Listing(occ, m), r)
    ensures r == Good(m)
  {
    ListingMap(occ, m);
    ListingIsMap(occ, m);
  }

  /** Encoding a gapped array and decoding it, in either form, gives an array with the same map. */
  method GappedRoundTrip<T>(g: GappedArray<T>) returns (viaCompact: GappedArray<T>, viaPairs: GappedArray<T>)
    requires g.Valid() && g.w % 8 == 0
    ensures viaCompact.Valid() && viaCompact.w == g.w && viaCompact.contents == g.contents
    ensures viaPairs.Valid() && viaPairs.w == g.w && viaPairs.contents == g.contents
  {
    var c := CompactOfGapped(g);
    var first := GappedFromCompact(g.w, c);
    CompactInverts(g.w, g.contents, c, GappedMap(first));
    var pairs := PairsOfGapped(g);
    var second := GappedFromPairs(g.w, pairs);
    PairsInvert(g.Bitmap(), g.contents, GappedMap(second));
    viaCompact, viaPairs := first.value, second.value;
  }

  /** The same for packed arrays. */
  method PackedRoundTrip<T>(p: PackedArray<T>) returns (viaCompact: PackedArray<T>, viaPairs: PackedArray<T>)
    requires p.Valid() && p.w % 8 == 0
    ensures viaCompact.Valid() && viaCompact.w == p.w && viaCompact.contents == p.contents
    ensures viaPairs.Valid() && viaPairs.w == p.w && viaPairs.contents == p.contents
  {
    var c := CompactOfPacked(p);
    var first := PackedFromCompact(p.w, c);
    CompactInverts(p.w, p.contents, c, PackedMap(first));
    var pairs := PairsOfPacked(p);
    var second := PackedFromPairs(p.w, pairs);
    PairsInvert(p.Bitmap(), p.contents, PackedMap(second));
    viaCompact, viaPairs := first.value, second.value;
  }
}
