/** Whole runs of the gapped array against a plain map. */
module GappedRuns {
  import opened Wrappers
  import opened Bitmaps
  import opened Gapped

  datatype Op<T> = Put(i: nat, v: T) | Take(i: nat) | Look(i: nat) | Room(n: nat) | Shrink | Empty

  function At<T>(m: map<nat, T>, i: nat): Option<T> {
    if i in m then Some(m[i]) else None
  }

  /** The plain map after one operation. */
  function MapAfter<T>(m: map<nat, T>, op: Op<T>): map<nat, T> {
    match op
    case Put(i, v) => m[i := v]
    case Take(i) => m - {i}
    case Empty => map[]
    case _ => m
  }

  /** What one operation answers over a plain map. */
  function Answer<T>(m: map<nat, T>, op: Op<T>): Option<T> {
    match op
    case Put(i, _) => At(m, i)
    case Take(i) => At(m, i)
    case Look(i) => At(m, i)
    case _ => None
  }

  ghost function MapRun<T>(m: map<nat, T>, ops: seq<Op<T>>): map<nat, T> {
    if ops == [] then m else MapAfter(MapRun(m, ops[..|ops| - 1]), ops[|ops| - 1])
  }

  ghost function Answers<T>(m: map<nat, T>, ops: seq<Op<T>>): seq<Option<T>> {
    if ops == [] then [] else
      Answers(m, ops[..|ops| - 1]) + [Answer(MapRun(m, ops[..|ops| - 1]), ops[|ops| - 1])]
  }

  predicate InRange<T>(w: nat, op: Op<T>) {
    match op
    case Put(i, _) => i < w
    case Take(i) => i < w
    case Look(i) => i < w
    case _ => true
  }

  /** One operation on the array is the same operation on its map. */
  method Perform<T>(g: GappedArray<T>, op: Op<T>) returns (r: Option<T>)
    requires g.Valid() && InRange(g.w, op)
    modifies g.Repr()
    ensures g.Valid() && fresh(g.Repr() - old(g.Repr()))
    ensures g.contents == MapAfter(old(g.contents), op) && r == Answer(old(g.contents), op)
  {
    r := None;
    match op
    case Put(i, v) => r := g.Insert(i, v);
    case Take(i) => r := g.Remove(i);
    case Look(i) => r := g.Get(i);
    case Room(n) => g.Reserve(n);
    case Shrink => g.ShrinkToFit();
    case Empty => ghost var dropped := g.Clear();
  }

  /** Every run answers as the plain map would, and ends storing what the plain map would. */
  method Run<T>(g: GappedArray<T>, ops: seq<Op<T>>) returns (rs: seq<Option<T>>)
    requires g.Valid() && forall k :: 0 <= k < |ops| ==> InRange(g.w, ops[k])
    modifies g.Repr()
    ensures g.Valid() && fresh(g.Repr() - old(g.Repr()))
    ensures g.contents == MapRun(old(g.contents), ops) && rs == Answers(old(g.contents), ops)
  {
    rs := [];
    for k := 0 to |ops|
      invariant g.Valid() && fresh(g.Repr() - old(g.Repr()))
      invariant g.contents == MapRun(old(g.contents), ops[..k]) && rs == Answers(old(g.contents), ops[..k])
    {
      assert ops[..k + 1][..k] == ops[..k];
      var r := Perform(g, ops[k]);
      rs := rs + [r];
    }
    assert ops[..|ops|] == ops;
  }

  /** In every valid state the capacity is a power of two between the count and the arity. */
  lemma CapacityBounds<T>(g: GappedArray<T>)
    requires g.Valid() && g.slots != null
    ensures IsPow2(g.Capacity()) && |g.contents| <= g.Capacity() <= g.w
  {
    CountIsSize(g.Layout(), g.contents);
    CountFits(g.Layout(), g.contents);
  }
}
