/** Path compression is canonical: a settled trie's shape is determined by its contents. */
module Canonical {
  import opened Wrappers
  import opened Paths
  import opened Mins
  import opened Nodes
  import opened Insertion

  /** Some key stored under a settled node. */
  ghost function SomeKey(n: Node): Path
    requires Settled(n)
    decreases n
  {
    if n.value.Some? then n.path else
      assert n.children.Keys != {};
      var i := Min(n.children.Keys);
      n.path + [i] + SomeKey(n.children[i].node)
  }

  lemma {:induction false} SomeKeyFound(n: Node)
    requires Settled(n)
    ensures Find(n, SomeKey(n)).Some?
    decreases n
  {
    if n.value.None? {
      assert n.children.Keys != {};
      var i := Min(n.children.Keys);
      SomeKeyFound(n.children[i].node);
      FindBelow(n, i, SomeKey(n.children[i].node));
    }
  }

  /** Every present child of a settled node is witnessed by a key through it. */
  lemma ChildKey(n: Node, i: Index) returns (k: Path)
    requires Settled(n) && i in n.children
    ensures n.path + [i] <= k && Find(n, k).Some?
  {
    var rest := SomeKey(n.children[i].node);
    SomeKeyFound(n.children[i].node);
    FindBelow(n, i, rest);
    k := n.path + [i] + rest;
  }

  /** Same answers to every lookup. */
  ghost predicate SameFinds(a: Node, b: Node) {
    forall k: Path :: Find(a, k) == Find(b, k)
  }

  /** A common prefix of two keys ends no later than where they differ. */
  lemma PrefixBound(p: Path, x: Path, y: Path, d: nat)
    requires p <= x && p <= y && d < |x| && d < |y| && x[d] != y[d]
    ensures |p| <= d
  {}

  /** A settled node's path is the longest common prefix of its keys. */
  lemma PathIsLongest(n: Node, p: Path)
    requires Settled(n) && forall k: Path :: Find(n, k).Some? ==> p <= k
    ensures p <= n.path
  {
    if n.value.Some? {
      assert Find(n, n.path).Some?;
    } else {
      TwoElements(n.children.Keys);
      var x, y :| x in n.children.Keys && y in n.children.Keys && x != y;
      var kx := ChildKey(n, x);
      var ky := ChildKey(n, y);
      PrefixBound(p, kx, ky, |n.path|);
    }
  }

  /** Two settled nodes with the same keys have the same partial path. */
  lemma SamePath(a: Node, b: Node)
    requires Settled(a) && Settled(b) && SameFinds(a, b)
    ensures a.path == b.path
  {
    PathIsLongest(a, b.path);
    PathIsLongest(b, a.path);
  }

  lemma SameChild(a: Node, b: Node, i: Index)
    requires Settled(a) && a.path == b.path && SameFinds(a, b) && i in a.children
    ensures i in b.children && SameFinds(a.children[i].node, b.children[i].node)
  {
    var k := ChildKey(a, i);
    assert Find(b, k).Some?;
    assert b.path < k && k[|b.path|] == i;
    forall rest: Path
      ensures Find(a.children[i].node, rest) == Find(b.children[i].node, rest) {
      FindBelow(a, i, rest);
      FindBelow(b, i, rest);
      assert Find(a, a.path + [i] + rest) == Find(b, a.path + [i] + rest);
    }
  }

  /** The main result: same contents, same shape. */
  lemma {:induction false} SameShape(a: Node, b: Node)
    requires Settled(a) && Settled(b) && SameFinds(a, b)
    ensures Erase(a) == Erase(b)
    decreases a
  {
    SamePath(a, b);
    assert a.value == Find(a, a.path) == Find(b, a.path) == b.value;
    forall i ensures i in a.children <==> i in b.children {
      if i in a.children {
        SameChild(a, b, i);
      }
      if i in b.children {
        SameChild(b, a, i);
      }
    }
    forall i | i in a.children ensures Erase(a.children[i].node) == Erase(b.children[i].node) {
      SameChild(a, b, i);
      SameShape(a.children[i].node, b.children[i].node);
    }
  }

  /** Settled tries with equal contents maps are identical up to seal state. */
  lemma SameContents(a: Root, b: Root)
    requires SettledRoot(a) && SettledRoot(b) && Contents(a) == Contents(b)
    ensures EraseRoot(a) == EraseRoot(b)
  {
    if a.Some? {
      SomeKeyFound(a.value);
      ContentsAt(a, SomeKey(a.value));
      ContentsAt(b, SomeKey(a.value));
    }
    if b.Some? {
      SomeKeyFound(b.value);
      ContentsAt(a, SomeKey(b.value));
      ContentsAt(b, SomeKey(b.value));
    }
    if a.Some? && b.Some? {
      forall k: Path ensures Find(a.value, k) == Find(b.value, k) {
        ContentsAt(a, k);
        ContentsAt(b, k);
      }
      SameShape(a.value, b.value);
    }
  }

  ghost function AnyKey(m: map<Path, Value>): (k: Path)
    requires m != map[]
    ensures k in m && |m - {k}| < |m|
  {
    assert m.Keys != {};
    var k :| k in m;
    assert (m - {k}).Keys == m.Keys - {k};
    assert |(m - {k}).Keys| == |m.Keys| - 1;
    k
  }

  /** A trie built from nothing by inserting every entry of a map, in an arbitrary order. */
  ghost function FreshBuild(m: map<Path, Value>): Root
    decreases |m|
  {
    if m == map[] then None else
      var k := AnyKey(m);
      Some(InsertedRoot(FreshBuild(m - {k}), k, m[k]))
  }

  lemma {:induction false} FreshBuildHolds(m: map<Path, Value>)
    ensures Contents(FreshBuild(m)) == m && SettledRoot(FreshBuild(m))
    decreases |m|
  {
    if m != map[] {
      var k := AnyKey(m);
      var rest := FreshBuild(m - {k});
      FreshBuildHolds(m - {k});
      InsertedContents(rest, k, m[k]);
      assert (m - {k})[k := m[k]] == m;
    }
  }

  /** Whatever its history, a settled trie has the shape of a fresh build of its contents. */
  lemma SettledIsFresh(root: Root)
    requires SettledRoot(root)
    ensures EraseRoot(root) == EraseRoot(FreshBuild(Contents(root)))
  {
    FreshBuildHolds(Contents(root));
    SameContents(root, FreshBuild(Contents(root)));
  }
}
