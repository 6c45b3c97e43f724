/** Insertion: the recursive specification and its laws. */
module Insertion {
  import opened Wrappers
  import opened Paths
  import opened Nodes

  /** `n` with its partial path cut down to what follows its index `o`. */
  function Lowered(n: Node, o: nat): Node
    requires o < |n.path|
  {
    n.(path := n.path[o + 1..])
  }

  /** `n` after storing `v` at `key`: the four ways a key can meet a partial path. */
  function Inserted(n: Node, key: Path, v: Value): Node
    decreases n
  {
    var o := SharedLen(key, n.path);
    if o < |n.path| then
      var below := map[n.path[o] := Inline(Lowered(n, o))];
      if o == |key| then Node(key, Some(v), below)
      else Node(key[..o], None, below[key[o] := Inline(Leaf(key[o + 1..], v))])
    else if o == |key| then n.(value := Some(v))
    else
      var child := if key[o] in n.children then Inserted(n.children[key[o]].node, key[o + 1..], v)
                   else Leaf(key[o + 1..], v);
      n.(children := n.children[key[o] := Inline(child)])
  }

  function InsertedRoot(root: Root, key: Path, v: Value): Node {
    if root.Some? then Inserted(root.value, key, v) else Leaf(key, v)
  }

  /** What cutting a node's path at `o` does to lookup: its keys lose the first `o + 1` indices. */
  lemma LoweredFind(n: Node, o: nat, rest: Path)
    requires o < |n.path|
    ensures Find(Lowered(n, o), rest) == Find(n, n.path[..o + 1] + rest)
  {
    var key := n.path[..o + 1] + rest;
    var low := Lowered(n, o);
    assert n.path == n.path[..o + 1] + low.path;
    assert key == n.path <==> rest == low.path;
    assert n.path < key <==> low.path < rest;
    if n.path < key {
      assert key[|n.path|] == rest[|low.path|];
      assert After(n, key) == After(low, rest);
    }
  }

  /** A key that leaves the partial path at `o`, or ends there, is not under the node. */
  lemma FindDiverged(n: Node, key: Path)
    requires SharedLen(key, n.path) < |n.path|
    ensures Find(n, key) == None
  {
    SharedPrefix(key, n.path);
  }

  lemma LeafFind(path: Path, v: Value, k: Path)
    ensures Find(Leaf(path, v), k) == if k == path then Some(v) else None
  {}

  /** The children of a split node: the old node, the new leaf if the key goes on, no other. */
  lemma SplitChild(n: Node, key: Path, v: Value, i: Index)
    requires SharedLen(key, n.path) < |n.path|
    ensures var o, r := SharedLen(key, n.path), Inserted(n, key, v);
            if i == n.path[o] then i in r.children && r.children[i].node == Lowered(n, o)
            else if o < |key| && i == key[o] then
              i in r.children && r.children[i].node == Leaf(key[o + 1..], v)
            else i !in r.children
  {}

  /** Beneath the split point, on the old node's side. */
  lemma SplitFindOld(n: Node, key: Path, v: Value, o: nat, k: Path)
    requires o == SharedLen(key, n.path) < |n.path|
    requires n.path[..o + 1] <= k
    ensures k != key && Find(Inserted(n, key, v), k) == Find(n, k)
  {
    var r := Inserted(n, key, v);
    var i, rest := n.path[o], k[o + 1..];
    assert n.path[..o + 1] == n.path[..o] + [i];
    assert k == n.path[..o + 1] + rest == r.path + [i] + rest;
    FindBelow(r, i, rest);
    SplitChild(n, key, v, i);
    LoweredFind(n, o, rest);
    assert key <= k ==> key == k[..|key|];
  }

  /** Beneath the split point, away from the old node: the new leaf's key and no other. */
  lemma SplitFindNew(n: Node, key: Path, v: Value, o: nat, k: Path)
    requires o == SharedLen(key, n.path) < |n.path|
    requires n.path[..o] < k && k[o] != n.path[o]
    ensures Find(Inserted(n, key, v), k) == if k == key then Some(v) else None
    ensures Find(n, k) == None
  {
    var r := Inserted(n, key, v);
    var i, rest := k[o], k[o + 1..];
    assert k == r.path + [i] + rest;
    FindBelow(r, i, rest);
    SplitFindLeaf(n, key, v, i, rest);
    SharedAt(k, n.path, o);
    FindDiverged(n, k);
  }

  lemma SplitFindLeaf(n: Node, key: Path, v: Value, i: Index, rest: Path)
    requires SharedLen(key, n.path) < |n.path| && i != n.path[SharedLen(key, n.path)]
    ensures
      var o, r := SharedLen(key, n.path), Inserted(n, key, v);
      (if i in r.children then Find(r.children[i].node, rest) else None)
      == (if n.path[..o] + [i] + rest == key then Some(v) else None)
  {
    var o := SharedLen(key, n.path);
    SplitChild(n, key, v, i);
    var k := n.path[..o] + [i] + rest;
    assert k[o] == i && k[o + 1..] == rest;
    if o < |key| && i == key[o] {
      assert key == key[..o] + [i] + key[o + 1..];
      LeafFind(key[o + 1..], v, rest);
    }
  }

  /** A split node answers for its own key, for the old node's keys, and for nothing else. */
  lemma SplitFind(n: Node, key: Path, v: Value, k: Path)
    requires SharedLen(key, n.path) < |n.path|
    ensures Find(Inserted(n, key, v), k) == if k == key then Some(v) else Find(n, k)
  {
    var o := SharedLen(key, n.path);
    var p := n.path[..o];
    assert Inserted(n, key, v).path == p == key[..o];
    if p < k {
      if k[o] == n.path[o] {
        assert n.path[..o + 1] == p + [k[o]] == k[..o + 1];
        SplitFindOld(n, key, v, o, k);
      } else {
        SplitFindNew(n, key, v, o, k);
      }
    } else {
      FindOnlyUnder(n, o, k);
    }
  }

  lemma UnderPrefix(path: Path, o: nat, k: Path)
    requires o < |path|
    ensures path <= k ==> path[..o] < k
  {}

  /** A key that does not run past a proper prefix of the partial path is not under the node. */
  lemma FindOnlyUnder(n: Node, o: nat, k: Path)
    requires o < |n.path| && !(n.path[..o] < k)
    ensures Find(n, k) == None
  {
    UnderPrefix(n.path, o, k);
  }

  /** Insertion changes the contents at exactly one key, on any trie. */
  lemma {:induction false} InsertedFind(n: Node, key: Path, v: Value, k: Path)
    ensures Find(Inserted(n, key, v), k) == if k == key then Some(v) else Find(n, k)
    decreases n
  {
    var o := SharedLen(key, n.path);
    var r := Inserted(n, key, v);
    if o < |n.path| {
      SplitFind(n, key, v, k);
    } else {
      SharedPrefix(key, n.path);
      assert r.path == n.path;
      if o == |key| {
      } else {
        var ki := key[o];
        assert key == n.path + [ki] + key[o + 1..];
        if n.path < k {
          SplitKey(n, k);
          FindBelow(n, k[o], After(n, k));
          FindBelow(r, k[o], After(n, k));
          if k[o] == ki && ki in n.children {
            InsertedFind(n.children[ki].node, key[o + 1..], v, After(n, k));
          }
        }
      }
    }
  }

  lemma AddedCount(m: map<Index, Edge>, i: Index, e: Edge)
    ensures |m[i := e]| >= |m|
    ensures i !in m ==> |m[i := e]| == |m| + 1
  {
    var m' := m[i := e];
    assert m'.Keys == m.Keys + {i};
    assert |m'| == |m'.Keys| && |m| == |m.Keys|;
  }

  lemma SplitSettled(n: Node, key: Path, v: Value)
    requires Settled(n) && SharedLen(key, n.path) < |n.path|
    ensures Settled(Inserted(n, key, v))
  {
    var o := SharedLen(key, n.path);
    var low := Inline(Lowered(n, o));
    assert Settled(low.node);
    if o < |key| {
      var leaf := Inline(Leaf(key[o + 1..], v));
      assert Settled(leaf.node);
      var none: map<Index, Edge> := map[];
      AddedCount(none, n.path[o], low);
      AddedCount(map[n.path[o] := low], key[o], leaf);
    }
  }

  /** Replacing or adding one settled child keeps a node settled. */
  lemma ChildSettled(n: Node, i: Index, c: Node)
    requires Settled(n) && Settled(c)
    ensures Settled(n.(children := n.children[i := Inline(c)]))
  {
    AddedCount(n.children, i, Inline(c));
  }

  /** Insertion keeps the structural invariant. */
  lemma {:induction false} InsertedSettled(n: Node, key: Path, v: Value)
    requires Settled(n)
    ensures Settled(Inserted(n, key, v))
    decreases n
  {
    var o := SharedLen(key, n.path);
    if o < |n.path| {
      SplitSettled(n, key, v);
    } else if o < |key| {
      var ki := key[o];
      if ki in n.children {
        InsertedSettled(n.children[ki].node, key[o + 1..], v);
      } else {
        assert Settled(Leaf(key[o + 1..], v));
      }
      ChildSettled(n, ki, Inserted(n, key, v).children[ki].node);
    }
  }

  lemma InsertedContents(root: Root, key: Path, v: Value)
    ensures Contents(Some(InsertedRoot(root, key, v))) == Contents(root)[key := v]
    ensures SettledRoot(root) ==> Settled(InsertedRoot(root, key, v))
  {
    var r := InsertedRoot(root, key, v);
    var m := Contents(root)[key := v];
    forall k: Path ensures Find(r, k) == if k in m then Some(m[k]) else None {
      ContentsAt(root, k);
      if root.Some? {
        InsertedFind(root.value, key, v, k);
      }
    }
    ContentsAgree(Some(r), m);
    if root.Some? && Settled(root.value) {
      InsertedSettled(root.value, key, v);
    }
  }
}
