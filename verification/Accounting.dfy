/** Which cached hashes a trie holds, so that what a mutation drops can be weighed against the store's record. */
module Accounting {
  import opened Wrappers
  import opened Paths
  import opened Mins
  import opened Nodes
  import opened Frames
  import opened Insertion
  import opened Removal

  ghost function HashOf(e: Edge): multiset<Digest> {
    if e.hash.Some? then multiset{e.hash.value} else multiset{}
  }

  ghost function EdgeSeals(e: Edge): multiset<Digest>
    decreases e, 2, 0
  {
    HashOf(e) + Seals(e.node)
  }

  /** The cached hashes of every sealed edge beneath `n`, with multiplicity. */
  ghost function Seals(n: Node): multiset<Digest>
    decreases n, 1, 0
  {
    SealsOver(n, n.children.Keys)
  }

  ghost function SealsOver(n: Node, s: set<Index>): multiset<Digest>
    requires s <= n.children.Keys
    decreases n, 0, |s|
  {
    if s == {} then multiset{} else
      var i := Min(s);
      EdgeSeals(n.children[i]) + SealsOver(n, s - {i})
  }

  ghost function RootSeals(root: Root): multiset<Digest> {
    if root.Some? then Seals(root.value) else multiset{}
  }

  lemma {:induction false} SealsSplit(n: Node, s: set<Index>, i: Index)
    requires i in s && s <= n.children.Keys
    ensures SealsOver(n, s) == EdgeSeals(n.children[i]) + SealsOver(n, s - {i})
    decreases |s|
  {
    var j := Min(s);
    if j != i {
      SealsSplit(n, s - {j}, i);
      var k := Min(s - {i});
      assert j in s - {i} && k in s;
      assert k == j;
      assert s - {j} - {i} == s - {i} - {j};
    }
  }

  lemma {:induction false} SealsLocal(a: Node, b: Node, s: set<Index>)
    requires s <= a.children.Keys && s <= b.children.Keys
    requires forall i :: i in s ==> a.children[i] == b.children[i]
    ensures SealsOver(a, s) == SealsOver(b, s)
    decreases |s|
  {
    if s != {} {
      SealsLocal(a, b, s - {Min(s)});
    }
  }

  /** What the siblings of `i` hold. */
  ghost function Others(n: Node, i: Index): multiset<Digest> {
    SealsOver(n, n.children.Keys - {i})
  }

  /** One edge's share comes apart from the rest, whatever edge stands there. */
  lemma SealsSet(n: Node, i: Index, e: Edge)
    ensures Seals(n.(children := n.children[i := e])) == Others(n, i) + EdgeSeals(e)
    ensures Seals(n.(children := n.children - {i})) == Others(n, i)
  {
    var m, d := n.(children := n.children[i := e]), n.(children := n.children - {i});
    assert m.children.Keys - {i} == n.children.Keys - {i} == d.children.Keys;
    SealsSplit(m, m.children.Keys, i);
    SealsLocal(m, n, n.children.Keys - {i});
    SealsLocal(d, n, n.children.Keys - {i});
  }

  lemma SealsAt(n: Node, i: Index)
    requires i in n.children
    ensures Seals(n) == Others(n, i) + EdgeSeals(n.children[i])
  {
    SealsSplit(n, n.children.Keys, i);
  }

  /** Path and value do not matter. */
  lemma SealsSame(a: Node, b: Node)
    requires a.children == b.children
    ensures Seals(a) == Seals(b)
  {
    SealsLocal(a, b, a.children.Keys);
  }

  lemma SealsNone(n: Node)
    requires AllInline(n)
    ensures Seals(n) == multiset{}
  {
    SealsOverNone(n, n.children.Keys);
  }

  lemma {:induction false} SealsOverNone(n: Node, s: set<Index>)
    requires AllInline(n) && s <= n.children.Keys
    ensures SealsOver(n, s) == multiset{}
    decreases n, |s|
  {
    if s != {} {
      var i := Min(s);
      var c := n.children[i].node;
      SealsOverNone(c, c.children.Keys);
      assert EdgeSeals(n.children[i]) == Seals(c) == multiset{};
      SealsOverNone(n, s - {i});
    }
  }

  /** Two ends of one path that hold the same hashes make tries that hold the same hashes. */
  lemma {:induction false} PlugSeals(frames: seq<Frame>, a: Node, b: Node, extra: multiset<Digest>)
    requires Seals(a) == Seals(b) + extra
    ensures Seals(Plug(frames, a)) == Seals(Plug(frames, b)) + extra
    decreases |frames|
  {
    if frames != [] {
      var f := frames[|frames| - 1];
      SealsSet(f.node, f.at, Inline(a));
      SealsSet(f.node, f.at, Inline(b));
      PlugSeals(frames[..|frames| - 1], Attach(f, a), Attach(f, b), extra);
    }
  }

  /** Unsealing one edge takes its hash out and nothing else. */
  lemma UnsealSeals(frames: seq<Frame>, n: Node, i: Index)
    requires i in n.children
    ensures Seals(Plug(frames, n))
         == Seals(Plug(frames, Attach(Frame(n, i), n.children[i].node))) + HashOf(n.children[i])
  {
    var m := Attach(Frame(n, i), n.children[i].node);
    SealsAt(n, i);
    SealsSet(n, i, Inline(n.children[i].node));
    PlugSeals(frames, n, m, HashOf(n.children[i]));
  }

  /** What the record has gained is what the trie has lost. */
  lemma SealsMoved(was: multiset<Digest>, now: multiset<Digest>, r0: multiset<Digest>, r1: multiset<Digest>)
    requires now + r1 == was + r0 && r0 <= r1
    ensures was == now + (r1 - r0)
  {
    forall d: Digest ensures was[d] == (now + (r1 - r0))[d] {
      assert (now + r1)[d] == (was + r0)[d];
      assert r0[d] <= r1[d];
    }
  }

  // ----- the pieces of the mutations

  lemma LeafSeals(path: Path, v: Value)
    ensures Seals(Leaf(path, v)) == multiset{}
  {}

  lemma AddSeals(n: Node, i: Index, c: Node)
    requires i !in n.children && Seals(c) == multiset{}
    ensures Seals(n.(children := n.children[i := Inline(c)])) == Seals(n)
  {
    SealsSet(n, i, Inline(c));
    assert n.children.Keys - {i} == n.children.Keys;
  }

  lemma OneChildSeals(n: Node, i: Index)
    requires n.children.Keys == {i}
    ensures Seals(n) == EdgeSeals(n.children[i])
  {
    SealsAt(n, i);
    assert n.children.Keys - {i} == {};
  }

  lemma SplitSeals(n: Node, key: Path, v: Value)
    requires SharedLen(key, n.path) < |n.path|
    ensures Seals(Inserted(n, key, v)) == Seals(n)
  {
    var o := SharedLen(key, n.path);
    var low := Lowered(n, o);
    SealsSame(low, n);
    var r := Node(key[..o], None, map[n.path[o] := Inline(low)]);
    OneChildSeals(r, n.path[o]);
    if o == |key| {
      SealsSame(Inserted(n, key, v), r);
    } else {
      LeafSeals(key[o + 1..], v);
      AddSeals(r, key[o], Leaf(key[o + 1..], v));
    }
  }

  /** The last step of an insertion, at the end of its path, keeps every hash. */
  lemma LastStepSeals(frames: seq<Frame>, n: Node, key: Path, v: Value)
    requires !Descends(n, key)
    ensures Seals(Plug(frames, Inserted(n, key, v))) == Seals(Plug(frames, n))
  {
    var o := SharedLen(key, n.path);
    if o < |n.path| {
      SplitSeals(n, key, v);
    } else if o == |key| {
      SealsSame(n.(value := Some(v)), n);
    } else {
      LeafSeals(key[o + 1..], v);
      AddSeals(n, key[o], Leaf(key[o + 1..], v));
    }
    PlugSeals(frames, Inserted(n, key, v), n, multiset{});
  }

  lemma MergedSeals(n: Node, j: Index)
    requires j in n.children
    ensures Seals(Merged(n, j)) == Seals(n.children[j].node)
  {
    SealsSame(Merged(n, j), n.children[j].node);
  }

  /** Dropping a child that holds no hash behind an inline edge. */
  lemma DropSeals(n: Node, i: Index)
    requires i in n.children && EdgeSeals(n.children[i]) == multiset{}
    ensures Seals(n.(children := n.children - {i})) == Seals(n)
  {
    SealsAt(n, i);
    SealsSet(n, i, n.children[i]);
  }

  lemma PlugDropSeals(frames: seq<Frame>, n: Node, i: Index)
    requires i in n.children && EdgeSeals(n.children[i]) == multiset{}
    ensures Seals(Plug(frames, n.(children := n.children - {i}))) == Seals(Plug(frames, n))
  {
    DropSeals(n, i);
    PlugSeals(frames, n.(children := n.children - {i}), n, multiset{});
  }

  lemma PlugSurvivorSeals(frames: seq<Frame>, n: Node, i: Index, j: Index)
    requires n.children.Keys == {i, j} && i != j && EdgeSeals(n.children[i]) == multiset{}
    ensures Seals(Plug(frames, n)) == Seals(Plug(frames, Merged(n, j))) + HashOf(n.children[j])
  {
    SurvivorSeals(n, i, j);
    PlugSeals(frames, n, Merged(n, j), HashOf(n.children[j]));
  }

  /** Merging the survivor of two children when the other holds no hash: the survivor's own hash goes. */
  lemma SurvivorSeals(n: Node, i: Index, j: Index)
    requires n.children.Keys == {i, j} && i != j && EdgeSeals(n.children[i]) == multiset{}
    ensures Seals(n) == Seals(Merged(n, j)) + HashOf(n.children[j])
  {
    var d := n.(children := n.children - {i});
    DropSeals(n, i);
    OneChildSeals(d, j);
    MergedSeals(n, j);
  }
}
