/** The trie's data: nodes, inline and sealed edges, contents, and the structural invariant. */
module Nodes {
  import opened Wrappers
  import opened Paths
  import opened Mins

  type Value(!new)
  type Digest(!new)

  /** Inline when it carries no hash, sealed when it carries one. */
  datatype Edge = Edge(node: Node, hash: Option<Digest>)

  datatype Node = Node(path: Path, value: Option<Value>, children: map<Index, Edge>)

  /** A trie: `None` is the empty one. */
  type Root = Option<Node>

  function Leaf(path: Path, v: Value): Node {
    Node(path, Some(v), map[])
  }

  function Inline(n: Node): Edge {
    Edge(n, None)
  }

  /** The key continues past `n`, through one of its children. */
  predicate Descends(n: Node, key: Path) {
    n.path < key && key[|n.path|] in n.children
  }

  /** The child the key continues into. */
  function Next(n: Node, key: Path): Node
    requires Descends(n, key)
  {
    n.children[key[|n.path|]].node
  }

  /** What is left of the key once it has entered that child. */
  function After(n: Node, key: Path): Path
    requires n.path < key
  {
    key[|n.path| + 1..]
  }

  /** The node whose full path is the key, valued or not. */
  function FindNode(n: Node, key: Path): Option<Node>
    decreases n
  {
    if key == n.path then Some(n)
    else if Descends(n, key) then FindNode(Next(n, key), After(n, key))
    else None
  }

  /** How many edges a lookup of the key follows. */
  function Descents(n: Node, key: Path): nat
    decreases n
  {
    if Descends(n, key) then 1 + Descents(Next(n, key), After(n, key)) else 0
  }

  function DescentsAt(root: Root, key: Path): nat {
    if root.Some? then Descents(root.value, key) else 0
  }

  function Find(n: Node, key: Path): Option<Value> {
    var found := FindNode(n, key);
    if found.Some? then found.value.value else None
  }

  function FindAt(root: Root, key: Path): Option<Value> {
    if root.Some? then Find(root.value, key) else None
  }

  /** Where a lookup of the key leaves a node for one of its children. */
  ghost function Passed(n: Node, key: Path): set<nat> {
    set l | 0 <= l < |key| && FindNode(n, key[..l]).Some? && key[l] in FindNode(n, key[..l]).value.children
  }

  /** Each is one descent. */
  lemma {:induction false} DescentsPass(n: Node, key: Path)
    ensures Descents(n, key) == |Passed(n, key)|
    decreases n
  {
    if Descends(n, key) {
      DescentsPass(Next(n, key), After(n, key));
      PassedFirst(n, key);
    } else {
      PassedNone(n, key);
    }
  }

  lemma PassedNone(n: Node, key: Path)
    requires !Descends(n, key)
    ensures Passed(n, key) == {}
  {
    forall l | 0 <= l < |key| ensures l !in Passed(n, key) {
      assert n.path <= key[..l] ==> n.path <= key;
    }
  }

  lemma PassedFirst(n: Node, key: Path)
    requires Descends(n, key)
    ensures |Passed(n, key)| == 1 + |Passed(Next(n, key), After(n, key))|
  {
    var o, below := |n.path|, Passed(Next(n, key), After(n, key));
    var all := Passed(n, key);
    forall l | 0 <= l < |key| ensures l in all <==> l == o || (l > o && l - o - 1 in below) {
      PassedBelow(n, key, l);
    }
    ShiftedSize(below, all - {o}, o + 1);
  }

  lemma PassedBelow(n: Node, key: Path, l: nat)
    requires Descends(n, key) && l < |key|
    ensures var o := |n.path|;
            l in Passed(n, key) <==> l == o || (l > o && l - o - 1 in Passed(Next(n, key), After(n, key)))
  {
    var o := |n.path|;
    if l == o {
      assert key[..l] == n.path;
    } else if l > o {
      assert n.path < key[..l] && key[..l][o] == key[o];
      assert After(n, key[..l]) == After(n, key)[..l - o - 1];
    }
  }

  lemma {:induction false} ShiftedSize(s: set<nat>, t: set<nat>, d: nat)
    requires (forall l :: l in s ==> l + d in t) && forall l :: l in t ==> l >= d && l - d in s
    ensures |s| == |t|
  {
    if s != {} {
      var x :| x in s;
      ShiftedSize(s - {x}, t - {x + d}, d);
    } else {
      assert forall l :: l in t ==> l - d in s;
      assert t == {};
    }
  }

  /** Every key stored under `n` with its value, by full path, with no reference to lookup. */
  ghost function Entries(n: Node): set<(Path, Value)> {
    (if n.value.Some? then {(n.path, n.value.value)} else {}) +
    (set i, e | i in n.children && e in Entries(n.children[i].node) :: (n.path + [i] + e.0, e.1))
  }

  ghost function Contents(root: Root): map<Path, Value> {
    if root.None? then map[] else
      var keys := set e | e in Entries(root.value) :: e.0;
      map k | k in keys && Find(root.value, k).Some? :: Find(root.value, k).value
  }

  lemma FindBelow(n: Node, i: Index, rest: Path)
    ensures Find(n, n.path + [i] + rest)
         == if i in n.children then Find(n.children[i].node, rest) else None
    ensures FindNode(n, n.path + [i] + rest)
         == if i in n.children then FindNode(n.children[i].node, rest) else None
  {
    var key := n.path + [i] + rest;
    assert key != n.path && n.path < key && key[|n.path|] == i && After(n, key) == rest;
  }

  lemma SplitKey(n: Node, key: Path)
    requires n.path < key
    ensures key == n.path + [key[|n.path|]] + After(n, key)
  {}

  /** Lookup and the stored entries agree, in both directions. */
  lemma {:induction false} FindIsEntry(n: Node, key: Path, v: Value)
    ensures (key, v) in Entries(n) <==> Find(n, key) == Some(v)
    decreases n
  {
    if (key, v) in Entries(n) && !(n.value == Some(v) && key == n.path) {
      var i, e :| i in n.children && e in Entries(n.children[i].node)
        && (n.path + [i] + e.0, e.1) == (key, v);
      FindBelow(n, i, e.0);
      FindIsEntry(n.children[i].node, e.0, v);
    }
    if Find(n, key) == Some(v) && key != n.path {
      SplitKey(n, key);
      FindIsEntry(Next(n, key), After(n, key), v);
      var e := (After(n, key), v);
      assert e in Entries(n.children[key[|n.path|]].node);
    }
  }

  /** The contents map is exactly what lookup finds. */
  lemma ContentsAt(root: Root, key: Path)
    ensures key in Contents(root) <==> FindAt(root, key).Some?
    ensures key in Contents(root) ==> FindAt(root, key) == Some(Contents(root)[key])
  {
    if FindAt(root, key).Some? {
      var v := FindAt(root, key).value;
      FindIsEntry(root.value, key, v);
      assert (key, v) in Entries(root.value);
    }
  }

  lemma ContentsAgree(a: Root, m: map<Path, Value>)
    requires forall k: Path :: FindAt(a, k) == if k in m then Some(m[k]) else None
    ensures Contents(a) == m
  {
    forall k: Path ensures k in Contents(a) <==> k in m
      ensures k in m ==> Contents(a)[k] == m[k] {
      ContentsAt(a, k);
    }
  }

  /** No valueless node has fewer than two children. */
  ghost predicate Settled(n: Node) {
    (n.value.Some? || |n.children| >= 2) &&
    forall i :: i in n.children ==> Settled(n.children[i].node)
  }

  ghost predicate SettledRoot(root: Root) {
    root.Some? ==> Settled(root.value)
  }

  /** The shape with every seal forgotten. */
  ghost function Erase(n: Node): Node {
    Node(n.path, n.value, map i | i in n.children :: Inline(Erase(n.children[i].node)))
  }

  ghost function EraseRoot(root: Root): Root {
    if root.Some? then Some(Erase(root.value)) else None
  }

  /** `b` is `a` with some sealed edges turned inline, from the top down, and nothing else changed. */
  ghost predicate OnlyUnsealed(a: Node, b: Node) {
    a.path == b.path && a.value == b.value && a.children.Keys == b.children.Keys &&
    forall i :: i in a.children ==>
      a.children[i] == b.children[i] ||
      (b.children[i].hash == None && OnlyUnsealed(a.children[i].node, b.children[i].node))
  }

  ghost predicate OnlyUnsealedRoot(a: Root, b: Root) {
    a.Some? == b.Some? && (a.Some? ==> OnlyUnsealed(a.value, b.value))
  }

  /** Nothing beneath `n` is sealed. */
  ghost predicate AllInline(n: Node) {
    forall i :: i in n.children ==> n.children[i].hash == None && AllInline(n.children[i].node)
  }

  lemma UnsealedRefl(n: Node)
    ensures OnlyUnsealed(n, n)
  {}

  lemma {:induction false} UnsealedTrans(a: Node, b: Node, c: Node)
    requires OnlyUnsealed(a, b) && OnlyUnsealed(b, c)
    ensures OnlyUnsealed(a, c)
    decreases a
  {
    forall i | i in a.children && a.children[i] != b.children[i] && b.children[i] != c.children[i]
      ensures OnlyUnsealed(a.children[i].node, c.children[i].node) {
      UnsealedTrans(a.children[i].node, b.children[i].node, c.children[i].node);
    }
  }

  lemma {:induction false} UnsealedErase(a: Node, b: Node)
    requires OnlyUnsealed(a, b)
    ensures Erase(a) == Erase(b)
    decreases a
  {
    forall i | i in a.children ensures Erase(a.children[i].node) == Erase(b.children[i].node) {
      if a.children[i] != b.children[i] {
        UnsealedErase(a.children[i].node, b.children[i].node);
      }
    }
  }

  /** Replacing one child's node by a less sealed copy, behind an inline edge, only unseals. */
  lemma UnsealChild(n: Node, i: Index, c: Node)
    requires i in n.children && OnlyUnsealed(n.children[i].node, c)
    ensures OnlyUnsealed(n, n.(children := n.children[i := Inline(c)]))
  {}

  /** Equal shapes are equally settled and answer lookups alike. */
  lemma {:induction false} EraseFind(a: Node, b: Node, key: Path)
    requires Erase(a) == Erase(b)
    ensures Find(a, key) == Find(b, key)
    decreases a
  {
    EraseParts(a, b);
    if Descends(a, key) {
      EraseFind(Next(a, key), Next(b, key), After(a, key));
    }
  }

  lemma {:induction false} EraseParts(a: Node, b: Node)
    requires Erase(a) == Erase(b)
    ensures a.path == b.path && a.value == b.value && a.children.Keys == b.children.Keys
    ensures forall i :: i in a.children ==> Erase(a.children[i].node) == Erase(b.children[i].node)
  {
    ErasedChild(a);
    ErasedChild(b);
  }

  lemma {:induction false} ErasedChild(a: Node)
    ensures Erase(a).path == a.path && Erase(a).value == a.value
    ensures Erase(a).children.Keys == a.children.Keys
    ensures forall i :: i in a.children ==> Erase(a).children[i] == Inline(Erase(a.children[i].node))
  {}

  lemma {:induction false} EraseSettled(a: Node, b: Node)
    requires Erase(a) == Erase(b) && Settled(a)
    ensures Settled(b)
    decreases a
  {
    EraseParts(a, b);
    assert |a.children| == |a.children.Keys| == |b.children.Keys| == |b.children|;
    forall i | i in b.children ensures Settled(b.children[i].node) {
      EraseSettled(a.children[i].node, b.children[i].node);
    }
  }

  lemma EraseContents(a: Root, b: Root)
    requires EraseRoot(a) == EraseRoot(b)
    ensures Contents(a) == Contents(b)
  {
    forall k: Path
      ensures FindAt(a, k) == if k in Contents(b) then Some(Contents(b)[k]) else None {
      ContentsAt(b, k);
      if a.Some? {
        EraseFind(a.value, b.value, k);
      }
    }
    ContentsAgree(a, Contents(b));
  }

  /** The number of nodes in a trie, and in the children named by `s`: a termination measure. */
  ghost function Size(n: Node): nat
    decreases n, 1, 0
  {
    1 + SizeOver(n, n.children.Keys)
  }

  ghost function SizeOver(n: Node, s: set<Index>): nat
    requires s <= n.children.Keys
    decreases n, 0, |s|
  {
    if s == {} then 0 else
      var i := Min(s);
      Size(n.children[i].node) + SizeOver(n, s - {i})
  }

  lemma {:induction false} SizeOverLocal(a: Node, b: Node, s: set<Index>)
    requires s <= a.children.Keys && s <= b.children.Keys
    requires forall i :: i in s ==> a.children[i].node == b.children[i].node
    ensures SizeOver(a, s) == SizeOver(b, s)
    decreases |s|
  {
    if s != {} {
      SizeOverLocal(a, b, s - {Min(s)});
    }
  }

  lemma {:induction false} SizeOverSubset(n: Node, t: set<Index>, s: set<Index>)
    requires t <= s <= n.children.Keys
    ensures SizeOver(n, t) <= SizeOver(n, s)
    decreases |s|
  {
    if t != {} {
      var i := Min(s);
      if i in t {
        assert Min(t) == i;
        SizeOverSubset(n, t - {i}, s - {i});
      } else {
        SizeOverSubset(n, t, s - {i});
      }
    }
  }
}
