/** Removal of one key or of a whole prefix: the recursive specification and its laws. */
module Removal {
  import opened Wrappers
  import opened Paths
  import opened Mins
  import opened Nodes
  import opened Frames
  import Insertion

  /** What a removal leaves of a node: nothing, or a node that takes its place. */
  datatype Outcome = Gone | Kept(node: Node)

  function FindOut(out: Outcome, k: Path): Option<Value> {
    if out.Gone? then None else Find(out.node, k)
  }

  function RootOf(out: Outcome): Root {
    if out.Gone? then None else Some(out.node)
  }

  /** The child at `j` with its parent's path joined in front of its own. */
  function Merged(n: Node, j: Index): Node
    requires j in n.children
  {
    var c := n.children[j].node;
    Node(n.path + [j] + c.path, c.value, c.children)
  }

  /** The index of the first child other than `i`. */
  function Survivor(n: Node, i: Index): Index
    requires n.children.Keys - {i} != {}
  {
    Min(n.children.Keys - {i})
  }

  lemma SecondChild(n: Node, i: Index)
    requires i in n.children && |n.children| == 2
    ensures n.children.Keys - {i} != {}
    ensures n.children.Keys == {i, Survivor(n, i)}
  {
    assert |n.children.Keys - {i}| == 1;
    var j := Survivor(n, i);
    OnlyElement(n.children.Keys - {i}, j);
    assert n.children.Keys == (n.children.Keys - {i}) + {i};
  }

  lemma FirstChild(n: Node)
    requires |n.children| == 1
    ensures n.children.Keys != {} && n.children.Keys == {Min(n.children.Keys)}
  {
    assert |n.children.Keys| == 1;
    OnlyElement(n.children.Keys, Min(n.children.Keys));
  }

  /** Taking the child at `i` away: the parent stays, merges with its survivor, or leaves too. */
  function Detached(n: Node, i: Index): Outcome
    requires i in n.children
  {
    if n.value.Some? || |n.children| >= 3 then Kept(n.(children := n.children - {i}))
    else if |n.children| == 2 then SecondChild(n, i); Kept(Merged(n, Survivor(n, i)))
    else Gone
  }

  /** The parent after its child at `i` has become `out`. */
  function Repaired(n: Node, i: Index, out: Outcome): Outcome
    requires i in n.children
  {
    match out
    case Kept(c) => Kept(n.(children := n.children[i := Inline(c)]))
    case Gone => Detached(n, i)
  }

  /** A node whose own value is removed. */
  function Cleared(n: Node): Outcome {
    if |n.children| == 0 then Gone
    else if |n.children| == 1 then FirstChild(n); Kept(Merged(n, Min(n.children.Keys)))
    else Kept(n.(value := None))
  }

  // ----- store calls: only a child about to be merged is materialized

  function RepairCalls(n: Node, out: Outcome): nat {
    if out.Gone? && n.value.None? && |n.children| == 2 then 1 else 0
  }

  function ClearCalls(n: Node): nat {
    if |n.children| == 1 then 1 else 0
  }

  function RemovedCalls(n: Node, key: Path): nat
    requires Find(n, key).Some?
    decreases n
  {
    if key == n.path then ClearCalls(n)
    else RemovedCalls(Next(n, key), After(n, key)) + RepairCalls(n, Removed(Next(n, key), After(n, key)))
  }

  function CutCalls(n: Node, prefix: Path): nat
    requires Reaches(n, prefix)
    decreases n
  {
    if prefix <= n.path then 0
    else CutCalls(Next(n, prefix), After(n, prefix)) + RepairCalls(n, Cut(Next(n, prefix), After(n, prefix)))
  }

  function UnwoundCalls(frames: seq<Frame>, out: Outcome): nat
    requires Linked(frames)
    decreases |frames|
  {
    if frames == [] then 0 else
      var last := |frames| - 1;
      RepairCalls(frames[last].node, out) +
      UnwoundCalls(frames[..last], Repaired(frames[last].node, frames[last].at, out))
  }

  /** What is kept needs no repair above it. */
  lemma {:induction false} KeptCalls(frames: seq<Frame>, c: Node)
    requires Linked(frames)
    ensures UnwoundCalls(frames, Kept(c)) == 0
    decreases |frames|
  {
    if frames != [] {
      var last := |frames| - 1;
      KeptCalls(frames[..last], Attach(frames[last], c));
    }
  }

  function Removed(n: Node, key: Path): Outcome
    requires Find(n, key).Some?
    decreases n
  {
    if key == n.path then Cleared(n)
    else Repaired(n, key[|n.path|], Removed(Next(n, key), After(n, key)))
  }

  /** There is a node at or below the prefix. */
  predicate Reaches(n: Node, prefix: Path)
    decreases n
  {
    prefix <= n.path || (Descends(n, prefix) && Reaches(Next(n, prefix), After(n, prefix)))
  }

  /** The first node at or below the prefix. */
  function Reached(n: Node, prefix: Path): Node
    requires Reaches(n, prefix)
    decreases n
  {
    if prefix <= n.path then n else Reached(Next(n, prefix), After(n, prefix))
  }

  function Cut(n: Node, prefix: Path): Outcome
    requires Reaches(n, prefix)
    decreases n
  {
    if prefix <= n.path then Gone
    else Repaired(n, prefix[|n.path|], Cut(Next(n, prefix), After(n, prefix)))
  }

  /** The outcome at the root when the end of the path becomes `out`. */
  function Unwound(frames: seq<Frame>, out: Outcome): Outcome
    requires Linked(frames)
    decreases |frames|
  {
    if frames == [] then out else
      var last := |frames| - 1;
      Unwound(frames[..last], Repaired(frames[last].node, frames[last].at, out))
  }

  lemma {:induction false} UnwoundKept(frames: seq<Frame>, c: Node)
    requires Linked(frames)
    ensures Unwound(frames, Kept(c)) == Kept(Plug(frames, c))
    decreases |frames|
  {
    if frames != [] {
      var last := |frames| - 1;
      UnwoundKept(frames[..last], Attach(frames[last], c));
    }
  }

  /** The frame's own descended edge is irrelevant to a repair: only its index matters. */
  lemma UnwoundPush(frames: seq<Frame>, f: Frame, out: Outcome)
    requires Linked(frames) && f.at in f.node.children
    ensures Linked(frames + [f])
    ensures Unwound(frames + [f], out) == Unwound(frames, Repaired(f.node, f.at, out))
  {
    assert (frames + [f])[..|frames|] == frames;
  }

  /** A repair does not depend on what edge the child was reached through. */
  lemma RepairedIgnoresEdge(n: Node, i: Index, e: Edge, out: Outcome)
    requires i in n.children
    ensures Repaired(n.(children := n.children[i := e]), i, out) == Repaired(n, i, out)
  {
    var m := n.(children := n.children[i := e]);
    assert m.children.Keys == n.children.Keys;
    assert |m.children| == |m.children.Keys| == |n.children|;
    if out.Kept? {
      assert m.children[i := Inline(out.node)] == n.children[i := Inline(out.node)];
    } else {
      assert m.children - {i} == n.children - {i};
    }
  }

  // ----- what the repairs do to lookup

  predicate Under(n: Node, i: Index, k: Path) {
    n.path < k && k[|n.path|] == i
  }

  /** Merging keeps exactly the keys beneath the merged child. */
  lemma MergedFind(n: Node, j: Index, k: Path)
    requires j in n.children
    ensures Find(Merged(n, j), k)
         == if Under(n, j, k) then Find(n.children[j].node, After(n, k)) else None
  {
    var m, o := Merged(n, j), |n.path|;
    assert m.path[..o] == n.path && m.path[..o + 1] == n.path + [j];
    if n.path < k {
      SplitKey(n, k);
      if k[o] == j {
        assert Insertion.Lowered(m, o) == n.children[j].node;
        Insertion.LoweredFind(m, o, After(n, k));
      } else {
        SharedAt(k, m.path, o);
        Insertion.FindDiverged(m, k);
      }
    } else {
      Insertion.FindOnlyUnder(m, o, k);
    }
  }

  lemma FindUnder(n: Node, i: Index, k: Path)
    requires Under(n, i, k)
    ensures Find(n, k) == if i in n.children then Find(n.children[i].node, After(n, k)) else None
  {
    SplitKey(n, k);
    FindBelow(n, i, After(n, k));
  }

  /** Detaching a child drops the keys beneath it and no others. */
  lemma DetachedFind(n: Node, i: Index, k: Path)
    requires i in n.children
    ensures FindOut(Detached(n, i), k) == if Under(n, i, k) then None else Find(n, k)
  {
    if n.value.Some? || |n.children| >= 3 {
    } else if |n.children| == 2 {
      SecondChild(n, i);
      var j := Survivor(n, i);
      MergedFind(n, j, k);
      if n.path < k {
        FindUnder(n, k[|n.path|], k);
      }
    } else {
      OnlyElement(n.children.Keys, i);
    }
  }

  /** A repair answers from `out` beneath `i` and from the old parent elsewhere. */
  lemma RepairedFind(n: Node, i: Index, out: Outcome, k: Path)
    requires i in n.children
    ensures FindOut(Repaired(n, i, out), k)
         == if Under(n, i, k) then FindOut(out, After(n, k)) else Find(n, k)
  {
    if out.Gone? {
      DetachedFind(n, i, k);
    } else {
      var m := Repaired(n, i, out).node;
      if n.path < k {
        FindUnder(n, k[|n.path|], k);
        FindUnder(m, k[|n.path|], k);
      }
    }
  }

  lemma ClearedFind(n: Node, k: Path)
    ensures FindOut(Cleared(n), k) == if k == n.path then None else Find(n, k)
  {
    if |n.children| == 0 {
      assert n.children.Keys == {};
    } else if |n.children| == 1 {
      FirstChild(n);
      MergedFind(n, Min(n.children.Keys), k);
      if n.path < k {
        FindUnder(n, k[|n.path|], k);
      }
    }
  }

  /** Removal deletes exactly the given key, on any trie. */
  lemma {:induction false} RemovedFind(n: Node, key: Path, k: Path)
    requires Find(n, key).Some?
    ensures FindOut(Removed(n, key), k) == if k == key then None else Find(n, k)
    decreases n
  {
    if key == n.path {
      ClearedFind(n, k);
    } else {
      var i := key[|n.path|];
      SplitKey(n, key);
      FindUnder(n, i, key);
      RepairedFind(n, i, Removed(Next(n, key), After(n, key)), k);
      if Under(n, i, k) {
        SplitKey(n, k);
        FindUnder(n, i, k);
        RemovedFind(Next(n, key), After(n, key), After(n, k));
      }
    }
  }

  /** Cutting a prefix deletes exactly the keys that start with it, on any trie. */
  lemma {:induction false} CutFind(n: Node, prefix: Path, k: Path)
    requires Reaches(n, prefix)
    ensures FindOut(Cut(n, prefix), k) == if prefix <= k then None else Find(n, k)
    decreases n
  {
    if prefix <= n.path {
      if !(prefix <= k) {
        NotUnderPrefix(n, prefix, k);
      }
    } else {
      var i := prefix[|n.path|];
      SplitKey(n, prefix);
      RepairedFind(n, i, Cut(Next(n, prefix), After(n, prefix)), k);
      if Under(n, i, k) {
        SplitKey(n, k);
        FindUnder(n, i, k);
        CutFind(Next(n, prefix), After(n, prefix), After(n, k));
        assert prefix <= k <==> After(n, prefix) <= After(n, k);
      } else {
        PastPath(n, prefix, k);
      }
    }
  }

  lemma PastPath(n: Node, prefix: Path, k: Path)
    requires n.path < prefix
    ensures prefix <= k ==> Under(n, prefix[|n.path|], k)
  {}

  lemma NotUnderPrefix(n: Node, prefix: Path, k: Path)
    requires prefix <= n.path && !(prefix <= k)
    ensures Find(n, k) == None
  {
    assert n.path <= k ==> prefix <= k;
  }

  /** When no node is reached there is no key under the prefix. */
  lemma {:induction false} NotReached(n: Node, prefix: Path, k: Path)
    requires !Reaches(n, prefix) && prefix <= k
    ensures Find(n, k) == None
    decreases n
  {
    if n.path < k {
      if n.path < prefix {
        SplitKey(n, prefix);
        SplitKey(n, k);
        var i := prefix[|n.path|];
        assert k[|n.path|] == i && After(n, prefix) <= After(n, k);
        FindUnder(n, i, k);
        if i in n.children {
          NotReached(n.children[i].node, After(n, prefix), After(n, k));
        }
      }
    }
  }

  // ----- what the store calls are made for

  /** A node found before and after whose partial path has become longer. */
  ghost predicate LongerAt(before: Node, after: Node, q: Path) {
    FindNode(before, q).Some? && FindNode(after, q).Some? &&
    |FindNode(after, q).value.path| > |FindNode(before, q).value.path|
  }

  /** Some node that stays has been merged with its parent. */
  ghost predicate Joined(before: Node, out: Outcome) {
    out.Kept? && exists q: Path :: LongerAt(before, out.node, q)
  }

  lemma MergedJoins(n: Node, j: Index)
    requires j in n.children
    ensures Joined(n, Kept(Merged(n, j)))
  {
    var c := n.children[j].node;
    FindBelow(n, j, c.path);
    assert LongerAt(n, Merged(n, j), n.path + [j] + c.path);
  }

  /** Nodes with the same path whose common children are the same find no node with a longer path. */
  lemma FewerJoins(n: Node, m: Node)
    requires m.path == n.path && forall i :: i in m.children ==> i in n.children && m.children[i] == n.children[i]
    ensures !Joined(n, Kept(m))
  {
    forall q: Path | FindNode(n, q).Some? && FindNode(m, q).Some? ensures !LongerAt(n, m, q) {
      if q != n.path {
        assert Descends(n, q) && Descends(m, q) && Next(m, q) == Next(n, q);
      }
    }
  }

  /** A child replaced: what is joined is joined beneath it. */
  lemma ReplacedJoins(n: Node, i: Index, c: Node)
    requires i in n.children
    ensures Joined(n, Kept(n.(children := n.children[i := Inline(c)]))) <==> Joined(n.children[i].node, Kept(c))
  {
    var m, was := n.(children := n.children[i := Inline(c)]), n.children[i].node;
    forall q: Path | LongerAt(n, m, q) ensures Joined(was, Kept(c)) {
      assert q != n.path && Descends(n, q) && Descends(m, q);
      assert q[|n.path|] == i;
      assert LongerAt(was, c, After(n, q));
    }
    forall rest: Path | LongerAt(was, c, rest) ensures Joined(n, Kept(m)) {
      FindBelow(n, i, rest);
      FindBelow(m, i, rest);
      assert LongerAt(n, m, n.path + [i] + rest);
    }
  }

  lemma RepairJoins(n: Node, i: Index, out: Outcome)
    requires i in n.children
    ensures Joined(n, Repaired(n, i, out)) <==> RepairCalls(n, out) == 1 || Joined(n.children[i].node, out)
  {
    if out.Kept? {
      ReplacedJoins(n, i, out.node);
    } else if n.value.Some? || |n.children| >= 3 {
      FewerJoins(n, n.(children := n.children - {i}));
    } else if |n.children| == 2 {
      SecondChild(n, i);
      MergedJoins(n, Survivor(n, i));
    }
  }

  lemma ClearJoins(n: Node)
    ensures Joined(n, Cleared(n)) <==> ClearCalls(n) == 1
  {
    if |n.children| == 1 {
      FirstChild(n);
      MergedJoins(n, Min(n.children.Keys));
    } else if |n.children| > 1 {
      FewerJoins(n, n.(value := None));
    }
  }

  /** A removal materializes one edge if it merges a node with its parent, and no other. */
  lemma {:induction false} RemovedJoins(n: Node, key: Path)
    requires Find(n, key).Some?
    ensures RemovedCalls(n, key) == if Joined(n, Removed(n, key)) then 1 else 0
    decreases n
  {
    if key == n.path {
      ClearJoins(n);
    } else {
      RemovedJoins(Next(n, key), After(n, key));
      RepairJoins(n, key[|n.path|], Removed(Next(n, key), After(n, key)));
    }
  }

  /** The same for what a prefix removal materializes besides what it takes out. */
  lemma {:induction false} CutJoins(n: Node, prefix: Path)
    requires Reaches(n, prefix)
    ensures CutCalls(n, prefix) == if Joined(n, Cut(n, prefix)) then 1 else 0
    decreases n
  {
    if !(prefix <= n.path) {
      CutJoins(Next(n, prefix), After(n, prefix));
      RepairJoins(n, prefix[|n.path|], Cut(Next(n, prefix), After(n, prefix)));
    }
  }

  /** The node reached is found under the prefix, and it is over every other that is. */
  lemma {:induction false} ReachedFirst(n: Node, prefix: Path) returns (p: Path)
    requires Reaches(n, prefix)
    ensures prefix <= p && FindNode(n, p) == Some(Reached(n, prefix))
    ensures forall q: Path :: prefix <= q && FindNode(n, q).Some? ==> p <= q
    decreases n
  {
    if prefix <= n.path {
      p := n.path;
    } else {
      var i := prefix[|n.path|];
      var below := ReachedFirst(Next(n, prefix), After(n, prefix));
      SplitKey(n, prefix);
      FindBelow(n, i, below);
      p := n.path + [i] + below;
      forall q: Path | prefix <= q && FindNode(n, q).Some? ensures p <= q {
        assert n.path < q && q[|n.path|] == i;
        SplitKey(n, q);
        var rest := After(n, q);
        assert After(n, prefix) <= rest && q == n.path + [i] + rest;
        FindBelow(n, i, rest);
        assert below <= rest;
        assert p == q[..|p|];
      }
    }
  }

  // ----- what the repairs do to the structural invariant

  lemma RepairedSettled(n: Node, i: Index, out: Outcome)
    requires i in n.children && Settled(n) && SettledRoot(RootOf(out))
    ensures SettledRoot(RootOf(Repaired(n, i, out)))
  {
    if out.Kept? {
      Insertion.ChildSettled(n, i, out.node);
    } else if n.value.Some? || |n.children| >= 3 {
      var rest := n.children - {i};
      assert rest.Keys == n.children.Keys - {i};
      assert |rest| == |rest.Keys| == |n.children| - 1;
    } else if |n.children| == 2 {
      SecondChild(n, i);
    }
  }

  lemma {:induction false} RemovedSettled(n: Node, key: Path)
    requires Settled(n) && Find(n, key).Some?
    ensures SettledRoot(RootOf(Removed(n, key)))
    decreases n
  {
    if key == n.path {
      if |n.children| == 1 {
        FirstChild(n);
      }
    } else {
      RemovedSettled(Next(n, key), After(n, key));
      RepairedSettled(n, key[|n.path|], Removed(Next(n, key), After(n, key)));
    }
  }

  lemma {:induction false} CutSettled(n: Node, prefix: Path)
    requires Settled(n) && Reaches(n, prefix)
    ensures SettledRoot(RootOf(Cut(n, prefix)))
    decreases n
  {
    if !(prefix <= n.path) {
      CutSettled(Next(n, prefix), After(n, prefix));
      RepairedSettled(n, prefix[|n.path|], Cut(Next(n, prefix), After(n, prefix)));
    }
  }

  // ----- the same facts about contents maps

  /** The keys that do not start with the prefix. */
  ghost function Outside(m: map<Path, Value>, prefix: Path): map<Path, Value> {
    map k | k in m && !(prefix <= k) :: m[k]
  }

  lemma RemovedContents(n: Node, key: Path)
    requires Find(n, key).Some?
    ensures Contents(RootOf(Removed(n, key))) == Contents(Some(n)) - {key}
  {
    var r, m := RootOf(Removed(n, key)), Contents(Some(n)) - {key};
    forall k: Path ensures FindAt(r, k) == if k in m then Some(m[k]) else None {
      ContentsAt(Some(n), k);
      RemovedFind(n, key, k);
    }
    ContentsAgree(r, m);
  }

  lemma CutContents(n: Node, prefix: Path)
    ensures Reaches(n, prefix) ==>
              Contents(RootOf(Cut(n, prefix))) == Outside(Contents(Some(n)), prefix)
    ensures !Reaches(n, prefix) ==> Contents(Some(n)) == Outside(Contents(Some(n)), prefix)
  {
    var r := if Reaches(n, prefix) then RootOf(Cut(n, prefix)) else Some(n);
    var m := Outside(Contents(Some(n)), prefix);
    forall k: Path ensures FindAt(r, k) == if k in m then Some(m[k]) else None {
      ContentsAt(Some(n), k);
      if Reaches(n, prefix) {
        CutFind(n, prefix, k);
      } else if prefix <= k {
        NotReached(n, prefix, k);
      }
    }
    ContentsAgree(r, m);
  }
}
