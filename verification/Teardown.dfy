/** Dropping a subtree with a worklist instead of recursion. */
module Teardown {
  import opened Paths
  import opened Mins
  import opened Nodes
  import opened PreOrder

  /** What goes when the node does, with multiplicity: itself, and what its edges hold. */
  ghost function AllNodes(n: Node, owns: Edge -> bool): multiset<Node>
    decreases n, 1, 0
  {
    multiset{n} + NodesOver(n, n.children.Keys, owns)
  }

  /** What an edge keeps alive: nothing, if it only refers to its node. */
  ghost function Held(e: Edge, owns: Edge -> bool): multiset<Node>
    decreases e, 2, 0
  {
    if owns(e) then AllNodes(e.node, owns) else multiset{}
  }

  ghost function NodesOver(n: Node, s: set<Index>, owns: Edge -> bool): multiset<Node>
    requires s <= n.children.Keys
    decreases n, 0, |s|
  {
    if s == {} then multiset{} else
      var i := Min(s);
      Held(n.children[i], owns) + NodesOver(n, s - {i}, owns)
  }

  /** Every edge a lookup of the key follows yields its node. */
  ghost predicate Owned(n: Node, key: Path, owns: Edge -> bool)
    decreases n
  {
    Descends(n, key) ==> owns(n.children[key[|n.path|]]) && Owned(Next(n, key), After(n, key), owns)
  }

  /** The nodes visited at the paths that `keep` holds of. */
  ghost function Picked(s: seq<Visit>, keep: Path -> bool): multiset<Node> {
    if s == [] then multiset{} else
      (if keep(s[0].path) then multiset{s[0].node} else multiset{}) + Picked(s[1..], keep)
  }

  lemma {:induction false} PickedConcat(a: seq<Visit>, b: seq<Visit>, keep: Path -> bool)
    ensures Picked(a + b, keep) == Picked(a, keep) + Picked(b, keep)
  {
    if a == [] {
      assert a + b == b;
    } else {
      assert (a + b)[1..] == a[1..] + b;
      PickedConcat(a[1..], b, keep);
    }
  }

  lemma {:induction false} PickedNone(s: seq<Visit>, keep: Path -> bool)
    requires forall k :: 0 <= k < |s| ==> !keep(s[k].path)
    ensures Picked(s, keep) == multiset{}
  {
    if s != [] {
      PickedNone(s[1..], keep);
    }
  }

  /** What `keep` says of the paths under the slot `lead`: whether their nodes are owned. */
  ghost predicate KeepsOwned(n: Node, lead: Path, owns: Edge -> bool, keep: Path -> bool) {
    forall key: Path :: FindNode(n, key).Some? ==> (keep(lead + key) <==> Owned(n, key, owns))
  }

  /** What goes with a node is what the listing holds at the paths reached through owned edges alone. */
  lemma {:induction false} OwnedListing(n: Node, lead: Path, owns: Edge -> bool, keep: Path -> bool)
    requires KeepsOwned(n, lead, owns, keep)
    ensures AllNodes(n, owns) == Picked(Listing(n, lead), keep)
    decreases n, 1, 0
  {
    var full := lead + n.path;
    assert keep(full) by {
      assert FindNode(n, n.path).Some?;
    }
    OwnedBelow(n, lead, n.children.Keys, owns, keep);
    PickedConcat([Visit(full, n)], Below(n, full, n.children.Keys), keep);
    assert [Visit(full, n)][1..] == [];
  }

  lemma {:induction false} OwnedBelow(n: Node, lead: Path, s: set<Index>, owns: Edge -> bool, keep: Path -> bool)
    requires KeepsOwned(n, lead, owns, keep) && s <= n.children.Keys
    ensures NodesOver(n, s, owns) == Picked(Below(n, lead + n.path, s), keep)
    decreases n, 0, |s|
  {
    if s != {} {
      var i := Min(s);
      var full, c := lead + n.path, n.children[i].node;
      KeptBelow(n, lead, i, owns, keep);
      if owns(n.children[i]) {
        OwnedListing(c, full + [i], owns, keep);
      } else {
        PickedNone(Listing(c, full + [i]), keep);
      }
      OwnedBelow(n, lead, s - {i}, owns, keep);
      PickedConcat(Listing(c, full + [i]), Below(n, full, s - {i}), keep);
    }
  }

  /** Beneath an edge that yields its node the same holds; beneath another nothing is kept. */
  lemma KeptBelow(n: Node, lead: Path, i: Index, owns: Edge -> bool, keep: Path -> bool)
    requires KeepsOwned(n, lead, owns, keep) && i in n.children
    ensures var c, slot := n.children[i].node, lead + n.path + [i];
            if owns(n.children[i]) then KeepsOwned(c, slot, owns, keep)
            else forall k :: 0 <= k < |Listing(c, slot)| ==> !keep(Listing(c, slot)[k].path)
  {
    var c, slot := n.children[i].node, lead + n.path + [i];
    forall rest: Path | FindNode(c, rest).Some?
      ensures keep(slot + rest) <==> owns(n.children[i]) && Owned(c, rest, owns) {
      var key := n.path + [i] + rest;
      FindBelow(n, i, rest);
      assert Descends(n, key) && key[|n.path|] == i && After(n, key) == rest;
      assert lead + key == slot + rest;
    }
    forall k | 0 <= k < |Listing(c, slot)|
      ensures keep(Listing(c, slot)[k].path) ==> owns(n.children[i]) {
      var v := Listing(c, slot)[k];
      ListingExtends(c, slot, k);
      var rest := v.path[|slot|..];
      assert slot <= slot + c.path <= v.path;
      assert v == Visit(slot + rest, v.node);
      ListingFinds(c, slot, rest, v.node);
    }
  }

  /** For a whole trie. */
  lemma OwnedNodes(n: Node, owns: Edge -> bool)
    ensures AllNodes(n, owns) == Picked(Listing(n, []), key => Owned(n, key, owns))
  {
    var keep := (key: Path) => Owned(n, key, owns);
    forall key: Path ensures keep([] + key) <==> Owned(n, key, owns) {
      assert [] + key == key;
    }
    OwnedListing(n, [], owns, keep);
  }

  ghost function Sum<X>(ms: seq<multiset<X>>): multiset<X> {
    if ms == [] then multiset{} else ms[0] + Sum(ms[1..])
  }

  lemma {:induction false} SumConcat<X>(a: seq<multiset<X>>, b: seq<multiset<X>>)
    ensures Sum(a + b) == Sum(a) + Sum(b)
  {
    if a == [] {
      assert a + b == b;
    } else {
      assert (a + b)[1..] == a[1..] + b;
      SumConcat(a[1..], b);
    }
  }

  ghost function Subtrees(work: seq<Edge>, owns: Edge -> bool): (ms: seq<multiset<Node>>)
    ensures |ms| == |work| && forall k :: 0 <= k < |work| ==> ms[k] == Held(work[k], owns)
  {
    seq(|work|, k requires 0 <= k < |work| => Held(work[k], owns))
  }

  /** Everything reachable from the edges of a worklist. */
  ghost function Reachable(work: seq<Edge>, owns: Edge -> bool): multiset<Node> {
    Sum(Subtrees(work, owns))
  }

  lemma ReachableConcat(a: seq<Edge>, b: seq<Edge>, owns: Edge -> bool)
    ensures Reachable(a + b, owns) == Reachable(a, owns) + Reachable(b, owns)
  {
    SumConcat(Subtrees(a, owns), Subtrees(b, owns));
    SubtreesConcat(a, b, owns);
  }

  lemma SubtreesConcat(a: seq<Edge>, b: seq<Edge>, owns: Edge -> bool)
    ensures Subtrees(a + b, owns) == Subtrees(a, owns) + Subtrees(b, owns)
  {
    var l, r := Subtrees(a + b, owns), Subtrees(a, owns) + Subtrees(b, owns);
    forall k | 0 <= k < |l| ensures l[k] == r[k] {
      assert (a + b)[k] == if k < |a| then a[k] else b[k - |a|];
    }
  }

  lemma ReachableOne(e: Edge, owns: Edge -> bool)
    ensures Reachable([e], owns) == Held(e, owns)
  {
    assert Subtrees([e], owns) == [Held(e, owns)];
    assert Sum([Held(e, owns)][1..]) == multiset{};
  }

  /** The edges of the children in `s`, ascending: what the children map yields when consumed. */
  method IntoEdges(n: Node, s: set<Index>, ghost owns: Edge -> bool) returns (edges: seq<Edge>)
    requires s <= n.children.Keys
    ensures Reachable(edges, owns) == NodesOver(n, s, owns) && |edges| == |s|
    decreases |s|
  {
    if s == {} {
      return [];
    }
    var i := Min(s);
    var rest := IntoEdges(n, s - {i}, owns);
    ReachableConcat([n.children[i]], rest, owns);
    ReachableOne(n.children[i], owns);
    edges := [n.children[i]] + rest;
  }

  /**
   * Takes every node the root owns apart exactly once, in an order that never recurses into a child.
   * `owns` says which edges yield their node; the others are dropped as they are.
   */
  method DropSubtree(node: Node, owns: Edge -> bool) returns (dropped: seq<Node>)
    ensures multiset(dropped) == AllNodes(node, owns)
  {
    dropped := [node];
    var worklist := IntoEdges(node, node.children.Keys, owns);
    while worklist != []
      invariant multiset(dropped) + Reachable(worklist, owns) == AllNodes(node, owns)
      decreases |Reachable(worklist, owns)|, |worklist|
    {
      var last := |worklist| - 1;
      var edge := worklist[last];
      PopEdge(worklist, owns);
      worklist := worklist[..last];
      if owns(edge) {
        var more := IntoEdges(edge.node, edge.node.children.Keys, owns);
        ReachableConcat(worklist, more, owns);
        assert multiset(dropped + [edge.node]) == multiset(dropped) + multiset{edge.node};
        assert Held(edge, owns) == multiset{edge.node} + Reachable(more, owns);
        dropped := dropped + [edge.node];
        worklist := worklist + more;
      }
    }
  }

  lemma PopEdge(work: seq<Edge>, owns: Edge -> bool)
    requires work != []
    ensures var last := |work| - 1;
            Reachable(work, owns) == Reachable(work[..last], owns) + Held(work[last], owns)
  {
    var last := |work| - 1;
    assert work == work[..last] + [work[last]];
    ReachableConcat(work[..last], [work[last]], owns);
    ReachableOne(work[last], owns);
  }
}
