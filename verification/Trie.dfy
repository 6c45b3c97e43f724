/** The trie operations as they run: loops over an explicit path, one fallible store call a step. */
module Tries {
  import opened Wrappers
  import opened Paths
  import opened Mins
  import opened Nodes
  import opened Stores
  import opened Frames
  import opened Insertion
  import opened Removal
  import opened Hashing
  import opened Steps
  import opened Accounting
  import HashWalk

  /** Where a key leaves a node: inside its partial path, at its end, or on to a child. */
  datatype Split = Split(sharedLen: nat, keyNext: Option<Index>, above: Option<(Index, Path)>)

  function SplitOf(rest: Path, n: Node): Split {
    var o := SharedLen(rest, n.path);
    Split(o,
          if o < |rest| then Some(rest[o]) else None,
          if o < |n.path| then Some((n.path[o], n.path[o + 1..])) else None)
  }

  /** The pushed frame holds the parent with the descended edge already inline. */
  function Descended(n: Node, i: Index): Frame
    requires i in n.children
  {
    Frame(n.(children := n.children[i := Inline(n.children[i].node)]), i)
  }

  lemma DescendPlugs(frames: seq<Frame>, n: Node, i: Index, c: Node)
    requires i in n.children
    ensures Plug(frames + [Descended(n, i)], c)
         == Plug(frames, n.(children := n.children[i := Inline(c)]))
  {
    PlugPush(frames, Descended(n, i), c);
    var f := Descended(n, i);
    assert f.node.children[i := Inline(c)] == n.children[i := Inline(c)];
  }

  lemma DescendSeals(frames: seq<Frame>, n: Node, i: Index)
    requires i in n.children
    ensures Seals(Plug(frames, n))
         == Seals(Plug(frames + [Descended(n, i)], n.children[i].node)) + HashOf(n.children[i])
  {
    var c := n.children[i].node;
    DescendPlugs(frames, n, i, c);
    UnsealSeals(frames, n, i);
  }

  lemma DescendUnseals(frames: seq<Frame>, root: Node, n: Node, i: Index)
    requires i in n.children && OnlyUnsealed(root, Plug(frames, n))
    ensures OnlyUnsealed(root, Plug(frames + [Descended(n, i)], n.children[i].node))
  {
    var c := n.children[i].node;
    var m := n.(children := n.children[i := Inline(c)]);
    DescendPlugs(frames, n, i, c);
    UnsealedRefl(c);
    UnsealChild(n, i, c);
    PlugUnseal(frames, n, m);
    UnsealedTrans(root, Plug(frames, n), Plug(frames, m));
  }

  /** Unsealing beneath the end of the path, seen from the root. */
  lemma SubtreeUnseals(root: Node, frames: seq<Frame>, cur: Node, subtree: Node, lost: multiset<Digest>)
    requires OnlyUnsealed(root, Plug(frames, cur)) && OnlyUnsealed(cur, subtree)
    requires Seals(cur) == Seals(subtree) + lost
    ensures OnlyUnsealed(root, Plug(frames, subtree))
    ensures Seals(Plug(frames, cur)) == Seals(Plug(frames, subtree)) + lost
  {
    PlugUnseal(frames, cur, subtree);
    UnsealedTrans(root, Plug(frames, cur), Plug(frames, subtree));
    PlugSeals(frames, cur, subtree, lost);
  }

  lemma DescendUnwinds(frames: seq<Frame>, n: Node, i: Index, out: Outcome)
    requires i in n.children && Linked(frames)
    ensures Linked(frames + [Descended(n, i)])
    ensures Unwound(frames + [Descended(n, i)], out) == Unwound(frames, Repaired(n, i, out))
    ensures UnwoundCalls(frames + [Descended(n, i)], out)
         == RepairCalls(n, out) + UnwoundCalls(frames, Repaired(n, i, out))
  {
    var f := Descended(n, i);
    UnwoundPush(frames, f, out);
    CountOfKeys(f.node.children, n.children);
    assert (frames + [f])[..|frames|] == frames;
    RepairedIgnoresEdge(n, i, Inline(n.children[i].node), out);
  }

  /** The path and the node at its end stand for an insertion into `start`. */
  ghost predicate Inserting(start: Node, key: Path, v: Value, frames: seq<Frame>, n: Node, rest: Path) {
    OnlyUnsealed(start, Plug(frames, n)) && Find(n, rest) == Find(start, key) &&
    Plug(frames, Inserted(n, rest, v)) == Inserted(start, key, v)
  }

  /** One step of an insertion, seen from the root. */
  lemma DescendInserts(start: Node, key: Path, v: Value, frames: seq<Frame>, n: Node, rest: Path, i: Index)
    requires Inserting(start, key, v, frames, n, rest) && Descends(n, rest) && i == rest[|n.path|]
    ensures Inserting(start, key, v, frames + [Descended(n, i)], Next(n, rest), After(n, rest))
  {
    SharedPrefix(rest, n.path);
    DescendPlugs(frames, n, i, Inserted(Next(n, rest), After(n, rest), v));
    DescendUnseals(frames, start, n, i);
  }

  /** The path and the node at its end stand for a removal from `start`. */
  ghost predicate Removing(start: Node, key: Path, frames: seq<Frame>, n: Node, rest: Path) {
    Linked(frames) && OnlyUnsealed(start, Plug(frames, n)) && FindNode(n, rest) == FindNode(start, key) &&
    (Find(start, key).Some? ==>
       Unwound(frames, Removed(n, rest)) == Removed(start, key) &&
       UnwoundCalls(frames, Removed(n, rest)) + RemovedCalls(n, rest) == RemovedCalls(start, key))
  }

  /** One step of a removal, seen from the root. */
  lemma DescendRemoves(start: Node, key: Path, frames: seq<Frame>, n: Node, rest: Path, i: Index)
    requires Removing(start, key, frames, n, rest) && Descends(n, rest) && i == rest[|n.path|]
    ensures Removing(start, key, frames + [Descended(n, i)], Next(n, rest), After(n, rest))
  {
    DescendUnwinds(frames, n, i, Gone);
    if Find(n, rest).Some? {
      DescendUnwinds(frames, n, i, Removed(Next(n, rest), After(n, rest)));
    }
    DescendUnseals(frames, start, n, i);
  }

  /** The path and the node at its end stand for a prefix removal from `start`. */
  ghost predicate Cutting(start: Node, prefix: Path, frames: seq<Frame>, n: Node, rest: Path) {
    Linked(frames) && OnlyUnsealed(start, Plug(frames, n)) && Reaches(n, rest) == Reaches(start, prefix) &&
    (Reaches(n, rest) ==>
       Unwound(frames, Cut(n, rest)) == Cut(start, prefix) && Reached(n, rest) == Reached(start, prefix) &&
       UnwoundCalls(frames, Cut(n, rest)) + CutCalls(n, rest) == CutCalls(start, prefix))
  }

  /** One step of a prefix removal, seen from the root. */
  lemma DescendCut(start: Node, prefix: Path, frames: seq<Frame>, n: Node, rest: Path, i: Index)
    requires Cutting(start, prefix, frames, n, rest) && Descends(n, rest) && i == rest[|n.path|]
    ensures Cutting(start, prefix, frames + [Descended(n, i)], Next(n, rest), After(n, rest))
  {
    DescendUnwinds(frames, n, i, Gone);
    if Reaches(n, rest) {
      DescendUnwinds(frames, n, i, Cut(Next(n, rest), After(n, rest)));
    }
    DescendUnseals(frames, start, n, i);
  }

  /** Where a prefix removal stops descending: at the node it takes out, or where nothing has the prefix. */
  lemma CutStops(start: Node, prefix: Path, frames: seq<Frame>, n: Node, rest: Path)
    requires Cutting(start, prefix, frames, n, rest) && !Descends(n, rest)
    ensures Linked(frames) && OnlyUnsealed(start, Plug(frames, n))
    ensures Reaches(start, prefix) <==> rest <= n.path
    ensures rest <= n.path ==> Unwound(frames, Gone) == Cut(start, prefix) && Reached(start, prefix) == n
    ensures rest <= n.path ==> UnwoundCalls(frames, Gone) == CutCalls(start, prefix)
  {}

  lemma SplitMeaning(rest: Path, n: Node)
    ensures var s := SplitOf(rest, n);
            (s.above.None? && s.keyNext.None? <==> rest == n.path) &&
            (s.above.None? && s.keyNext.Some? <==> n.path < rest) &&
            (s.keyNext.None? <==> rest <= n.path) &&
            (n.path < rest ==> s.sharedLen == |n.path| && s.keyNext == Some(rest[|n.path|]))
  {
    SharedPrefix(rest, n.path);
  }

  /** What the split says of a lookup: it ends here, or goes on in a child. */
  lemma SplitLookup(n: Node, rest: Path)
    ensures var s := SplitOf(rest, n);
            if s.above.None? && s.keyNext.Some? && s.keyNext.value in n.children then
              Descends(n, rest) && s.keyNext.value == rest[|n.path|] && rest[s.sharedLen + 1..] == After(n, rest) &&
              FindNode(n, rest) == FindNode(Next(n, rest), After(n, rest))
            else
              !Descends(n, rest) &&
              FindNode(n, rest) == if s.above.None? && s.keyNext.None? then Some(n) else None
  {
    SplitMeaning(rest, n);
  }

  /** A chain of valueless nodes with one inline child each, ending at `target`. */
  ghost predicate ChainTo(n: Node, target: Node)
    decreases n
  {
    n == target ||
    (n.value.None? && |n.children| == 1 &&
     exists i :: i in n.children && n.children[i].hash.None? && ChainTo(n.children[i].node, target))
  }

  // ----- bookkeeping of a depth-first visit: each node with the children still to visit

  /** Every child of `n` outside `rest` is inline, and so is everything beneath it. */
  ghost predicate Visited(n: Node, rest: set<Index>) {
    rest <= n.children.Keys &&
    forall i :: i in n.children && i !in rest ==>
      n.children[i].hash == None && AllInline(n.children[i].node)
  }

  ghost predicate Visiting(frames: seq<Frame>, todo: seq<set<Index>>) {
    |todo| == |frames| &&
    forall k :: 0 <= k < |frames| ==>
      frames[k].at in frames[k].node.children && frames[k].at !in todo[k] &&
      Visited(frames[k].node, todo[k] + {frames[k].at})
  }

  /** The number of nodes still to visit. */
  ghost function Pending(frames: seq<Frame>, todo: seq<set<Index>>): nat
    requires Visiting(frames, todo)
    decreases |frames|
  {
    if frames == [] then 0 else
      var last := |frames| - 1;
      SizeOver(frames[last].node, todo[last]) + Pending(frames[..last], todo[..last])
  }

  lemma VisitPush(frames: seq<Frame>, todo: seq<set<Index>>, n: Node, rest: set<Index>)
    requires Visiting(frames, todo) && Visited(n, rest) && rest != {}
    ensures var i := Min(rest);
            var f, t := frames + [Descended(n, i)], todo + [rest - {i}];
            var c := n.children[i].node;
            Visiting(f, t) && Visited(c, c.children.Keys) &&
            SizeOver(c, c.children.Keys) + Pending(f, t) + 1 == SizeOver(n, rest) + Pending(frames, todo)
  {
    var i := Min(rest);
    var f, t := frames + [Descended(n, i)], todo + [rest - {i}];
    assert Visited(Descended(n, i).node, (rest - {i}) + {i});
    assert f[..|frames|] == frames && t[..|frames|] == todo;
    SizeOverLocal(n, Descended(n, i).node, rest - {i});
  }

  lemma VisitPop(frames: seq<Frame>, todo: seq<set<Index>>, cur: Node)
    requires Visiting(frames, todo) && frames != [] && Visited(cur, {})
    ensures var last := |frames| - 1;
            var n := Attach(frames[last], cur);
            Visiting(frames[..last], todo[..last]) && Visited(n, todo[last]) &&
            SizeOver(n, todo[last]) + Pending(frames[..last], todo[..last]) == Pending(frames, todo)
  {
    var last := |frames| - 1;
    SizeOverLocal(frames[last].node, Attach(frames[last], cur), todo[last]);
  }

  /** One read for each node entered that has one sealed child, where the scheme is sensitive. */
  ghost function HashLookups(h: Hasher, root: Root): nat {
    if root.Some? then HashWalk.Tally(h, HashWalk.Rereads(h), root.value, []) else 0
  }

  /** One materialization for each of those children that was sealed by hand. */
  ghost function HashUnseals(h: Hasher, root: Root): nat {
    if root.Some? then HashWalk.Tally(h, HashWalk.Unseals(h), root.value, []) else 0
  }

  class Trie {
    var root: Root
    const store: Store

    /** The hashes the store has recorded as replaced. */
    ghost function Record(): multiset<Digest>
      reads store
    {
      multiset(store.replaced)
    }

    /** Every hash the trie has cached and not lost, or lost and recorded. */
    ghost function Accounted(): multiset<Digest>
      reads this, store
    {
      RootSeals(root) + Record()
    }

    constructor (store: Store)
      ensures root == None && this.store == store
    {
      root := None;
      this.store := store;
    }

    /** The node whose full path is the key; every edge on the way is read through the store. */
    method GetNode(key: Path) returns (r: Result<Option<Node>>)
      modifies store`readCalls
      ensures r.Ok? ==> r.value == if root.Some? then FindNode(root.value, key) else None
      ensures r.Ok? && r.value.Some? ==> r.value.value.value == FindAt(root, key)
      ensures store.Failures() == old(store.Failures()) + One(r.Err?)
      ensures Calls(store.readFails, old(store.readCalls), store.readCalls, DescentsAt(root, key), r.Err?)
    {
      if root.None? {
        return Ok(None);
      }
      var cur, rest := root.value, key;
      while true
        invariant FindNode(cur, rest) == FindNode(root.value, key)
        invariant Descending(store.readFails, old(store.readCalls), store.readCalls, root.value, key, cur, rest)
        invariant store.Failures() == old(store.Failures())
        decreases cur
      {
        SplitLookup(cur, rest);
        var split := SplitOf(rest, cur);
        ghost var calls := store.readCalls;
        if !Descends(cur, rest) {
          DescentEnds(store.readFails, old(store.readCalls), calls, root.value, key, cur, rest);
        }
        if split.above.Some? {
          return Ok(None);
        }
        if split.keyNext.None? {
          return Ok(Some(cur));
        }
        var i := split.keyNext.value;
        if i !in cur.children {
          return Ok(None);
        }
        var node := store.Read(cur.children[i]);
        DescendCalls(store.readFails, old(store.readCalls), calls, root.value, key, cur, rest, store.readCalls, node.Err?);
        if node.Err? {
          return Err;
        }
        cur, rest := node.value, rest[split.sharedLen + 1..];
      }
    }

    /** Materializes the child at `i` of `cur` and steps into it. */
    method Descend(frames: seq<Frame>, cur: Node, i: Index) returns (r: Result<(seq<Frame>, Node)>)
      requires i in cur.children
      modifies store`materializeCalls, store`replaced
      ensures r.Ok? ==> r.value == (frames + [Descended(cur, i)], cur.children[i].node)
      ensures Record() == old(Record()) + if r.Ok? then HashOf(cur.children[i]) else multiset{}
      ensures r.Ok? ==> Seals(Plug(r.value.0, r.value.1)) + Record() == Seals(Plug(frames, cur)) + old(Record())
      ensures store.Failures() == old(store.Failures()) + One(r.Err?)
      ensures Calls(store.materializeFails, old(store.materializeCalls), store.materializeCalls, 1, r.Err?)
    {
      DescendSeals(frames, cur, i);
      var edge := store.Materialize(cur.children[i]);
      if edge.Err? {
        return Err;
      }
      var parent := cur.(children := cur.children[i := edge.value]);
      return Ok((frames + [Frame(parent, i)], edge.value.node));
    }

    /** Descends to the node an insertion at `key` changes; on failure how far it came. */
    method DescendToPlace(start: Node, key: Path, ghost v: Value)
      returns (ok: bool, frames: seq<Frame>, cur: Node, rest: Path)
      modifies store`materializeCalls, store`replaced
      ensures OnlyUnsealed(start, Plug(frames, cur))
      ensures Seals(Plug(frames, cur)) + Record() == Seals(start) + old(Record())
      ensures ok ==> !Descends(cur, rest) && Find(cur, rest) == Find(start, key)
      ensures ok ==> Plug(frames, Inserted(cur, rest, v)) == Inserted(start, key, v)
      ensures store.Failures() == old(store.Failures()) + One(!ok)
      ensures Calls(store.materializeFails, old(store.materializeCalls), store.materializeCalls, Descents(start, key), !ok)
    {
      frames, cur, rest := [], start, key;
      UnsealedRefl(cur);
      while true
        invariant Inserting(start, key, v, frames, cur, rest)
        invariant Descending(store.materializeFails, old(store.materializeCalls), store.materializeCalls,
                             start, key, cur, rest)
        invariant Seals(Plug(frames, cur)) + Record() == Seals(start) + old(Record())
        invariant store.Failures() == old(store.Failures())
        decreases cur
      {
        SplitMeaning(rest, cur);
        var split := SplitOf(rest, cur);
        ghost var calls := store.materializeCalls;
        if !Descends(cur, rest) {
          DescentEnds(store.materializeFails, old(store.materializeCalls), calls, start, key, cur, rest);
        }
        if split.above.Some? || split.keyNext.None? || split.keyNext.value !in cur.children {
          return true, frames, cur, rest;
        }
        var ki := split.keyNext.value;
        var step := Descend(frames, cur, ki);
        DescendCalls(store.materializeFails, old(store.materializeCalls), calls, start, key, cur, rest,
                     store.materializeCalls, step.Err?);
        if step.Err? {
          return false, frames, cur, rest;
        }
        DescendInserts(start, key, v, frames, cur, rest, ki);
        frames, cur := step.value.0, step.value.1;
        rest := rest[split.sharedLen + 1..];
      }
    }

    /** Stores `v` at `key`. A failure leaves only edges unsealed along the path. */
    method Insert(key: Path, v: Value) returns (r: Result<Option<Value>>)
      modifies this`root, store`materializeCalls, store`replaced
      ensures InsertStep(old(root), key, v, r, root)
      ensures Calls(store.materializeFails, old(store.materializeCalls), store.materializeCalls, DescentsAt(old(root), key), r.Err?)
      ensures store.Failures() == old(store.Failures()) + One(r.Err?)
      ensures Accounted() == old(Accounted())
    {
      if root.None? {
        LeafSeals(key, v);
        root := Some(Leaf(key, v));
        return Ok(None);
      }
      var ok, frames, cur, rest := DescendToPlace(root.value, key, v);
      if !ok {
        root := Some(Plug(frames, cur));
        return Err;
      }
      LastStepSeals(frames, cur, rest, v);
      var placed, displaced := Place(cur, rest, SplitOf(rest, cur), v);
      root := Some(Plug(frames, placed));
      return Ok(displaced);
    }

    /** Where the descent stops, the node becomes exactly what the recursive insertion makes of it. */
    method Place(cur: Node, rest: Path, split: Split, v: Value) returns (after: Node, displaced: Option<Value>)
      requires split == SplitOf(rest, cur) && !Descends(cur, rest)
      ensures after == Inserted(cur, rest, v) && displaced == Find(cur, rest)
    {
      SplitMeaning(rest, cur);
      var o := split.sharedLen;
      match (split.keyNext, split.above) {
        case (None, None) =>
          return cur.(value := Some(v)), cur.value;
        case (None, Some(above)) =>
          assert rest[..o] == rest;
          return Node(rest[..o], Some(v), map[above.0 := Inline(cur.(path := above.1))]), None;
        case (Some(ki), None) =>
          return cur.(children := cur.children[ki := Inline(Leaf(rest[o + 1..], v))]), None;
        case (Some(ki), Some(above)) =>
          FindDiverged(cur, rest);
          var below := map[above.0 := Inline(cur.(path := above.1))];
          return Node(rest[..o], None, below[ki := Inline(Leaf(rest[o + 1..], v))]), None;
      }
    }

    /**
     * Descends to the node at `key`. On success the path and the node it ends on, and whether that
     * is the node asked for; on failure how far it came.
     */
    method DescendTo(start: Node, key: Path)
      returns (ok: bool, found: bool, frames: seq<Frame>, cur: Node)
      modifies store`materializeCalls, store`replaced
      ensures OnlyUnsealed(start, Plug(frames, cur)) && Linked(frames)
      ensures Seals(Plug(frames, cur)) + Record() == Seals(start) + old(Record())
      ensures ok && found ==> FindNode(start, key) == Some(cur)
      ensures ok && !found ==> FindNode(start, key) == None
      ensures ok && found && cur.value.Some? ==>
                Find(start, key).Some? && Unwound(frames, Cleared(cur)) == Removed(start, key) &&
                ClearCalls(cur) + UnwoundCalls(frames, Cleared(cur)) == RemovedCalls(start, key)
      ensures Calls(store.materializeFails, old(store.materializeCalls), store.materializeCalls, Descents(start, key), !ok)
      ensures store.Failures() == old(store.Failures()) + One(!ok)
    {
      frames, cur := [], start;
      var rest := key;
      UnsealedRefl(cur);
      while true
        invariant Removing(start, key, frames, cur, rest)
        invariant Descending(store.materializeFails, old(store.materializeCalls), store.materializeCalls,
                             start, key, cur, rest)
        invariant Seals(Plug(frames, cur)) + Record() == Seals(start) + old(Record())
        invariant store.Failures() == old(store.Failures())
        decreases cur
      {
        SplitMeaning(rest, cur);
        var split := SplitOf(rest, cur);
        ghost var calls := store.materializeCalls;
        if !Descends(cur, rest) {
          DescentEnds(store.materializeFails, old(store.materializeCalls), calls, start, key, cur, rest);
        }
        if split.above.Some? || (split.keyNext.Some? && split.keyNext.value !in cur.children) {
          return true, false, frames, cur;
        }
        if split.keyNext.None? {
          return true, true, frames, cur;
        }
        var i, keyRest := split.keyNext.value, rest[split.sharedLen + 1..];
        var step := Descend(frames, cur, i);
        DescendCalls(store.materializeFails, old(store.materializeCalls), calls, start, key, cur, rest,
                     store.materializeCalls, step.Err?);
        if step.Err? {
          return false, false, frames, cur;
        }
        DescendRemoves(start, key, frames, cur, rest, i);
        frames, cur := step.value.0, step.value.1;
        rest := keyRest;
      }
    }

    /**
     * Equal to repairing the ancestors one by one. When the store fails, the path is still whole and
     * is put back as it was.
     */
    method UnwindRemove(path: seq<Frame>, leaving: Node) returns (ok: bool, after: Root, detached: Node)
      requires Linked(path) && Seals(leaving) == multiset{}
      modifies store`materializeCalls, store`replaced
      ensures RootSeals(after) + Record() == Seals(Plug(path, leaving)) + old(Record())
      ensures ok ==> after == RootOf(Unwound(path, Gone)) && ChainTo(detached, leaving)
      ensures Calls(store.materializeFails, old(store.materializeCalls), store.materializeCalls, UnwoundCalls(path, Gone), !ok)
      ensures !ok ==> after == Some(Plug(path, leaving))
      ensures store.Failures() == old(store.Failures()) + One(!ok)
    {
      var frames, cur := path, leaving;
      while frames != []
        invariant Linked(frames) && ChainTo(cur, leaving)
        invariant Seals(cur) == multiset{} && Record() == old(Record())
        invariant store.Failures() == old(store.Failures())
        invariant Unwound(frames, Gone) == Unwound(path, Gone)
        invariant UnwoundCalls(frames, Gone) == UnwoundCalls(path, Gone)
        invariant store.materializeCalls == old(store.materializeCalls)
        invariant Plug(frames, cur) == Plug(path, leaving)
        decreases |frames|
      {
        var last := |frames| - 1;
        var parent, i := Attach(frames[last], cur), frames[last].at;
        RepairedIgnoresEdge(frames[last].node, i, Inline(cur), Gone);
        CountOfKeys(parent.children, frames[last].node.children);
        frames := frames[..last];
        var count := |parent.children|;
        if parent.value.Some? || count >= 3 {
          PlugDropSeals(frames, parent, i);
          parent := parent.(children := parent.children - {i});
          UnwoundKept(frames, parent);
          KeptCalls(frames, parent);
          return true, Some(Plug(frames, parent)), cur;
        }
        if count == 2 {
          SecondChild(parent, i);
          var j := Survivor(parent, i);
          KeptCalls(frames, Merged(parent, j));
          ok, parent := MergeSurvivor(frames, parent, i, j);
          return ok, Some(Plug(frames, parent)), cur;
        }
        assert parent.children[i] == Inline(cur);
        OnlyElement(parent.children.Keys, i);
        OneChildSeals(parent, i);
        cur := parent;
      }
      return true, None, cur;
    }

    /** Takes the child at `i` out of a two-child parent and merges the other, materialized first. */
    method MergeSurvivor(ghost frames: seq<Frame>, parent: Node, i: Index, j: Index) returns (ok: bool, after: Node)
      requires parent.children.Keys == {i, j} && i != j && EdgeSeals(parent.children[i]) == multiset{}
      requires Linked(frames)
      modifies store`materializeCalls, store`replaced
      ensures ok ==> after == Merged(parent, j) && Unwound(frames, Kept(after)) == Kept(Plug(frames, after))
      ensures !ok ==> after == parent
      ensures Calls(store.materializeFails, old(store.materializeCalls), store.materializeCalls, 1, !ok)
      ensures store.Failures() == old(store.Failures()) + One(!ok)
      ensures Seals(Plug(frames, after)) + Record() == Seals(Plug(frames, parent)) + old(Record())
    {
      PlugSurvivorSeals(frames, parent, i, j);
      after := parent;
      var edge := store.Materialize(parent.children[j]);
      if edge.Err? {
        return false, after;
      }
      after := after.(children := after.children[j := edge.value]);
      after := after.(children := after.children - {i});
      after := MergeOnlyChild(after, j);
      UnwoundKept(frames, after);
      return true, after;
    }

    /** Merges the only child of `n` into it; the child is inline. */
    method MergeOnlyChild(n: Node, ghost j: Index) returns (r: Node)
      requires n.children.Keys == {j} && n.children[j].hash.None?
      ensures r == Merged(n, j)
    {
      var i := Min(n.children.Keys);
      var child := n.children[i].node;
      r := child.(path := n.path + [i] + child.path);
    }

    /** Equal to clearing the value of a single-child node; when the store fails, nothing has changed. */
    method ClearAndMerge(cur: Node) returns (r: Result<Node>)
      requires |cur.children| == 1 && cur.value.Some?
      modifies store`materializeCalls, store`replaced
      ensures r.Ok? ==> Cleared(cur) == Kept(r.value)
      ensures r.Ok? ==> Seals(cur) == Seals(r.value) + (Record() - old(Record())) && old(Record()) <= Record()
      ensures r.Err? ==> Record() == old(Record())
      ensures Calls(store.materializeFails, old(store.materializeCalls), store.materializeCalls, 1, r.Err?)
      ensures store.Failures() == old(store.Failures()) + One(r.Err?)
    {
      FirstChild(cur);
      var i := Min(cur.children.Keys);
      var edge := store.Materialize(cur.children[i]);
      if edge.Err? {
        return Err;
      }
      OneChildSeals(cur, i);
      MergedSeals(cur, i);
      var n := cur.(children := cur.children[i := edge.value], value := None);
      n := MergeOnlyChild(n, i);
      return Ok(n);
    }

    /** The value inside a detached chain: its edges are inline, so no store call is needed. */
    method Recover(chain: Node, ghost target: Node) returns (v: Option<Value>)
      requires ChainTo(chain, target) && target.value.Some?
      ensures v == target.value
    {
      var node := chain;
      while true
        invariant ChainTo(node, target)
        decreases node
      {
        if node.value.Some? {
          return node.value;
        }
        FirstChild(node);
        var edge := node.children[Min(node.children.Keys)];
        assert edge.hash.None?;
        node := edge.node;
      }
    }

    /** Removes the value at `key`. A failure leaves only edges unsealed. */
    method Remove(key: Path) returns (r: Result<Option<Value>>)
      modifies this`root, store`materializeCalls, store`replaced
      ensures RemoveStep(old(root), key, r, root)
      ensures Calls(store.materializeFails, old(store.materializeCalls), store.materializeCalls, RemoveCalls(old(root), key), r.Err?)
      ensures store.Failures() == old(store.Failures()) + One(r.Err?)
      ensures Accounted() == old(Accounted())
    {
      if root.None? {
        return Ok(None);
      }
      var ok, found, frames, cur := DescendTo(root.value, key);
      if !ok || !found || cur.value.None? {
        root := Some(Plug(frames, cur));
        return if ok then Ok(None) else Err;
      }
      r := RemoveFound(frames, cur);
    }

    /** Takes the value out of the node at the end of the path, by how many children it has. */
    method RemoveFound(frames: seq<Frame>, cur: Node) returns (r: Result<Option<Value>>)
      requires root.Some? && Linked(frames) && OnlyUnsealed(root.value, Plug(frames, cur)) && cur.value.Some?
      modifies this`root, store`materializeCalls, store`replaced
      ensures r.Ok? ==> r.value == cur.value && root == RootOf(Unwound(frames, Cleared(cur)))
      ensures r.Err? ==> OnlyUnsealedRoot(old(root), root)
      ensures Calls(store.materializeFails, old(store.materializeCalls), store.materializeCalls,
                    ClearCalls(cur) + UnwoundCalls(frames, Cleared(cur)), r.Err?)
      ensures store.Failures() == old(store.Failures()) + One(r.Err?)
      ensures RootSeals(root) + Record() == Seals(Plug(frames, cur)) + old(Record())
    {
      var v := cur.value;
      if |cur.children| == 0 {
        assert cur.children.Keys == {};
        var unwound, after, detached := UnwindRemove(frames, cur);
        root := after;
        if !unwound {
          return Err;
        }
        v := Recover(detached, cur);
        return Ok(v);
      }
      if |cur.children| == 1 {
        var merged := ClearAndMerge(cur);
        if merged.Err? {
          root := Some(Plug(frames, cur));
          return Err;
        }
        UnwoundKept(frames, merged.value);
        KeptCalls(frames, merged.value);
        PlugSeals(frames, cur, merged.value, Record() - old(Record()));
        root := Some(Plug(frames, merged.value));
        return Ok(v);
      }
      UnwoundKept(frames, cur.(value := None));
      KeptCalls(frames, cur.(value := None));
      SealsSame(cur.(value := None), cur);
      PlugSeals(frames, cur.(value := None), cur, multiset{});
      root := Some(Plug(frames, cur.(value := None)));
      return Ok(v);
    }

    /** Turns every edge beneath `start` inline; a failure leaves the rest as it was. */
    method MaterializeSubtree(start: Node) returns (ok: bool, after: Node)
      modifies store`materializeCalls, store`replaced
      ensures OnlyUnsealed(start, after)
      ensures ok ==> AllInline(after)
      ensures Calls(store.materializeFails, old(store.materializeCalls), store.materializeCalls, Size(start) - 1, !ok)
      ensures store.Failures() == old(store.Failures()) + One(!ok)
      ensures Seals(start) == Seals(after) + (Record() - old(Record())) && old(Record()) <= Record()
    {
      var frames: seq<Frame>, todo: seq<set<Index>> := [], [];
      var cur, remaining := start, start.children.Keys;
      UnsealedRefl(cur);
      while true
        invariant Visiting(frames, todo) && Visited(cur, remaining)
        invariant OnlyUnsealed(start, Plug(frames, cur))
        invariant Seals(Plug(frames, cur)) + Record() == Seals(start) + old(Record())
        invariant old(Record()) <= Record()
        invariant store.Failures() == old(store.Failures())
        invariant store.materializeCalls + SizeOver(cur, remaining) + Pending(frames, todo)
               == old(store.materializeCalls) + SizeOver(start, start.children.Keys)
        invariant NoneFails(store.materializeFails, old(store.materializeCalls), store.materializeCalls)
        decreases 2 * (SizeOver(cur, remaining) + Pending(frames, todo)) + |frames|
      {
        if remaining == {} {
          if frames == [] {
            SealsMoved(Seals(start), Seals(cur), old(Record()), Record());
            return true, cur;
          }
          VisitPop(frames, todo, cur);
          var last := |frames| - 1;
          cur, remaining := Attach(frames[last], cur), todo[last];
          frames, todo := frames[..last], todo[..last];
        } else {
          var i := Min(remaining);
          VisitPush(frames, todo, cur, remaining);
          var step := Descend(frames, cur, i);
          if step.Err? {
            SealsMoved(Seals(start), Seals(Plug(frames, cur)), old(Record()), Record());
            return false, Plug(frames, cur);
          }
          DescendUnseals(frames, start, cur, i);
          todo := todo + [remaining - {i}];
          frames, cur := step.value.0, step.value.1;
          remaining := cur.children.Keys;
        }
      }
    }

    /**
     * Descends to the first node whose path the prefix is a prefix of. On success the path and that
     * node, and whether there is one; on failure how far it came.
     */
    method DescendToPrefix(start: Node, prefix: Path)
      returns (ok: bool, found: bool, frames: seq<Frame>, cur: Node)
      modifies store`materializeCalls, store`replaced
      ensures OnlyUnsealed(start, Plug(frames, cur)) && Linked(frames)
      ensures Seals(Plug(frames, cur)) + Record() == Seals(start) + old(Record())
      ensures ok ==> found == Reaches(start, prefix)
      ensures ok && found ==> Unwound(frames, Gone) == Cut(start, prefix) && cur == Reached(start, prefix)
      ensures ok && found ==> UnwoundCalls(frames, Gone) == CutCalls(start, prefix)
      ensures Calls(store.materializeFails, old(store.materializeCalls), store.materializeCalls, Descents(start, prefix), !ok)
      ensures store.Failures() == old(store.Failures()) + One(!ok)
    {
      frames, cur := [], start;
      var rest := prefix;
      UnsealedRefl(cur);
      while true
        invariant Cutting(start, prefix, frames, cur, rest)
        invariant Descending(store.materializeFails, old(store.materializeCalls), store.materializeCalls,
                             start, prefix, cur, rest)
        invariant Seals(Plug(frames, cur)) + Record() == Seals(start) + old(Record())
        invariant store.Failures() == old(store.Failures())
        decreases cur
      {
        SplitMeaning(rest, cur);
        var split := SplitOf(rest, cur);
        ghost var calls := store.materializeCalls;
        if !Descends(cur, rest) {
          DescentEnds(store.materializeFails, old(store.materializeCalls), calls, start, prefix, cur, rest);
        }
        if split.keyNext.None? {
          CutStops(start, prefix, frames, cur, rest);
          return true, true, frames, cur;
        }
        var i := split.keyNext.value;
        if split.above.Some? || i !in cur.children {
          CutStops(start, prefix, frames, cur, rest);
          return true, false, frames, cur;
        }
        DescendCut(start, prefix, frames, cur, rest, i);
        var step := Descend(frames, cur, i);
        DescendCalls(store.materializeFails, old(store.materializeCalls), calls, start, prefix, cur, rest,
                     store.materializeCalls, step.Err?);
        if step.Err? {
          return false, false, frames, cur;
        }
        frames, cur := step.value.0, step.value.1;
        rest := rest[split.sharedLen + 1..];
      }
    }

    /** Removes every key that starts with the prefix. A failure leaves only edges unsealed. */
    method RemovePrefix(prefix: Path) returns (r: Result<()>)
      modifies this`root, store`materializeCalls, store`replaced
      ensures PrefixStep(old(root), prefix, r, root)
      ensures Calls(store.materializeFails, old(store.materializeCalls), store.materializeCalls, PrefixCalls(old(root), prefix), r.Err?)
      ensures store.Failures() == old(store.Failures()) + One(r.Err?)
      ensures Accounted() == old(Accounted())
    {
      if root.None? {
        return Ok(());
      }
      var ok, found, frames, cur := DescendToPrefix(root.value, prefix);
      if ok && found {
        ok := RemoveTop(frames, cur);
      } else {
        root := Some(Plug(frames, cur));
      }
      return if ok then Ok(()) else Err;
    }

    /** The whole subtree at the end of the path leaves, after all of it has been materialized. */
    method RemoveTop(frames: seq<Frame>, cur: Node) returns (ok: bool)
      requires root.Some? && Linked(frames) && OnlyUnsealed(root.value, Plug(frames, cur))
      modifies this`root, store`materializeCalls, store`replaced
      ensures ok ==> root == RootOf(Unwound(frames, Gone))
      ensures !ok ==> OnlyUnsealedRoot(old(root), root)
      ensures Calls(store.materializeFails, old(store.materializeCalls), store.materializeCalls,
                    Size(cur) - 1 + UnwoundCalls(frames, Gone), !ok)
      ensures store.Failures() == old(store.Failures()) + One(!ok)
      ensures RootSeals(root) + Record() == Seals(Plug(frames, cur)) + old(Record())
    {
      var subtree;
      ok, subtree := MaterializeSubtree(cur);
      ghost var calls := store.materializeCalls;
      SubtreeUnseals(root.value, frames, cur, subtree, Record() - old(Record()));
      if !ok {
        root := Some(Plug(frames, subtree));
        return;
      }
      SealsNone(subtree);
      var after, detached;
      ok, after, detached := UnwindRemove(frames, subtree);
      CallsThen(store.materializeFails, old(store.materializeCalls), calls, store.materializeCalls,
                Size(cur) - 1, UnwoundCalls(frames, Gone), !ok);
      root := after;
    }

    /** Turns every edge of the trie inline, as a change of hasher asks for. */
    method MaterializeAll() returns (r: Result<()>)
      modifies this`root, store`materializeCalls, store`replaced
      ensures InlineStep(old(root), r, root)
      ensures Calls(store.materializeFails, old(store.materializeCalls), store.materializeCalls, InlineCalls(old(root)), r.Err?)
      ensures store.Failures() == old(store.Failures()) + One(r.Err?)
      ensures Accounted() == old(Accounted())
    {
      if root.None? {
        return Ok(());
      }
      var ok, after := MaterializeSubtree(root.value);
      root := Some(after);
      return if ok then Ok(()) else Err;
    }

    /**
     * Hashes the trie, sealing every inline edge. Only a sensitive scheme has the store read, and
     * only edges sealed by hand have it replace anything.
     */
    method Hash(h: Hasher, ghost byHand: bool) returns (r: Result<Digest>)
      requires root.Some? && Lawful(h) && Sound(h, root.value, [], byHand)
      modifies this`root, store
      ensures HashStep(h, old(root), r, root, byHand)
      ensures r.Ok? ==> HashedTrie(h, old(root).value, root.value)
      ensures r.Ok? ==> AllSealed(root.value) && r.value == NodeHash(h, root.value, [], 0)
      ensures store.Failures() == old(store.Failures()) + One(r.Err?)
      ensures store.Spent(old(store.readCalls), HashLookups(h, old(root)),
                          old(store.materializeCalls), HashUnseals(h, old(root)), r.Err?)
      ensures !byHand ==> Record() == old(Record()) && store.materializeCalls == old(store.materializeCalls)
      ensures HashWalk.NeverSensitive(h) ==> r.Ok? && unchanged(store`readCalls, store`materializeCalls, store`replaced)
    {
      var node;
      r, node := HashWalk.Hash(root.value, store, h, byHand);
      root := Some(node);
    }
  }
}
