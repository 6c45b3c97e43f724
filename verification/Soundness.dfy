/** Every mutation keeps the sealed-edge invariant. */
module Soundness {
  import opened Wrappers
  import opened Paths
  import opened Mins
  import opened Nodes
  import opened Hashing
  import Insertion
  import opened Removal

  /** Soundness looks at full paths only: cutting or joining a node's path keeps it. */
  lemma SoundMoved(h: Hasher, a: Node, la: Path, b: Node, lb: Path)
    requires a.children == b.children && la + a.path == lb + b.path && Sound(h, a, la, false)
    ensures Sound(h, b, lb, false)
  {
    assert SealedKids(a) == SealedKids(b);
    forall i | i in b.children ensures Slot(lb, b, i) == Slot(la, a, i) {}
  }

  /** What a completed walk leaves is sound. */
  lemma DoneSound(h: Hasher, n: Node, lead: Path, byHand: bool)
    requires RespectsSiblings(h) && Done(h, n, lead)
    ensures Sound(h, n, lead, byHand)
  {
    var k := |n.children|;
    assert SealedKids(n) == n.children.Keys by {
      forall i | i in n.children ensures n.children[i].hash.Some? {
        SealedKidAt(h, n, lead, i);
      }
    }
    assert |SealedKids(n)| == k;
    forall i | i in n.children
      ensures n.children[i].hash.Some? && Trusted(h, n.children[i], Slot(lead, n, i))
      ensures k >= 2 ==> PeersForm(h, n.children[i], Slot(lead, n, i))
      ensures !HandSealed(h, n, lead, i) {
      DoneChild(h, n, lead, i);
    }
  }

  lemma DoneChild(h: Hasher, n: Node, lead: Path, i: Index)
    requires RespectsSiblings(h) && Done(h, n, lead) && i in n.children
    ensures var e, slot := n.children[i], Slot(lead, n, i);
            e.hash == Some(ScratchHash(h, e.node, slot, |n.children|)) && Trusted(h, e, slot) &&
            (|n.children| >= 2 ==> PeersForm(h, e, slot))
    ensures !HandSealed(h, n, lead, i)
  {
    var e, slot := n.children[i], Slot(lead, n, i);
    SealedKidAt(h, n, lead, i);
    assert e == SealedChildren(h, n, lead)[i];
    SubsetSize({i}, n.children.Keys);
    if |n.children| >= 2 {
      SameForm(h, e.node, slot, |n.children|, 2);
    }
    forall j | j in e.node.children ensures e.node.children[j].hash.Some? {
      SealedKidAt(h, e.node, slot, j);
    }
  }

  /** Whatever an edge's state, the node behind it is sound in its place. */
  lemma ChildSound(h: Hasher, n: Node, lead: Path, i: Index)
    requires RespectsSiblings(h) && Sound(h, n, lead, false) && i in n.children
    ensures Sound(h, n.children[i].node, Slot(lead, n, i), false)
  {
    if n.children[i].hash.Some? {
      DoneSound(h, n.children[i].node, Slot(lead, n, i), false);
    }
  }

  /** Putting a sound node behind an inline edge keeps soundness. */
  lemma AttachSound(h: Hasher, n: Node, lead: Path, i: Index, c: Node)
    requires Sound(h, n, lead, false) && Sound(h, c, Slot(lead, n, i), false)
    ensures Sound(h, n.(children := n.children[i := Inline(c)]), lead, false)
  {
    var m := n.(children := n.children[i := Inline(c)]);
    SubsetSize(SealedKids(m), SealedKids(n));
    forall j | j in m.children ensures Slot(lead, m, j) == Slot(lead, n, j) {}
  }

  lemma DropSound(h: Hasher, n: Node, lead: Path, i: Index)
    requires Sound(h, n, lead, false)
    ensures Sound(h, n.(children := n.children - {i}), lead, false)
  {
    var m := n.(children := n.children - {i});
    SubsetSize(SealedKids(m), SealedKids(n));
    forall j | j in m.children ensures Slot(lead, m, j) == Slot(lead, n, j) {}
  }

  lemma MergedSound(h: Hasher, n: Node, lead: Path, j: Index)
    requires RespectsSiblings(h) && Sound(h, n, lead, false) && j in n.children
    ensures Sound(h, Merged(n, j), lead, false)
  {
    ChildSound(h, n, lead, j);
    var c := n.children[j].node;
    assert Slot(lead, n, j) + c.path == lead + Merged(n, j).path;
    SoundMoved(h, c, Slot(lead, n, j), Merged(n, j), lead);
  }

  lemma SplitSound(h: Hasher, n: Node, lead: Path, key: Path, v: Value)
    requires Sound(h, n, lead, false) && SharedLen(key, n.path) < |n.path|
    ensures Sound(h, Insertion.Inserted(n, key, v), lead, false)
  {
    var o := SharedLen(key, n.path);
    var r := Insertion.Inserted(n, key, v);
    var low := Insertion.Lowered(n, o);
    assert lead + n.path == Slot(lead, r, n.path[o]) + low.path;
    SoundMoved(h, n, lead, low, Slot(lead, r, n.path[o]));
    forall i | i in r.children
      ensures r.children[i].hash.None? && Sound(h, r.children[i].node, Slot(lead, r, i), false) {
      Insertion.SplitChild(n, key, v, i);
    }
  }

  lemma {:induction false} InsertedSound(h: Hasher, n: Node, lead: Path, key: Path, v: Value)
    requires RespectsSiblings(h) && Sound(h, n, lead, false)
    ensures Sound(h, Insertion.Inserted(n, key, v), lead, false)
    decreases n
  {
    var o := SharedLen(key, n.path);
    if o < |n.path| {
      SplitSound(h, n, lead, key, v);
    } else if o == |key| {
      SoundMoved(h, n, lead, n.(value := Some(v)), lead);
    } else {
      var i := key[o];
      var c := Insertion.Inserted(n, key, v).children[i].node;
      if i in n.children {
        ChildSound(h, n, lead, i);
        InsertedSound(h, n.children[i].node, Slot(lead, n, i), key[o + 1..], v);
      }
      AttachSound(h, n, lead, i, c);
    }
  }

  lemma RepairedSound(h: Hasher, n: Node, lead: Path, i: Index, out: Outcome)
    requires RespectsSiblings(h) && Sound(h, n, lead, false) && i in n.children
    requires out.Kept? ==> Sound(h, out.node, Slot(lead, n, i), false)
    ensures var r := Repaired(n, i, out); r.Kept? ==> Sound(h, r.node, lead, false)
  {
    if out.Kept? {
      AttachSound(h, n, lead, i, out.node);
    } else if n.value.Some? || |n.children| >= 3 {
      DropSound(h, n, lead, i);
    } else if |n.children| == 2 {
      SecondChild(n, i);
      MergedSound(h, n, lead, Survivor(n, i));
    }
  }

  lemma {:induction false} RemovedSound(h: Hasher, n: Node, lead: Path, key: Path)
    requires RespectsSiblings(h) && Sound(h, n, lead, false) && Find(n, key).Some?
    ensures var r := Removed(n, key); r.Kept? ==> Sound(h, r.node, lead, false)
    decreases n
  {
    if key == n.path {
      if |n.children| == 1 {
        FirstChild(n);
        MergedSound(h, n, lead, Min(n.children.Keys));
      } else {
        SoundMoved(h, n, lead, n.(value := None), lead);
      }
    } else {
      var i := key[|n.path|];
      ChildSound(h, n, lead, i);
      RemovedSound(h, Next(n, key), Slot(lead, n, i), After(n, key));
      RepairedSound(h, n, lead, i, Removed(Next(n, key), After(n, key)));
    }
  }

  lemma {:induction false} CutSound(h: Hasher, n: Node, lead: Path, prefix: Path)
    requires RespectsSiblings(h) && Sound(h, n, lead, false) && Reaches(n, prefix)
    ensures var r := Cut(n, prefix); r.Kept? ==> Sound(h, r.node, lead, false)
    decreases n
  {
    if !(prefix <= n.path) {
      var i := prefix[|n.path|];
      ChildSound(h, n, lead, i);
      CutSound(h, Next(n, prefix), Slot(lead, n, i), After(n, prefix));
      RepairedSound(h, n, lead, i, Cut(Next(n, prefix), After(n, prefix)));
    }
  }

  /** A failed mutation only unseals, and unsealing from the top down keeps soundness. */
  lemma {:induction false} UnsealedSound(h: Hasher, a: Node, b: Node, lead: Path)
    requires RespectsSiblings(h) && Sound(h, a, lead, false) && OnlyUnsealed(a, b)
    ensures Sound(h, b, lead, false)
    decreases a
  {
    SubsetSize(SealedKids(b), SealedKids(a));
    forall i | i in b.children && a.children[i] != b.children[i]
      ensures Sound(h, b.children[i].node, Slot(lead, b, i), false) {
      ChildSound(h, a, lead, i);
      UnsealedSound(h, a.children[i].node, b.children[i].node, Slot(lead, a, i));
    }
  }

  /** A trie with every edge inline is sound under any scheme, so it may be hashed under a new one. */
  lemma {:induction false} InlineSound(h: Hasher, n: Node, lead: Path, byHand: bool)
    requires AllInline(n)
    ensures Sound(h, n, lead, byHand)
    decreases n
  {
    forall i | i in n.children ensures Sound(h, n.children[i].node, Slot(lead, n, i), byHand) {
      InlineSound(h, n.children[i].node, Slot(lead, n, i), byHand);
    }
  }
}
