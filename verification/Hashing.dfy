/** The hash scheme, the from-scratch hash, and the sealed-edge invariant. */
module Hashing {
  import opened Wrappers
  import opened Paths
  import opened Nodes

  datatype HashInput = HashInput(
    leading: Path, partial: Path, value: Option<Value>, siblings: nat, children: map<Index, Digest>)

  /**
   * An arbitrary scheme. The children's hashes are a map because the walk always presents them
   * ascending by index, so the sequence it presents is determined by the map.
   */
  datatype Hasher = Hasher(
    hashNode: HashInput -> Digest,
    sensitive: (Path, Path) -> bool,
    update: (Path, Path, map<Index, Digest>, Value) -> Value)

  /** The only dependency on siblings a scheme may have: only child or not, and only where it says so. */
  ghost predicate RespectsSiblings(h: Hasher) {
    (forall a: HashInput, s: nat :: a.siblings >= 2 && s >= 2 ==>
       h.hashNode(a.(siblings := s)) == h.hashNode(a)) &&
    (forall l: Path, p: Path, i: Index, a: HashInput, s: nat ::
       !h.sensitive(l, p) && a.leading == l + p + [i] && a.siblings >= 1 && s >= 1 ==>
       h.hashNode(a.(siblings := s)) == h.hashNode(a))
  }

  /** Rewriting a value twice, at one position and over the same child hashes, is rewriting it once. */
  ghost predicate IdempotentUpdate(h: Hasher) {
    forall l: Path, p: Path, ch: map<Index, Digest>, v: Value ::
      h.update(l, p, ch, h.update(l, p, ch, v)) == h.update(l, p, ch, v)
  }

  ghost predicate Lawful(h: Hasher) {
    RespectsSiblings(h) && IdempotentUpdate(h)
  }

  /** The default: values are never rewritten. */
  ghost predicate NeverRewrites(h: Hasher) {
    forall l: Path, p: Path, ch: map<Index, Digest>, v: Value :: h.update(l, p, ch, v) == v
  }

  /** The path to the slot of the child at `i` of a node whose own slot is at `lead`. */
  function Slot(lead: Path, n: Node, i: Index): Path {
    lead + n.path + [i]
  }

  // ----- the reference: hashing from scratch, with no cached hash consulted

  ghost function ScratchHash(h: Hasher, n: Node, lead: Path, siblings: nat): Digest
    decreases n, 1
  {
    var ch := ScratchChildren(h, n, lead);
    h.hashNode(HashInput(lead, n.path, NewValue(h, n, lead, ch), siblings, ch))
  }

  ghost function ScratchChildren(h: Hasher, n: Node, lead: Path): map<Index, Digest>
    decreases n, 0
  {
    map i | i in n.children ::
      ScratchHash(h, n.children[i].node, Slot(lead, n, i), |n.children|)
  }

  /** The value a node is hashed with: rewritten from its children's hashes. */
  ghost function NewValue(h: Hasher, n: Node, lead: Path, ch: map<Index, Digest>): Option<Value> {
    if n.value.None? then None else Some(h.update(lead, n.path, ch, n.value.value))
  }

  /** The trie a completed walk leaves: every value rewritten, every edge sealed with its true hash. */
  ghost function SealAll(h: Hasher, n: Node, lead: Path): Node
    decreases n, 1
  {
    Node(n.path, NewValue(h, n, lead, ScratchChildren(h, n, lead)), SealedChildren(h, n, lead))
  }

  ghost function SealedChildren(h: Hasher, n: Node, lead: Path): map<Index, Edge>
    decreases n, 0
  {
    map i | i in n.children ::
      Edge(SealAll(h, n.children[i].node, Slot(lead, n, i)),
           Some(ScratchHash(h, n.children[i].node, Slot(lead, n, i), |n.children|)))
  }

  /** Nothing under `n` is left to do: every edge is sealed with its true hash, every value settled. */
  ghost predicate Done(h: Hasher, n: Node, lead: Path) {
    SealAll(h, n, lead) == n
  }

  // ----- the sealed-edge invariant

  ghost function SealedKids(n: Node): set<Index> {
    set i | i in n.children && n.children[i].hash.Some?
  }

  /** The forms a sealed edge may be in: hashed as an only child, or hashed among peers. */
  ghost predicate LoneForm(h: Hasher, e: Edge, slot: Path) {
    e.hash == Some(ScratchHash(h, e.node, slot, 1))
  }

  ghost predicate PeersForm(h: Hasher, e: Edge, slot: Path) {
    e.hash == Some(ScratchHash(h, e.node, slot, 2))
  }

  /** A sealed edge that may be trusted up to its form. */
  ghost predicate Trusted(h: Hasher, e: Edge, slot: Path) {
    Done(h, e.node, slot) && (LoneForm(h, e, slot) || PeersForm(h, e, slot))
  }

  /**
   * A sealed edge the walk does not trust: the only sealed child of a sensitive parent, with an
   * inline child of its own. No operation produces one; a trie assembled by hand may hold one.
   */
  ghost predicate HandSealed(h: Hasher, n: Node, lead: Path, i: Index)
    requires i in n.children
  {
    SealedKids(n) == {i} && h.sensitive(lead, n.path) &&
    exists j :: j in n.children[i].node.children && n.children[i].node.children[j].hash.None?
  }

  /**
   * The sealed-edge invariant at and below `n`. Every sealed edge is trusted, and two or more
   * sealed siblings are all in peers form. With `byHand`, hand-sealed edges are allowed too.
   */
  ghost predicate Sound(h: Hasher, n: Node, lead: Path, byHand: bool)
    decreases n
  {
    forall i :: i in n.children ==>
      var e, slot := n.children[i], Slot(lead, n, i);
      if e.hash.None? then Sound(h, e.node, slot, byHand)
      else if byHand && HandSealed(h, n, lead, i) then Sound(h, e.node, slot, byHand)
      else Trusted(h, e, slot) && (|SealedKids(n)| >= 2 ==> PeersForm(h, e, slot))
  }

  ghost predicate SoundRoot(h: Hasher, root: Root) {
    root.Some? ==> Sound(h, root.value, [], false)
  }

  // ----- laws of the reference

  ghost predicate AllSealed(n: Node) {
    forall i :: i in n.children ==> n.children[i].hash.Some?
  }

  ghost function SealedHashes(n: Node): map<Index, Digest>
    requires AllSealed(n)
  {
    map i | i in n.children :: n.children[i].hash.value
  }

  /** What the scheme makes of a node whose edges all carry a hash, as it stands. */
  ghost function NodeHash(h: Hasher, n: Node, lead: Path, siblings: nat): Digest
    requires AllSealed(n)
  {
    h.hashNode(HashInput(lead, n.path, n.value, siblings, SealedHashes(n)))
  }

  /** A node's hash is a function of its sealed copy alone. */
  lemma HashOfSealed(h: Hasher, n: Node, lead: Path, siblings: nat)
    ensures var s := SealAll(h, n, lead);
            AllSealed(s) && SealedHashes(s) == ScratchChildren(h, n, lead) &&
            ScratchHash(h, n, lead, siblings) == NodeHash(h, s, lead, siblings)
  {
    assert SealedHashes(SealAll(h, n, lead)) == ScratchChildren(h, n, lead);
  }

  /** A value as hashing leaves it: rewritten from the hashes of the node's children. */
  ghost function Updated(h: Hasher, lead: Path, now: Node, v: Option<Value>): Option<Value>
    requires AllSealed(now)
  {
    if v.None? then None else Some(h.update(lead, now.path, SealedHashes(now), v.value))
  }

  /**
   * What hashing makes of the node in the slot `lead`: a value rewritten once, and on each edge the
   * hash the scheme gives the child that is there now.
   */
  ghost predicate HashedNode(h: Hasher, lead: Path, was: Node, now: Node) {
    now.path == was.path && now.children.Keys == was.children.Keys && AllSealed(now) &&
    now.value == Updated(h, lead, now, was.value) &&
    forall i :: i in now.children ==>
      var c := now.children[i].node;
      AllSealed(c) && now.children[i].hash == Some(NodeHash(h, c, Slot(lead, now, i), |now.children|))
  }

  /** One node found at `key`, before and after hashing; `lead` is the slot of the node looked in. */
  ghost predicate HashedAt(h: Hasher, lead: Path, was: Node, now: Node, key: Path) {
    var a, b := FindNode(was, key), FindNode(now, key);
    (a.None? <==> b.None?) &&
    (a.Some? && b.Some? ==>
       |b.value.path| <= |key| && HashedNode(h, lead + key[..|key| - |b.value.path|], a.value, b.value))
  }

  /** Every node of the trie has been hashed, and nothing else has changed. */
  ghost predicate HashedTrie(h: Hasher, was: Node, now: Node) {
    forall key: Path :: HashedAt(h, [], was, now, key)
  }

  /** The sealed copy is the trie with every node hashed. */
  lemma {:induction false} SealHashes(h: Hasher, n: Node, lead: Path, key: Path)
    ensures HashedAt(h, lead, n, SealAll(h, n, lead), key)
    decreases n
  {
    SealedKidsKeys(h, n, lead);
    if key == n.path {
      assert lead + key[..0] == lead;
      SealHashesNode(h, n, lead);
    } else if Descends(n, key) {
      var i := key[|n.path|];
      SealHashes(h, n.children[i].node, Slot(lead, n, i), After(n, key));
      SealedKidAt(h, n, lead, i);
      HashedBelow(h, n, SealAll(h, n, lead), lead, key);
    }
  }

  /** What is found through a child is what the child finds. */
  lemma HashedBelow(h: Hasher, was: Node, now: Node, lead: Path, key: Path)
    requires Descends(was, key) && Descends(now, key) && now.path == was.path
    requires HashedAt(h, Slot(lead, was, key[|was.path|]), Next(was, key), Next(now, key), After(was, key))
    ensures HashedAt(h, lead, was, now, key)
  {
    var i, rest := key[|was.path|], After(was, key);
    var found := FindNode(Next(now, key), rest);
    if found.Some? {
      var l := |rest| - |found.value.path|;
      SplitKey(was, key);
      assert key[..|key| - |found.value.path|] == was.path + [i] + rest[..l];
      assert Slot(lead, was, i) + rest[..l] == lead + (was.path + [i] + rest[..l]);
    }
  }

  lemma SealHashesNode(h: Hasher, n: Node, lead: Path)
    ensures HashedNode(h, lead, n, SealAll(h, n, lead))
  {
    var s := SealAll(h, n, lead);
    SealedKidsKeys(h, n, lead);
    HashOfSealed(h, n, lead, 0);
    CountOfKeys(s.children, n.children);
    forall i | i in s.children
      ensures var c := s.children[i].node;
              AllSealed(c) && s.children[i].hash == Some(NodeHash(h, c, Slot(lead, s, i), |s.children|)) {
      SealedKidAt(h, n, lead, i);
      HashOfSealed(h, n.children[i].node, Slot(lead, n, i), |n.children|);
    }
  }

  /** The sealed copy of a whole trie, and its root hash, in terms of what is found in it. */
  lemma SealHashesTrie(h: Hasher, n: Node)
    ensures var s := SealAll(h, n, []);
            HashedTrie(h, n, s) && AllSealed(s) && ScratchHash(h, n, [], 0) == NodeHash(h, s, [], 0)
  {
    HashOfSealed(h, n, [], 0);
    forall key: Path ensures HashedAt(h, [], n, SealAll(h, n, []), key) {
      SealHashes(h, n, [], key);
    }
  }

  /** The value `v` of `key` has become `v'`: rewritten once, at its node, from the hashes then beneath it. */
  ghost predicate RewrittenAt(h: Hasher, now: Node, key: Path, v: Value, v': Value) {
    FindNode(now, key).Some? &&
    var b := FindNode(now, key).value;
    AllSealed(b) && |b.path| <= |key| &&
    v' == h.update(key[..|key| - |b.path|], b.path, SealedHashes(b), v)
  }

  lemma HashedKey(h: Hasher, was: Node, now: Node, key: Path)
    requires HashedAt(h, [], was, now, key)
    ensures Find(was, key).Some? <==> Find(now, key).Some?
    ensures Find(was, key).Some? ==> RewrittenAt(h, now, key, Find(was, key).value, Find(now, key).value)
  {
    if FindNode(now, key).Some? {
      var l := |key| - |FindNode(now, key).value.path|;
      assert [] + key[..l] == key[..l];
    }
  }

  /** Hashing keeps the keys and rewrites each value. */
  lemma HashedContents(h: Hasher, was: Node, now: Node)
    requires HashedTrie(h, was, now)
    ensures var m, m' := Contents(Some(was)), Contents(Some(now));
            m'.Keys == m.Keys && forall key :: key in m ==> RewrittenAt(h, now, key, m[key], m'[key])
  {
    var m, m' := Contents(Some(was)), Contents(Some(now));
    forall key: Path
      ensures key in m <==> key in m'
      ensures key in m ==> RewrittenAt(h, now, key, m[key], m'[key]) {
      ContentsAt(Some(was), key);
      ContentsAt(Some(now), key);
      assert HashedAt(h, [], was, now, key);
      HashedKey(h, was, now, key);
    }
  }

  /** Equal sealed copies mean equal hashes. */
  lemma SameSealSameHash(h: Hasher, a: Node, b: Node, lead: Path, siblings: nat)
    requires SealAll(h, a, lead) == SealAll(h, b, lead)
    ensures ScratchHash(h, a, lead, siblings) == ScratchHash(h, b, lead, siblings)
  {
    HashOfSealed(h, a, lead, siblings);
    HashOfSealed(h, b, lead, siblings);
  }

  ghost predicate SameSealedKids(h: Hasher, a: Node, b: Node, lead: Path) {
    a.path == b.path && a.children.Keys == b.children.Keys &&
    forall i :: i in a.children ==>
      SealAll(h, a.children[i].node, Slot(lead, a, i)) == SealAll(h, b.children[i].node, Slot(lead, b, i))
  }

  lemma CountOfKeys(a: map<Index, Edge>, b: map<Index, Edge>)
    requires a.Keys == b.Keys
    ensures |a| == |b|
  {
    assert |a| == |a.Keys| && |b| == |b.Keys|;
  }

  lemma SealedKidAt(h: Hasher, n: Node, lead: Path, i: Index)
    requires i in n.children
    ensures i in ScratchChildren(h, n, lead) && i in SealedChildren(h, n, lead)
    ensures ScratchChildren(h, n, lead)[i]
         == ScratchHash(h, n.children[i].node, Slot(lead, n, i), |n.children|)
    ensures SealedChildren(h, n, lead)[i]
         == Edge(SealAll(h, n.children[i].node, Slot(lead, n, i)),
                 Some(ScratchHash(h, n.children[i].node, Slot(lead, n, i), |n.children|)))
  {}

  lemma SealedKidsKeys(h: Hasher, n: Node, lead: Path)
    ensures ScratchChildren(h, n, lead).Keys == n.children.Keys
    ensures SealedChildren(h, n, lead).Keys == n.children.Keys
  {}

  lemma SealedKidCongruence(h: Hasher, a: Node, b: Node, lead: Path, i: Index)
    requires SameSealedKids(h, a, b, lead) && i in a.children
    ensures i in ScratchChildren(h, a, lead) && i in ScratchChildren(h, b, lead)
    ensures i in SealedChildren(h, a, lead) && i in SealedChildren(h, b, lead)
    ensures ScratchChildren(h, a, lead)[i] == ScratchChildren(h, b, lead)[i]
    ensures SealedChildren(h, a, lead)[i] == SealedChildren(h, b, lead)[i]
  {
    CountOfKeys(a.children, b.children);
    SealedKidAt(h, a, lead, i);
    SealedKidAt(h, b, lead, i);
    SameSealSameHash(h, a.children[i].node, b.children[i].node, Slot(lead, a, i), |a.children|);
  }

  lemma MapsEqual<V>(a: map<Index, V>, b: map<Index, V>)
    requires a.Keys == b.Keys && forall i :: i in a ==> a[i] == b[i]
    ensures a == b
  {}

  lemma SealedKidsCongruence(h: Hasher, a: Node, b: Node, lead: Path)
    requires SameSealedKids(h, a, b, lead)
    ensures ScratchChildren(h, a, lead) == ScratchChildren(h, b, lead)
    ensures SealedChildren(h, a, lead) == SealedChildren(h, b, lead)
  {
    var ha, hb := ScratchChildren(h, a, lead), ScratchChildren(h, b, lead);
    var ea, eb := SealedChildren(h, a, lead), SealedChildren(h, b, lead);
    SealedKidsKeys(h, a, lead);
    SealedKidsKeys(h, b, lead);
    forall i | i in a.children ensures ha[i] == hb[i] && ea[i] == eb[i] {
      SealedKidCongruence(h, a, b, lead, i);
    }
    MapsEqual(ha, hb);
    MapsEqual(ea, eb);
  }

  /** Nodes that agree on path, value and the sealed copies of their children have equal sealed copies. */
  lemma SealCongruence(h: Hasher, a: Node, b: Node, lead: Path)
    requires SameSealedKids(h, a, b, lead) && a.value == b.value
    ensures SealAll(h, a, lead) == SealAll(h, b, lead)
  {
    SealedKidsCongruence(h, a, b, lead);
  }

  /** The reference consults no seal: tries of one shape have one sealed copy. */
  lemma {:induction false} SealIgnoresSeals(h: Hasher, a: Node, b: Node, lead: Path)
    requires Erase(a) == Erase(b)
    ensures SealAll(h, a, lead) == SealAll(h, b, lead)
    decreases a
  {
    EraseParts(a, b);
    forall i | i in a.children
      ensures SealAll(h, a.children[i].node, Slot(lead, a, i))
           == SealAll(h, b.children[i].node, Slot(lead, b, i)) {
      SealIgnoresSeals(h, a.children[i].node, b.children[i].node, Slot(lead, a, i));
    }
    SealCongruence(h, a, b, lead);
  }

  /** Sealing what is already sealed changes nothing, because value rewriting is idempotent. */
  lemma {:induction false} SealTwice(h: Hasher, n: Node, lead: Path)
    requires IdempotentUpdate(h)
    ensures Done(h, SealAll(h, n, lead), lead)
    decreases n
  {
    var s := SealAll(h, n, lead);
    SealedKidsKeys(h, n, lead);
    forall i | i in n.children
      ensures SealAll(h, s.children[i].node, Slot(lead, s, i))
           == SealAll(h, n.children[i].node, Slot(lead, n, i)) {
      SealedKidAt(h, n, lead, i);
      SealTwice(h, n.children[i].node, Slot(lead, n, i));
    }
    SealedKidsCongruence(h, s, n, lead);
    SealedValueTwice(h, n, lead);
  }

  lemma SealedValueTwice(h: Hasher, n: Node, lead: Path)
    requires IdempotentUpdate(h)
    requires ScratchChildren(h, SealAll(h, n, lead), lead) == ScratchChildren(h, n, lead)
    ensures SealAll(h, SealAll(h, n, lead), lead).value == SealAll(h, n, lead).value
  {}

  /** Without rewriting, sealing changes nothing but seals. */
  lemma {:induction false} SealKeepsShape(h: Hasher, n: Node, lead: Path)
    requires NeverRewrites(h)
    ensures Erase(SealAll(h, n, lead)) == Erase(n)
    decreases n
  {
    var s := SealAll(h, n, lead);
    SealedKidsKeys(h, n, lead);
    ErasedChild(s);
    ErasedChild(n);
    forall i | i in n.children
      ensures Erase(s.children[i].node) == Erase(n.children[i].node) {
      SealedKidAt(h, n, lead, i);
      SealKeepsShape(h, n.children[i].node, Slot(lead, n, i));
    }
    MapsEqual(Erase(s).children, Erase(n).children);
  }

  // ----- forms

  /** Any two sibling counts above one give one hash; an insensitive parent makes them all one. */
  lemma SameForm(h: Hasher, n: Node, lead: Path, s: nat, t: nat)
    requires RespectsSiblings(h) && s >= 2 && t >= 2
    ensures ScratchHash(h, n, lead, s) == ScratchHash(h, n, lead, t)
  {
    var ch := ScratchChildren(h, n, lead);
    var a := HashInput(lead, n.path, NewValue(h, n, lead, ch), s, ch);
    assert h.hashNode(a.(siblings := t)) == h.hashNode(a);
  }

  lemma InsensitiveForm(h: Hasher, n: Node, lead: Path, i: Index, s: nat, t: nat)
    requires RespectsSiblings(h) && i in n.children && !h.sensitive(lead, n.path) && s >= 1 && t >= 1
    ensures ScratchHash(h, n.children[i].node, Slot(lead, n, i), s)
         == ScratchHash(h, n.children[i].node, Slot(lead, n, i), t)
  {
    var c, slot := n.children[i].node, Slot(lead, n, i);
    var ch := ScratchChildren(h, c, slot);
    var a := HashInput(slot, c.path, NewValue(h, c, slot, ch), s, ch);
    assert a.leading == lead + n.path + [i];
    assert h.hashNode(a.(siblings := t)) == h.hashNode(a);
  }
}
