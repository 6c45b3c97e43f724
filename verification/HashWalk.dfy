/** The Merkle walk: an iterative post-order that trusts sealed edges and seals inline ones. */
module HashWalk {
  import opened Wrappers
  import opened Paths
  import opened Mins
  import opened Nodes
  import opened Stores
  import opened Frames
  import opened Hashing

  /** Per-frame data of the walk. */
  datatype Extra = Extra(
    indexInParent: Option<Index>, leadingLen: nat, siblings: nat, count: nat, pending: set<Index>)

  /** An edge sealed with exactly the hash its parent needs, over a finished node. */
  ghost predicate Exact(h: Hasher, e: Edge, slot: Path, count: nat) {
    e.hash == Some(ScratchHash(h, e.node, slot, count)) && Done(h, e.node, slot)
  }

  /** A node in mid-walk: pending children inline and sound, the rest, `open` ones aside, exact. */
  ghost predicate Walked(h: Hasher, n: Node, lead: Path, pending: set<Index>, open: set<Index>, byHand: bool) {
    pending <= n.children.Keys &&
    (forall i :: i in pending ==>
       n.children[i].hash.None? && Sound(h, n.children[i].node, Slot(lead, n, i), byHand)) &&
    (forall i :: i in n.children && i !in pending && i !in open ==>
       Exact(h, n.children[i], Slot(lead, n, i), |n.children|))
  }

  /** Hashes a node without looking below its edges; none, if some edge has no hash. */
  function HashSealedNode(h: Hasher, n: Node, lead: Path, siblings: nat): Option<Digest> {
    if exists i | i in n.children :: n.children[i].hash.None? then None
    else Some(h.hashNode(HashInput(lead, n.path, n.value, siblings,
                                   map i | i in n.children :: n.children[i].hash.value)))
  }

  /** On a finished node the cached hashes give the from-scratch hash, for any sibling count. */
  lemma HashSealedIsScratch(h: Hasher, n: Node, lead: Path, siblings: nat)
    requires Done(h, n, lead)
    ensures HashSealedNode(h, n, lead, siblings) == Some(ScratchHash(h, n, lead, siblings))
  {
    HashOfSealed(h, n, lead, siblings);
  }

  lemma SealedKidsBounds(n: Node)
    ensures SealedKids(n) <= n.children.Keys && |SealedKids(n)| <= |n.children|
  {
    SubsetSize(SealedKids(n), n.children.Keys);
  }

  /** Two or more sealed siblings of a sound node need no rehash. */
  lemma PeersExact(h: Hasher, n: Node, lead: Path, byHand: bool, i: Index)
    requires RespectsSiblings(h) && Sound(h, n, lead, byHand) && i in SealedKids(n)
    requires |SealedKids(n)| != 1
    ensures Exact(h, n.children[i], Slot(lead, n, i), |n.children|)
  {
    assert SealedKids(n) != {i};
    SubsetSize({i}, SealedKids(n));
    SealedKidsBounds(n);
    SameForm(h, n.children[i].node, Slot(lead, n, i), 2, |n.children|);
  }

  /** Nor does a lone sealed child of an insensitive parent. */
  lemma InsensitiveExact(h: Hasher, n: Node, lead: Path, byHand: bool, i: Index)
    requires RespectsSiblings(h) && Sound(h, n, lead, byHand) && i in SealedKids(n)
    requires !h.sensitive(lead, n.path)
    ensures Exact(h, n.children[i], Slot(lead, n, i), |n.children|)
  {
    SubsetSize({i}, n.children.Keys);
    InsensitiveForm(h, n, lead, i, 1, |n.children|);
    InsensitiveForm(h, n, lead, i, 2, |n.children|);
  }

  /** What the walk puts on a lone sealed child is exact for the number of siblings it has now. */
  lemma RehashExact(h: Hasher, n: Node, lead: Path, byHand: bool, i: Index, d: Digest)
    requires Sound(h, n, lead, byHand) && i in SealedKids(n)
    requires HashSealedNode(h, n.children[i].node, Slot(lead, n, i), |n.children|) == Some(d)
    ensures Exact(h, Edge(n.children[i].node, Some(d)), Slot(lead, n, i), |n.children|)
  {
    assert !HandSealed(h, n, lead, i);
    HashSealedIsScratch(h, n.children[i].node, Slot(lead, n, i), |n.children|);
  }

  /**
   * A sealed edge over inline children is one sealed by hand; the node behind it is sound, so it can
   * be hashed like any other.
   */
  lemma UnhashableSound(h: Hasher, n: Node, lead: Path, byHand: bool, i: Index)
    requires Sound(h, n, lead, byHand) && i in SealedKids(n)
    requires HashSealedNode(h, n.children[i].node, Slot(lead, n, i), |n.children|) == None
    ensures byHand && Sound(h, n.children[i].node, Slot(lead, n, i), byHand)
  {
    if Done(h, n.children[i].node, Slot(lead, n, i)) {
      HashSealedIsScratch(h, n.children[i].node, Slot(lead, n, i), |n.children|);
    }
  }

  /** Changing one edge's seal leaves the sealed copy alone. */
  lemma ResealKeepsSeal(h: Hasher, n: Node, lead: Path, i: Index, e: Edge)
    requires i in n.children
    requires SealAll(h, e.node, Slot(lead, n, i)) == SealAll(h, n.children[i].node, Slot(lead, n, i))
    ensures SealAll(h, n.(children := n.children[i := e]), lead) == SealAll(h, n, lead)
  {
    var m := n.(children := n.children[i := e]);
    assert m.children.Keys == n.children.Keys;
    assert SameSealedKids(h, m, n, lead);
    SealCongruence(h, m, n, lead);
  }

  /** After the rehash of its only sealed child, or its conversion to pending, a node is ready. */
  lemma ReadyAfterLone(h: Hasher, n: Node, lead: Path, byHand: bool, i: Index, e: Edge)
    requires Sound(h, n, lead, byHand) && SealedKids(n) == {i} && e.node == n.children[i].node
    requires if e.hash.Some? then Exact(h, e, Slot(lead, n, i), |n.children|)
             else Sound(h, e.node, Slot(lead, n, i), byHand)
    ensures var m := n.(children := n.children[i := e]);
            Walked(h, m, lead, if e.hash.Some? then n.children.Keys - {i} else n.children.Keys, {}, byHand) &&
            SealAll(h, m, lead) == SealAll(h, n, lead)
  {
    var m := n.(children := n.children[i := e]);
    assert m.children.Keys == n.children.Keys;
    CountOfKeys(m.children, n.children);
    forall j | j in n.children && j != i
      ensures m.children[j].hash.None? && Sound(h, m.children[j].node, Slot(lead, m, j), byHand) {
      assert j !in SealedKids(n);
    }
    ResealKeepsSeal(h, n, lead, i, e);
  }

  lemma ReadyAtOnce(h: Hasher, n: Node, lead: Path, byHand: bool)
    requires RespectsSiblings(h) && Sound(h, n, lead, byHand)
    requires |SealedKids(n)| == 1 ==> !h.sensitive(lead, n.path)
    ensures Walked(h, n, lead, n.children.Keys - SealedKids(n), {}, byHand)
  {
    forall i | i in SealedKids(n) ensures Exact(h, n.children[i], Slot(lead, n, i), |n.children|) {
      if |SealedKids(n)| == 1 {
        InsensitiveExact(h, n, lead, byHand, i);
      } else {
        PeersExact(h, n, lead, byHand, i);
      }
    }
  }

  /** The same node up to the seals on its edges. */
  ghost predicate SameNodes(a: Node, b: Node) {
    a.path == b.path && a.value == b.value && a.children.Keys == b.children.Keys &&
    forall i :: i in a.children ==> a.children[i].node == b.children[i].node
  }

  /** Half-way through a scan: the children seen so far, parted into inline and sealed. */
  ghost predicate Scanned(n: Node, rest: set<Index>, pending: set<Index>, found: set<Index>) {
    rest !! pending !! found && n.children.Keys == rest + pending + found &&
    (forall j :: j in pending ==> n.children[j].hash.None?) &&
    (forall j :: j in found ==> n.children[j].hash.Some?)
  }

  lemma ScanStep(n: Node, rest: set<Index>, pending: set<Index>, found: set<Index>, i: Index)
    requires Scanned(n, rest, pending, found) && i in rest
    ensures n.children[i].hash.None? ==>
              Scanned(n, rest - {i}, pending + {i}, found) && |pending + {i}| == |pending| + 1
    ensures n.children[i].hash.Some? ==>
              Scanned(n, rest - {i}, pending, found + {i}) && |found + {i}| == |found| + 1
  {}

  lemma ScanEnd(n: Node, pending: set<Index>, found: set<Index>)
    requires Scanned(n, {}, pending, found)
    ensures found == SealedKids(n) && pending == n.children.Keys - found
    ensures |n.children| == |pending| + |found|
  {
    assert n.children.Keys == pending + found;
    assert |n.children| == |n.children.Keys|;
  }

  /** One scan of the children: which are inline, how many are sealed, and the last sealed one. */
  method Scan(n: Node) returns (pending: set<Index>, count: nat, sealed: nat, lastSealed: Option<Index>)
    ensures pending == n.children.Keys - SealedKids(n)
    ensures count == |n.children| && sealed == |SealedKids(n)|
    ensures sealed == 1 ==> lastSealed.Some? && SealedKids(n) == {lastSealed.value}
  {
    pending, count, sealed, lastSealed := {}, 0, 0, None;
    var rest := n.children.Keys;
    ghost var found: set<Index> := {};
    while rest != {}
      invariant Scanned(n, rest, pending, found)
      invariant sealed == |found| && count == |pending| + |found|
      invariant found != {} ==> lastSealed.Some? && lastSealed.value in found
      decreases |rest|
    {
      var i := Min(rest);
      ScanStep(n, rest, pending, found, i);
      count := count + 1;
      if n.children[i].hash.None? {
        pending := pending + {i};
      } else {
        sealed := sealed + 1;
        lastSealed := Some(i);
        found := found + {i};
      }
      rest := rest - {i};
    }
    ScanEnd(n, pending, found);
    if sealed == 1 {
      OnlyElement(found, lastSealed.value);
    }
  }

  predicate Unhashed(n: Node) {
    exists i | i in n.children :: n.children[i].hash.None?
  }

  /** An edge with the hash its node has now, from the hashes cached beneath it; inline if one is missing. */
  method RehashEdge(e: Edge, store: Store, h: Hasher, slot: Path, count: nat) returns (ok: bool, after: Edge)
    modifies store
    ensures store.Failures() == old(store.Failures()) + One(!ok)
    ensures ok ==> after == Edge(e.node, HashSealedNode(h, e.node, slot, count))
    ensures store.Spent(old(store.readCalls), 1, old(store.materializeCalls), if Unhashed(e.node) then 1 else 0, !ok)
    ensures store.materializeCalls == old(store.materializeCalls) ==> store.replaced == old(store.replaced)
  {
    after := e;
    var read := store.Read(e);
    if read.Err? {
      return false, after;
    }
    var rehashed := HashSealedNode(h, read.value, slot, count);
    if rehashed.Some? {
      return true, after.(hash := rehashed);
    }
    var materialized := store.Materialize(e);
    if materialized.Err? {
      return false, after;
    }
    return true, materialized.value;
  }

  /** The rehashed edge is exact, or it was sealed by hand and its node is sound. */
  lemma RehashedEdge(h: Hasher, n: Node, lead: Path, byHand: bool, i: Index)
    requires Sound(h, n, lead, byHand) && i in SealedKids(n)
    ensures var c, slot := n.children[i].node, Slot(lead, n, i);
            var d := HashSealedNode(h, c, slot, |n.children|);
            if d.Some? then !Unhashed(c) && Exact(h, Edge(c, d), slot, |n.children|)
            else Unhashed(c) && byHand && Sound(h, c, slot, byHand)
  {
    var d := HashSealedNode(h, n.children[i].node, Slot(lead, n, i), |n.children|);
    if d.Some? {
      RehashExact(h, n, lead, byHand, i, d.value);
    } else {
      UnhashableSound(h, n, lead, byHand, i);
    }
  }

  /** With that edge in place a node is ready. */
  lemma LoneReady(h: Hasher, n: Node, lead: Path, byHand: bool, i: Index, e: Edge)
    requires Sound(h, n, lead, byHand) && SealedKids(n) == {i} && i in n.children
    requires e == Edge(n.children[i].node, HashSealedNode(h, n.children[i].node, Slot(lead, n, i), |n.children|))
    ensures byHand || !Unhashed(e.node)
    ensures var m := n.(children := n.children[i := e]);
            var pending := n.children.Keys - {i} + if Unhashed(e.node) then {i} else {};
            SameNodes(n, m) && Walked(h, m, lead, pending, {}, byHand) && SealAll(h, m, lead) == SealAll(h, n, lead)
  {
    assert i in SealedKids(n);
    RehashedEdge(h, n, lead, byHand, i);
    ReadyAfterLone(h, n, lead, byHand, i, e);
    assert n.children.Keys - {i} + {i} == n.children.Keys;
  }

  /** Reseals the only sealed child with what its current siblings demand, or unseals it to be walked. */
  method RehashLone(n: Node, store: Store, h: Hasher, lead: Path, i: Index, count: nat, inline: set<Index>,
                    ghost byHand: bool)
    returns (ok: bool, after: Node, pending: set<Index>)
    requires RespectsSiblings(h) && Sound(h, n, lead, byHand) && SealedKids(n) == {i} && count == |n.children|
    requires inline == n.children.Keys - {i} && i in n.children
    modifies store
    ensures store.Failures() == old(store.Failures()) + One(!ok)
    ensures !byHand ==> store.materializeCalls == old(store.materializeCalls)
    ensures store.materializeCalls == old(store.materializeCalls) ==> store.replaced == old(store.replaced)
    ensures ok ==> SameNodes(n, after) && SealAll(h, after, lead) == SealAll(h, n, lead)
    ensures ok ==> Walked(h, after, lead, pending, {}, byHand)
    ensures ok ==> pending == inline + if Unhashed(n.children[i].node) then {i} else {}
    ensures store.Spent(old(store.readCalls), 1,
                        old(store.materializeCalls), if Unhashed(n.children[i].node) then 1 else 0, !ok)
  {
    var slot := lead + n.path + [i];
    LoneReady(h, n, lead, byHand, i, Edge(n.children[i].node, HashSealedNode(h, n.children[i].node, slot, count)));
    var edge;
    ok, edge := RehashEdge(n.children[i], store, h, slot, count);
    after := n.(children := n.children[i := edge]);
    pending := if edge.hash.None? then inline + {i} else inline;
  }

  /**
   * Makes every child pending or exact without changing what the node seals to. It fails exactly
   * when the store does; an insensitive parent has no store call, and only an edge sealed by hand
   * is ever materialized.
   */
  method Prepare(n: Node, store: Store, h: Hasher, buf: Path, indexInParent: Option<Index>,
                 leadingLen: nat, siblings: nat, ghost byHand: bool)
    returns (ok: bool, after: Node, extra: Extra)
    requires leadingLen <= |buf| && RespectsSiblings(h) && Sound(h, n, buf[..leadingLen], byHand)
    modifies store
    ensures store.Failures() == old(store.Failures()) + One(!ok)
    ensures store.materializeCalls == old(store.materializeCalls) ==> store.replaced == old(store.replaced)
    ensures !byHand ==> store.materializeCalls == old(store.materializeCalls) && store.replaced == old(store.replaced)
    ensures !h.sensitive(buf[..leadingLen], n.path) ==> ok && unchanged(store)
    ensures ok ==> SameNodes(n, after) && SealAll(h, after, buf[..leadingLen]) == SealAll(h, n, buf[..leadingLen])
    ensures ok ==> Walked(h, after, buf[..leadingLen], extra.pending, {}, byHand)
    ensures ok ==> extra == Extra(indexInParent, leadingLen, siblings, |n.children|, extra.pending)
    ensures ok ==> extra.pending == Entering(h, n, buf[..leadingLen])
    ensures store.Spent(old(store.readCalls), Rereads(h)(n, buf[..leadingLen]),
                        old(store.materializeCalls), Unseals(h)(n, buf[..leadingLen]), !ok)
  {
    var pending, count, sealed, lastSealed := Scan(n);
    var lead := buf[..leadingLen];
    after := n;
    extra := Extra(indexInParent, leadingLen, siblings, count, pending);
    if sealed != 1 || !h.sensitive(lead, n.path) {
      ReadyAtOnce(h, n, lead, byHand);
      NoCosts(h, n, lead);
      return true, after, extra;
    }
    LoneCosts(h, n, lead, lastSealed.value);
    ok, after, pending := RehashLone(n, store, h, lead, lastSealed.value, count, pending, byHand);
    extra := extra.(pending := pending);
    return ok, after, extra;
  }

  lemma NoCosts(h: Hasher, n: Node, lead: Path)
    requires |SealedKids(n)| != 1 || !h.sensitive(lead, n.path)
    ensures Rereads(h)(n, lead) == 0 && Unseals(h)(n, lead) == 0
    ensures Entering(h, n, lead) == n.children.Keys - SealedKids(n)
  {}

  /** What the only sealed child of a sensitive parent costs, and whether it is entered. */
  lemma LoneCosts(h: Hasher, n: Node, lead: Path, i: Index)
    requires SealedKids(n) == {i} && h.sensitive(lead, n.path)
    ensures i in n.children && Rereads(h)(n, lead) == 1
    ensures Unseals(h)(n, lead) == if Unhashed(n.children[i].node) then 1 else 0
    ensures Entering(h, n, lead) == n.children.Keys - {i} + if Unhashed(n.children[i].node) then {i} else {}
  {
    assert i in SealedKids(n);
    assert HandSealed(h, n, lead, i) <==> Unhashed(n.children[i].node);
    forall j | j in n.children && j != i ensures n.children[j].hash.None? && !HandSealed(h, n, lead, j) {
      assert j !in SealedKids(n) && i in SealedKids(n);
    }
  }

  /** A node whose children are all exact is one rewrite away from finished. */
  lemma FinishIsSeal(h: Hasher, n: Node, lead: Path, siblings: nat, byHand: bool)
    requires Walked(h, n, lead, {}, {}, byHand)
    ensures SealedChildren(h, n, lead) == n.children
    ensures forall i :: i in n.children ==> n.children[i].hash.Some?
    ensures ScratchChildren(h, n, lead) == SealedHashes(n)
  {
    SealedKidsKeys(h, n, lead);
    forall i | i in n.children
      ensures SealedChildren(h, n, lead)[i] == n.children[i]
      ensures n.children[i].hash.Some? && ScratchChildren(h, n, lead)[i] == n.children[i].hash.value {
      SealedKidAt(h, n, lead, i);
      assert Exact(h, n.children[i], Slot(lead, n, i), |n.children|);
    }
    MapsEqual(SealedChildren(h, n, lead), n.children);
    MapsEqual(ScratchChildren(h, n, lead), SealedHashes(n));
  }

  /** With every child exact, the node turns into its fully sealed copy and yields its from-scratch hash. */
  method FinishNode(n: Node, h: Hasher, lead: Path, siblings: nat, ghost byHand: bool)
    returns (d: Digest, after: Node)
    requires Walked(h, n, lead, {}, {}, byHand)
    ensures after == SealAll(h, n, lead) && d == ScratchHash(h, n, lead, siblings)
    ensures AllSealed(after) && after == n.(value := Updated(h, lead, after, n.value))
    ensures d == NodeHash(h, after, lead, siblings)
  {
    FinishIsSeal(h, n, lead, siblings, byHand);
    var hashes := map i | i in n.children :: n.children[i].hash.value;
    after := n;
    if n.value.Some? {
      after := n.(value := Some(h.update(lead, n.path, hashes, n.value.value)));
    }
    d := h.hashNode(HashInput(lead, after.path, after.value, siblings, hashes));
  }

  // ----- the walk's invariant

  /** The state of the walk: each ancestor left through one open child, the top node in hand. */
  ghost predicate Walking(h: Hasher, path: seq<Frame>, node: Node, extras: seq<Extra>,
                          leads: seq<Path>, byHand: bool) {
    var m := |path|;
    |extras| == |leads| == m + 1 &&
    leads[0] == [] && extras[0].indexInParent == None && extras[0].siblings == 0 &&
    (forall k :: 0 <= k <= m ==> extras[k].leadingLen == |leads[k]|) &&
    (forall k :: 0 <= k < m ==> Stepped(h, path[k], extras[k], leads[k], extras[k + 1], leads[k + 1], byHand)) &&
    Walked(h, node, leads[m], extras[m].pending, {}, byHand) && extras[m].count == |node.children|
  }

  /** One ancestor and the frame above it. */
  ghost predicate Stepped(h: Hasher, f: Frame, x: Extra, lead: Path, above: Extra, next: Path, byHand: bool) {
    f.at in f.node.children && f.at !in x.pending && x.count == |f.node.children| &&
    Walked(h, f.node, lead, x.pending, {f.at}, byHand) &&
    next == Slot(lead, f.node, f.at) && above.indexInParent == Some(f.at) && above.siblings == x.count
  }

  /** The path seen as slots only: each lead is the slot its parent frame was left through. */
  ghost predicate Led(path: seq<Frame>, leads: seq<Path>) {
    |leads| == |path| + 1 && leads[0] == [] &&
    forall k :: 0 <= k < |path| ==>
      path[k].at in path[k].node.children && leads[k + 1] == Slot(leads[k], path[k].node, path[k].at)
  }

  lemma WalkingLed(h: Hasher, path: seq<Frame>, node: Node, extras: seq<Extra>, leads: seq<Path>, byHand: bool)
    requires Walking(h, path, node, extras, leads, byHand)
    ensures Led(path, leads)
  {
    forall k | 0 <= k < |path|
      ensures path[k].at in path[k].node.children && leads[k + 1] == Slot(leads[k], path[k].node, path[k].at) {
      assert Stepped(h, path[k], extras[k], leads[k], extras[k + 1], leads[k + 1], byHand);
    }
  }

  // ----- what the walk costs: summed over the nodes it enters

  /** The children the walk enters: the inline ones, and one sealed by hand. */
  ghost function Entering(h: Hasher, n: Node, lead: Path): (s: set<Index>)
    ensures s <= n.children.Keys
  {
    set i | i in n.children && (n.children[i].hash.None? || HandSealed(h, n, lead, i))
  }

  /** The cost of the nodes entered from `n` on, itself included. */
  ghost function Tally(h: Hasher, cost: (Node, Path) -> nat, n: Node, lead: Path): nat
    decreases n, 1, 0
  {
    cost(n, lead) + TallyOver(h, cost, n, lead, Entering(h, n, lead))
  }

  ghost function TallyOver(h: Hasher, cost: (Node, Path) -> nat, n: Node, lead: Path, s: set<Index>): nat
    requires s <= n.children.Keys
    decreases n, 0, |s|
  {
    if s == {} then 0 else
      var i := Min(s);
      Tally(h, cost, n.children[i].node, Slot(lead, n, i)) + TallyOver(h, cost, n, lead, s - {i})
  }

  /** A node is read for its only sealed child, where the scheme is sensitive to siblings. */
  ghost function Rereads(h: Hasher): (Node, Path) -> nat {
    (n: Node, lead: Path) => if |SealedKids(n)| == 1 && h.sensitive(lead, n.path) then 1 else 0
  }

  /** That child is materialized if it was sealed by hand. */
  ghost function Unseals(h: Hasher): (Node, Path) -> nat {
    (n: Node, lead: Path) => if exists i :: i in n.children && HandSealed(h, n, lead, i) then 1 else 0
  }

  ghost function Entries(): (Node, Path) -> nat {
    (n: Node, lead: Path) => 1
  }

  lemma {:induction false} TallyOverLocal(h: Hasher, cost: (Node, Path) -> nat, a: Node, b: Node, lead: Path,
                                          s: set<Index>)
    requires s <= a.children.Keys && s <= b.children.Keys && a.path == b.path
    requires forall i :: i in s ==> a.children[i].node == b.children[i].node
    ensures TallyOver(h, cost, a, lead, s) == TallyOver(h, cost, b, lead, s)
    decreases |s|
  {
    if s != {} {
      var i := Min(s);
      assert Slot(lead, a, i) == Slot(lead, b, i);
      TallyOverLocal(h, cost, a, b, lead, s - {i});
    }
  }

  /** Only what is sealed by hand is ever materialized. */
  lemma {:induction false} SoundUnseals(h: Hasher, n: Node, lead: Path)
    requires Sound(h, n, lead, false)
    ensures Tally(h, Unseals(h), n, lead) == 0
    decreases n, 1, 0
  {
    forall i | i in n.children ensures !HandSealed(h, n, lead, i) {
      SoundTrusted(h, n, lead, i);
    }
    SoundUnsealsOver(h, n, lead, Entering(h, n, lead));
  }

  lemma SoundTrusted(h: Hasher, n: Node, lead: Path, i: Index)
    requires Sound(h, n, lead, false) && i in n.children
    ensures !HandSealed(h, n, lead, i)
  {
    if i in SealedKids(n) {
      HashSealedIsScratch(h, n.children[i].node, Slot(lead, n, i), 0);
    }
  }

  lemma {:induction false} SoundUnsealsOver(h: Hasher, n: Node, lead: Path, s: set<Index>)
    requires Sound(h, n, lead, false) && s <= n.children.Keys
    requires forall i :: i in s ==> n.children[i].hash.None?
    ensures TallyOver(h, Unseals(h), n, lead, s) == 0
    decreases n, 0, |s|
  {
    if s != {} {
      var i := Min(s);
      SoundUnseals(h, n.children[i].node, Slot(lead, n, i));
      SoundUnsealsOver(h, n, lead, s - {i});
    }
  }

  ghost function Backlog(h: Hasher, cost: (Node, Path) -> nat, path: seq<Frame>, extras: seq<Extra>,
                         leads: seq<Path>): nat
    requires |path| <= |extras| && |path| <= |leads|
    decreases |path|
  {
    if path == [] then 0 else
      var last := |path| - 1;
      Unentered(h, cost, path[last].node, leads[last], extras[last].pending) +
      Backlog(h, cost, path[..last], extras, leads)
  }

  /** The cost still to come beneath `n`, through the children in `s`. */
  ghost function Unentered(h: Hasher, cost: (Node, Path) -> nat, n: Node, lead: Path, s: set<Index>): nat {
    TallyOver(h, cost, n, lead, s * n.children.Keys)
  }

  /** The cost of the nodes the walk has still to enter. */
  ghost function Left(h: Hasher, cost: (Node, Path) -> nat, path: seq<Frame>, node: Node, extras: seq<Extra>,
                      leads: seq<Path>): nat
    requires |extras| == |leads| == |path| + 1
  {
    Unentered(h, cost, node, leads[|path|], extras[|path|].pending) + Backlog(h, cost, path, extras, leads)
  }

  /** The walk's termination measure. */
  ghost function Work(h: Hasher, path: seq<Frame>, node: Node, extras: seq<Extra>, leads: seq<Path>): nat
    requires |extras| == |leads| == |path| + 1
  {
    2 * Left(h, Entries(), path, node, extras, leads) + |path|
  }

  lemma {:induction false} BacklogLocal(h: Hasher, cost: (Node, Path) -> nat, path: seq<Frame>,
                                        a: seq<Extra>, b: seq<Extra>, c: seq<Path>, d: seq<Path>)
    requires |path| <= |a| && |path| <= |b| && |path| <= |c| && |path| <= |d|
    requires forall k :: 0 <= k < |path| ==> a[k] == b[k] && c[k] == d[k]
    ensures Backlog(h, cost, path, a, c) == Backlog(h, cost, path, b, d)
    decreases |path|
  {
    if path != [] {
      BacklogLocal(h, cost, path[..|path| - 1], a, b, c, d);
    }
  }

  /** Calls up to `r` and `m`, none of which failed, are those of the nodes entered so far. */
  ghost predicate Counted(h: Hasher, store: Store, r0: nat, r: nat, m0: nat, m: nat, start: Node, path: seq<Frame>,
                          node: Node, extras: seq<Extra>, leads: seq<Path>)
    requires |extras| == |leads| == |path| + 1
  {
    r0 <= r && NoneFails(store.readFails, r0, r) && m0 <= m && NoneFails(store.materializeFails, m0, m) &&
    r + Left(h, Rereads(h), path, node, extras, leads) == r0 + Tally(h, Rereads(h), start, []) &&
    m + Left(h, Unseals(h), path, node, extras, leads) == m0 + Tally(h, Unseals(h), start, [])
  }

  lemma {:induction false} WalkedAttach(h: Hasher, f: Frame, lead: Path, pending: set<Index>, c: Node, byHand: bool)
    requires Walked(h, f.node, lead, pending, {f.at}, byHand) && f.at in f.node.children
    requires Sound(h, c, Slot(lead, f.node, f.at), byHand)
    ensures Walked(h, Attach(f, c), lead, pending + {f.at}, {}, byHand)
  {
    var m := Attach(f, c);
    assert m.children.Keys == f.node.children.Keys;
    CountOfKeys(m.children, f.node.children);
  }

  /** A node in mid-walk is sound: what is sealed is exact, what is not is sound. */
  lemma {:induction false} WalkedSound(h: Hasher, n: Node, lead: Path, pending: set<Index>, byHand: bool)
    requires RespectsSiblings(h) && Walked(h, n, lead, pending, {}, byHand)
    ensures Sound(h, n, lead, byHand)
  {
    SealedKidsBounds(n);
    forall i | i in n.children && i !in pending
      ensures n.children[i].hash.Some? && Trusted(h, n.children[i], Slot(lead, n, i))
      ensures |SealedKids(n)| >= 2 ==> PeersForm(h, n.children[i], Slot(lead, n, i))
      ensures !HandSealed(h, n, lead, i) {
      ExactTrusted(h, n, lead, i);
    }
  }

  lemma {:induction false} ExactTrusted(h: Hasher, n: Node, lead: Path, i: Index)
    requires RespectsSiblings(h) && i in n.children
    requires Exact(h, n.children[i], Slot(lead, n, i), |n.children|)
    ensures Trusted(h, n.children[i], Slot(lead, n, i))
    ensures |SealedKids(n)| >= 2 ==> PeersForm(h, n.children[i], Slot(lead, n, i))
    ensures !HandSealed(h, n, lead, i)
  {
    var e, slot := n.children[i], Slot(lead, n, i);
    SubsetSize({i}, n.children.Keys);
    SealedKidsBounds(n);
    if |n.children| >= 2 {
      SameForm(h, e.node, slot, |n.children|, 2);
    }
    forall j | j in e.node.children ensures e.node.children[j].hash.Some? {
      SealedKidAt(h, e.node, slot, j);
    }
  }

  lemma SteppedAbove(h: Hasher, f: Frame, x: Extra, lead: Path, a: Extra, b: Extra, next: Path, byHand: bool)
    requires Stepped(h, f, x, lead, a, next, byHand)
    requires a.indexInParent == b.indexInParent && a.siblings == b.siblings
    ensures Stepped(h, f, x, lead, b, next, byHand)
  {}

  /** A parent whose open child may be filled with any sound node. */
  ghost predicate Hole(h: Hasher, f: Frame, lead: Path, byHand: bool) {
    f.at in f.node.children &&
    exists pending: set<Index> :: Walked(h, f.node, lead, pending, {f.at}, byHand)
  }

  lemma FillHole(h: Hasher, f: Frame, lead: Path, c: Node, byHand: bool)
    requires RespectsSiblings(h) && Hole(h, f, lead, byHand) && Sound(h, c, Slot(lead, f.node, f.at), byHand)
    ensures Sound(h, Attach(f, c), lead, byHand)
  {
    var pending: set<Index> :| Walked(h, f.node, lead, pending, {f.at}, byHand);
    WalkedAttach(h, f, lead, pending, c, byHand);
    WalkedSound(h, Attach(f, c), lead, pending + {f.at}, byHand);
  }

  lemma {:induction false} PlugSound(h: Hasher, path: seq<Frame>, leads: seq<Path>, node: Node, byHand: bool)
    requires RespectsSiblings(h) && Led(path, leads) && Sound(h, node, leads[|path|], byHand)
    requires forall k :: 0 <= k < |path| ==> Hole(h, path[k], leads[k], byHand)
    ensures Sound(h, Plug(path, node), [], byHand)
    decreases |path|
  {
    if path != [] {
      var last := |path| - 1;
      LedBelow(path, leads);
      FillHole(h, path[last], leads[last], node, byHand);
      PlugSound(h, path[..last], leads[..last + 1], Attach(path[last], node), byHand);
    }
  }

  /** Wherever the walk stops, the whole trie is sound. */
  lemma {:induction false} WalkingSound(h: Hasher, path: seq<Frame>, node: Node, extras: seq<Extra>,
                                        leads: seq<Path>, byHand: bool)
    requires RespectsSiblings(h) && Walking(h, path, node, extras, leads, byHand)
    ensures Sound(h, Plug(path, node), [], byHand)
  {
    WalkingLed(h, path, node, extras, leads, byHand);
    WalkedSound(h, node, leads[|path|], extras[|path|].pending, byHand);
    forall k | 0 <= k < |path| ensures Hole(h, path[k], leads[k], byHand) {
      assert Stepped(h, path[k], extras[k], leads[k], extras[k + 1], leads[k + 1], byHand);
    }
    PlugSound(h, path, leads, node, byHand);
  }

  lemma LedBelow(path: seq<Frame>, leads: seq<Path>)
    requires Led(path, leads) && path != []
    ensures var m := |path|;
            Led(path[..m - 1], leads[..m]) && path[m - 1].at in path[m - 1].node.children &&
            leads[m] == Slot(leads[m - 1], path[m - 1].node, path[m - 1].at)
  {}

  /** A change at the end of the path that keeps its sealed copy keeps the whole sealed copy. */
  lemma {:induction false} PlugSeal(h: Hasher, path: seq<Frame>, leads: seq<Path>, a: Node, b: Node)
    requires Led(path, leads) && SealAll(h, a, leads[|path|]) == SealAll(h, b, leads[|path|])
    ensures SealAll(h, Plug(path, a), []) == SealAll(h, Plug(path, b), [])
    decreases |path|
  {
    if path != [] {
      var last := |path| - 1;
      LedBelow(path, leads);
      var pa, pb := Attach(path[last], a), Attach(path[last], b);
      LeaveSeal(h, path[last], a, leads[last], Inline(b));
      PlugSeal(h, path[..last], leads[..last + 1], pa, pb);
    }
  }

  lemma {:induction false} EnterStep(h: Hasher, node: Node, x: Extra, lead: Path, i: Index, above: Extra, byHand: bool)
    requires Walked(h, node, lead, x.pending, {}, byHand) && i in x.pending && x.count == |node.children|
    requires above.indexInParent == Some(i) && above.siblings == x.count
    ensures Stepped(h, Frame(node, i), x.(pending := x.pending - {i}), lead, above, Slot(lead, node, i), byHand)
  {}

  /** Entering a pending child keeps the invariant and shortens the backlog. */
  lemma {:induction false} Enter(h: Hasher, path: seq<Frame>, node: Node, extras: seq<Extra>, leads: seq<Path>,
                                 byHand: bool, i: Index, child: Node, extra: Extra)
    requires Walking(h, path, node, extras, leads, byHand)
    requires i in extras[|path|].pending
    requires Walked(h, child, Slot(leads[|path|], node, i), extra.pending, {}, byHand)
    requires extra == Extra(Some(i), |leads[|path|]| + |node.path| + 1, |node.children|, |child.children|, extra.pending)
    ensures var m := |path|;
            Walking(h, path + [Frame(node, i)], child,
                    extras[..m] + [extras[m].(pending := extras[m].pending - {i}), extra],
                    leads + [Slot(leads[m], node, i)], byHand)
  {
    var m := |path|;
    var path', leads' := path + [Frame(node, i)], leads + [Slot(leads[m], node, i)];
    var extras' := extras[..m] + [extras[m].(pending := extras[m].pending - {i}), extra];
    EnterStep(h, node, extras[m], leads[m], i, extra, byHand);
    forall k | 0 <= k < m + 1
      ensures Stepped(h, path'[k], extras'[k], leads'[k], extras'[k + 1], leads'[k + 1], byHand) {
      if k < m {
        SteppedAbove(h, path[k], extras[k], leads[k], extras[k + 1], extras'[k + 1], leads[k + 1], byHand);
      }
    }
    forall k | 0 <= k <= m + 1 ensures extras'[k].leadingLen == |leads'[k]| {
      assert k <= m ==> extras[k].leadingLen == |leads[k]|;
    }
  }

  /** Entering a child settles its own cost and no other. */
  lemma {:induction false} EnterLeft(h: Hasher, cost: (Node, Path) -> nat, path: seq<Frame>, node: Node,
                                     extras: seq<Extra>, leads: seq<Path>, i: Index, child: Node, extra: Extra)
    requires |extras| == |leads| == |path| + 1
    requires extras[|path|].pending <= node.children.Keys && extras[|path|].pending != {}
    requires i == Min(extras[|path|].pending) && SameNodes(node.children[i].node, child)
    requires extra.pending == Entering(h, node.children[i].node, Slot(leads[|path|], node, i))
    ensures var m, slot := |path|, Slot(leads[|path|], node, i);
            var extras' := extras[..m] + [extras[m].(pending := extras[m].pending - {i}), extra];
            Left(h, cost, path + [Frame(node, i)], child, extras', leads + [slot]) + cost(node.children[i].node, slot)
            == Left(h, cost, path, node, extras, leads)
  {
    var m, slot, pending := |path|, Slot(leads[|path|], node, i), extras[|path|].pending;
    var path', x := path + [Frame(node, i)], extras[m].(pending := pending - {i});
    var extras', leads' := extras[..m] + [x, extra], leads + [slot];
    assert path'[..m] == path;
    BacklogLocal(h, cost, path, extras, extras', leads, leads');
    assert pending * node.children.Keys == pending && (pending - {i}) * node.children.Keys == pending - {i};
    assert extra.pending * child.children.Keys == extra.pending;
    TallyOverLocal(h, cost, node.children[i].node, child, slot, extra.pending);
    assert Unentered(h, cost, child, slot, extra.pending) + cost(node.children[i].node, slot)
        == Tally(h, cost, node.children[i].node, slot);
    assert Backlog(h, cost, path', extras', leads')
        == Unentered(h, cost, node, leads[m], x.pending) + Backlog(h, cost, path, extras', leads');
  }

  lemma CostFits(h: Hasher, cost: (Node, Path) -> nat, path: seq<Frame>, node: Node, extras: seq<Extra>,
                 leads: seq<Path>, i: Index)
    requires |extras| == |leads| == |path| + 1
    requires extras[|path|].pending <= node.children.Keys && extras[|path|].pending != {}
    requires i == Min(extras[|path|].pending)
    ensures cost(node.children[i].node, Slot(leads[|path|], node, i)) <= Left(h, cost, path, node, extras, leads)
  {
    var pending, c, slot := extras[|path|].pending, node.children[i].node, Slot(leads[|path|], node, i);
    assert pending * node.children.Keys == pending;
    assert Tally(h, cost, c, slot) >= cost(c, slot);
  }

  /** A child for which the store failed: the calls made for it, after those made before it. */
  lemma ChildFails(h: Hasher, store: Store, r0: nat, r: nat, m0: nat, m: nat, start: Node, path: seq<Frame>,
                   node: Node, extras: seq<Extra>, leads: seq<Path>, i: Index)
    requires |extras| == |leads| == |path| + 1
    requires extras[|path|].pending <= node.children.Keys && extras[|path|].pending != {}
    requires i == Min(extras[|path|].pending)
    requires Counted(h, store, r0, r, m0, m, start, path, node, extras, leads)
    requires var c, slot := node.children[i].node, Slot(leads[|path|], node, i);
             store.Spent(r, Rereads(h)(c, slot), m, Unseals(h)(c, slot), true)
    ensures store.Spent(r0, Tally(h, Rereads(h), start, []), m0, Tally(h, Unseals(h), start, []), true)
  {
    CostFits(h, Rereads(h), path, node, extras, leads, i);
    CostFits(h, Unseals(h), path, node, extras, leads, i);
  }

  /** A prepared child entered. */
  lemma EnterPending(h: Hasher, store: Store, r0: nat, r: nat, m0: nat, m: nat, start: Node, path: seq<Frame>,
                     node: Node, extras: seq<Extra>, leads: seq<Path>, byHand: bool, i: Index, child: Node, extra: Extra)
    requires StandsFor(h, start, path, node, extras, leads, byHand)
    requires extras[|path|].pending != {} && i == Min(extras[|path|].pending)
    requires Counted(h, store, r0, r, m0, m, start, path, node, extras, leads)
    requires extra == Extra(Some(i), |leads[|path|]| + |node.path| + 1, extras[|path|].count,
                            |node.children[i].node.children|, extra.pending)
    requires var c, slot := node.children[i].node, Slot(leads[|path|], node, i);
             SameNodes(c, child) && extra.pending == Entering(h, c, slot) &&
             Walked(h, child, slot, extra.pending, {}, byHand) && SealAll(h, child, slot) == SealAll(h, c, slot) &&
             store.Spent(r, Rereads(h)(c, slot), m, Unseals(h)(c, slot), false)
    ensures var k, slot := |path|, Slot(leads[|path|], node, i);
            var path', extras' := path + [Frame(node, i)],
                                  extras[..k] + [extras[k].(pending := extras[k].pending - {i}), extra];
            StandsFor(h, start, path', child, extras', leads + [slot], byHand) &&
            Work(h, path', child, extras', leads + [slot]) < Work(h, path, node, extras, leads) &&
            Counted(h, store, r0, store.readCalls, m0, store.materializeCalls, start, path', child, extras', leads + [slot])
  {
    CountOfKeys(node.children[i].node.children, child.children);
    EnterStandsFor(h, start, path, node, extras, leads, byHand, i, child, extra);
    EnterLeft(h, Entries(), path, node, extras, leads, i, child, extra);
    EnterLeft(h, Rereads(h), path, node, extras, leads, i, child, extra);
    EnterLeft(h, Unseals(h), path, node, extras, leads, i, child, extra);
  }

  /** Seals the child at `i` of the parent with its node's hash. */
  function SealChild(parent: Node, i: Index, child: Node, d: Digest): Node {
    parent.(children := parent.children[i := Edge(child, Some(d))])
  }

  /** The parent after its finished child's edge has been sealed. */
  ghost function Sealed(h: Hasher, f: Frame, node: Node, lead: Path, siblings: nat): Node {
    SealChild(f.node, f.at, SealAll(h, node, lead), ScratchHash(h, node, lead, siblings))
  }

  /** Leaving a finished node seals its edge exactly. */
  lemma {:induction false} LeaveExact(h: Hasher, f: Frame, node: Node, x: Extra, parentLead: Path, above: Extra,
                                      lead: Path, byHand: bool)
    requires IdempotentUpdate(h) && Stepped(h, f, x, parentLead, above, lead, byHand)
    ensures var up := Sealed(h, f, node, lead, above.siblings);
            Walked(h, up, parentLead, x.pending, {}, byHand) && |up.children| == x.count
  {
    var up := Sealed(h, f, node, lead, above.siblings);
    var e := up.children[f.at];
    assert up.children.Keys == f.node.children.Keys;
    CountOfKeys(up.children, f.node.children);
    SealTwice(h, node, lead);
    SameSealSameHash(h, node, e.node, lead, x.count);
    LeaveWalked(h, f, x, parentLead, e, byHand);
  }

  /** It does not change the sealed copy. */
  lemma {:induction false} LeaveSame(h: Hasher, f: Frame, node: Node, x: Extra, parentLead: Path, above: Extra,
                                     lead: Path, byHand: bool)
    requires IdempotentUpdate(h) && Stepped(h, f, x, parentLead, above, lead, byHand)
    ensures var up := Sealed(h, f, node, lead, above.siblings);
            SealAll(h, up, parentLead) == SealAll(h, Attach(f, node), parentLead)
  {
    var up := Sealed(h, f, node, lead, above.siblings);
    SealTwice(h, node, lead);
    LeaveSeal(h, f, node, parentLead, up.children[f.at]);
  }

  lemma LeaveSeal(h: Hasher, f: Frame, node: Node, lead: Path, e: Edge)
    requires f.at in f.node.children
    requires SealAll(h, e.node, Slot(lead, f.node, f.at)) == SealAll(h, node, Slot(lead, f.node, f.at))
    ensures SealAll(h, f.node.(children := f.node.children[f.at := e]), lead) == SealAll(h, Attach(f, node), lead)
  {
    var pa := Attach(f, node);
    ResealKeepsSeal(h, pa, lead, f.at, e);
    assert pa.children[f.at := e] == f.node.children[f.at := e];
  }

  lemma {:induction false} WalkingPrefix(h: Hasher, path: seq<Frame>, node: Node, extras: seq<Extra>,
                                         leads: seq<Path>, byHand: bool, up: Node)
    requires Walking(h, path, node, extras, leads, byHand) && path != []
    requires Walked(h, up, leads[|path| - 1], extras[|path| - 1].pending, {}, byHand)
    requires |up.children| == extras[|path| - 1].count
    ensures Walking(h, path[..|path| - 1], up, extras[..|path|], leads[..|path|], byHand)
  {
    forall k | 0 <= k < |path| - 1
      ensures Stepped(h, path[k], extras[k], leads[k], extras[k + 1], leads[k + 1], byHand) {}
  }

  lemma {:induction false} LeaveWalking(h: Hasher, path: seq<Frame>, node: Node, extras: seq<Extra>,
                                        leads: seq<Path>, byHand: bool)
    requires IdempotentUpdate(h) && Walking(h, path, node, extras, leads, byHand) && path != []
    ensures var m := |path|;
            Walking(h, path[..m - 1], Sealed(h, path[m - 1], node, leads[m], extras[m].siblings),
                    extras[..m], leads[..m], byHand)
  {
    var m := |path|;
    assert Stepped(h, path[m - 1], extras[m - 1], leads[m - 1], extras[m], leads[m], byHand);
    LeaveExact(h, path[m - 1], node, extras[m - 1], leads[m - 1], extras[m], leads[m], byHand);
    WalkingPrefix(h, path, node, extras, leads, byHand,
                  Sealed(h, path[m - 1], node, leads[m], extras[m].siblings));
  }

  lemma {:induction false} LeaveWalked(h: Hasher, f: Frame, x: Extra, lead: Path, e: Edge, byHand: bool)
    requires f.at in f.node.children && f.at !in x.pending && x.count == |f.node.children|
    requires Walked(h, f.node, lead, x.pending, {f.at}, byHand)
    requires Exact(h, e, Slot(lead, f.node, f.at), x.count)
    ensures Walked(h, f.node.(children := f.node.children[f.at := e]), lead, x.pending, {}, byHand)
  {
    var up := f.node.(children := f.node.children[f.at := e]);
    assert up.children.Keys == f.node.children.Keys;
    CountOfKeys(up.children, f.node.children);
    forall i | i in up.children && i !in x.pending
      ensures Exact(h, up.children[i], Slot(lead, up, i), |up.children|) {
      assert Slot(lead, up, i) == Slot(lead, f.node, i);
      if i != f.at {
        assert up.children[i] == f.node.children[i];
        assert Exact(h, f.node.children[i], Slot(lead, f.node, i), |f.node.children|);
      }
    }
  }

  /** The state of the walk stands for the trie it began with. */
  ghost predicate StandsFor(h: Hasher, start: Node, path: seq<Frame>, node: Node, extras: seq<Extra>,
                            leads: seq<Path>, byHand: bool) {
    Walking(h, path, node, extras, leads, byHand) &&
    SealAll(h, Plug(path, node), []) == SealAll(h, start, [])
  }

  lemma EnterStandsFor(h: Hasher, start: Node, path: seq<Frame>, node: Node, extras: seq<Extra>,
                       leads: seq<Path>, byHand: bool, i: Index, c: Node, extra: Extra)
    requires StandsFor(h, start, path, node, extras, leads, byHand) && i in extras[|path|].pending
    requires Walked(h, c, Slot(leads[|path|], node, i), extra.pending, {}, byHand)
    requires extra == Extra(Some(i), |leads[|path|]| + |node.path| + 1, |node.children|, |c.children|, extra.pending)
    requires SealAll(h, c, Slot(leads[|path|], node, i))
          == SealAll(h, node.children[i].node, Slot(leads[|path|], node, i))
    ensures var m := |path|;
            StandsFor(h, start, path + [Frame(node, i)], c,
                      extras[..m] + [extras[m].(pending := extras[m].pending - {i}), extra],
                      leads + [Slot(leads[m], node, i)], byHand)
  {
    var m := |path|;
    Enter(h, path, node, extras, leads, byHand, i, c, extra);
    WalkingLed(h, path, node, extras, leads, byHand);
    PushSeal(h, path, leads, node, i, c);
  }

  lemma PushSeal(h: Hasher, path: seq<Frame>, leads: seq<Path>, node: Node, i: Index, c: Node)
    requires Led(path, leads) && i in node.children
    requires SealAll(h, c, Slot(leads[|path|], node, i))
          == SealAll(h, node.children[i].node, Slot(leads[|path|], node, i))
    ensures SealAll(h, Plug(path + [Frame(node, i)], c), []) == SealAll(h, Plug(path, node), [])
  {
    ResealKeepsSeal(h, node, leads[|path|], i, Inline(c));
    PlugPush(path, Frame(node, i), c);
    PlugSeal(h, path, leads, Attach(Frame(node, i), c), node);
  }

  lemma {:induction false} LeaveSeals(h: Hasher, path: seq<Frame>, node: Node, extras: seq<Extra>, leads: seq<Path>,
                                      byHand: bool)
    requires IdempotentUpdate(h) && Walking(h, path, node, extras, leads, byHand) && path != []
    ensures var m := |path|;
            SealAll(h, Plug(path[..m - 1], Sealed(h, path[m - 1], node, leads[m], extras[m].siblings)), [])
            == SealAll(h, Plug(path, node), [])
  {
    var m := |path|;
    assert Stepped(h, path[m - 1], extras[m - 1], leads[m - 1], extras[m], leads[m], byHand);
    LeaveSame(h, path[m - 1], node, extras[m - 1], leads[m - 1], extras[m], leads[m], byHand);
    WalkingLed(h, path, node, extras, leads, byHand);
    LedBelow(path, leads);
    PlugSeal(h, path[..m - 1], leads[..m],
             Sealed(h, path[m - 1], node, leads[m], extras[m].siblings), Attach(path[m - 1], node));
  }

  /** Leaving a finished node leaves what is still to come as it was. */
  lemma {:induction false} LeaveLeft(h: Hasher, cost: (Node, Path) -> nat, path: seq<Frame>, node: Node,
                                     extras: seq<Extra>, leads: seq<Path>, byHand: bool)
    requires Walking(h, path, node, extras, leads, byHand) && path != [] && extras[|path|].pending == {}
    ensures var m := |path|;
            Left(h, cost, path[..m - 1], Sealed(h, path[m - 1], node, leads[m], extras[m].siblings), extras[..m], leads[..m])
            == Left(h, cost, path, node, extras, leads)
  {
    var m := |path|;
    var f, pending := path[m - 1], extras[m - 1].pending;
    assert Stepped(h, f, extras[m - 1], leads[m - 1], extras[m], leads[m], byHand);
    var up := Sealed(h, f, node, leads[m], extras[m].siblings);
    assert up.children.Keys == f.node.children.Keys;
    TallyOverLocal(h, cost, up, f.node, leads[m - 1], pending * up.children.Keys);
    BacklogLocal(h, cost, path[..m - 1], extras, extras[..m], leads, leads[..m]);
    assert {} * node.children.Keys == {};
  }

  lemma {:induction false} LeaveStandsFor(h: Hasher, start: Node, path: seq<Frame>, node: Node, extras: seq<Extra>,
                                          leads: seq<Path>, byHand: bool)
    requires IdempotentUpdate(h) && StandsFor(h, start, path, node, extras, leads, byHand) && path != []
    ensures var m := |path|;
            var up := Sealed(h, path[m - 1], node, leads[m], extras[m].siblings);
            StandsFor(h, start, path[..m - 1], up, extras[..m], leads[..m], byHand)
  {
    LeaveWalking(h, path, node, extras, leads, byHand);
    LeaveSeals(h, path, node, extras, leads, byHand);
  }

  /** The scheme never asks for a rehash. */
  ghost predicate NeverSensitive(h: Hasher) {
    forall l: Path, p: Path :: !h.sensitive(l, p)
  }

  /** A scheme that is never sensitive calls for nothing. */
  lemma {:induction false} NeverCosts(h: Hasher, n: Node, lead: Path)
    requires NeverSensitive(h)
    ensures Tally(h, Rereads(h), n, lead) == 0 && Tally(h, Unseals(h), n, lead) == 0
    decreases n, 1, 0
  {
    NoCosts(h, n, lead);
    NeverCostsOver(h, n, lead, Entering(h, n, lead));
  }

  lemma {:induction false} NeverCostsOver(h: Hasher, n: Node, lead: Path, s: set<Index>)
    requires NeverSensitive(h) && s <= n.children.Keys
    ensures TallyOver(h, Rereads(h), n, lead, s) == 0 && TallyOver(h, Unseals(h), n, lead, s) == 0
    decreases n, 0, |s|
  {
    if s != {} {
      var i := Min(s);
      NeverCosts(h, n.children[i].node, Slot(lead, n, i));
      NeverCostsOver(h, n, lead, s - {i});
    }
  }

  /**
   * Hashes the trie under `start`. On success: the from-scratch root hash and the fully sealed
   * trie, whatever mixture of seals the walk began with. On failure: a sound trie with the same
   * sealed copy, so that hashing it again gives what an uninterrupted call gives.
   */
  method Hash(start: Node, store: Store, h: Hasher, ghost byHand: bool)
    returns (r: Result<Digest>, after: Node)
    requires Lawful(h) && Sound(h, start, [], byHand)
    modifies store
    ensures r.Ok? ==> r.value == ScratchHash(h, start, [], 0) && after == SealAll(h, start, [])
    ensures r.Ok? ==> HashedTrie(h, start, after) && AllSealed(after) && r.value == NodeHash(h, after, [], 0)
    ensures r.Err? ==> Sound(h, after, [], byHand) && SealAll(h, after, []) == SealAll(h, start, [])
    ensures store.Failures() == old(store.Failures()) + One(r.Err?)
    ensures !byHand ==> store.materializeCalls == old(store.materializeCalls) && store.replaced == old(store.replaced)
    ensures NeverSensitive(h) ==> r.Ok? && unchanged(store`readCalls, store`materializeCalls, store`replaced)
    ensures store.Spent(old(store.readCalls), Tally(h, Rereads(h), start, []),
                        old(store.materializeCalls), Tally(h, Unseals(h), start, []), r.Err?)
  {
    r, after := Walk(start, store, h, byHand);
    store.SpentFailures(old(store.readCalls), Tally(h, Rereads(h), start, []),
                        old(store.materializeCalls), Tally(h, Unseals(h), start, []), r.Err?);
    if !byHand {
      SoundUnseals(h, start, []);
    }
    if NeverSensitive(h) {
      NeverCosts(h, start, []);
    }
  }

  /** The walk itself: down through what is to be sealed, and back up sealing it. */
  method Walk(start: Node, store: Store, h: Hasher, ghost byHand: bool) returns (r: Result<Digest>, after: Node)
    requires Lawful(h) && Sound(h, start, [], byHand)
    modifies store
    ensures r.Ok? ==> r.value == ScratchHash(h, start, [], 0) && after == SealAll(h, start, [])
    ensures r.Ok? ==> HashedTrie(h, start, after) && AllSealed(after) && r.value == NodeHash(h, after, [], 0)
    ensures r.Err? ==> Sound(h, after, [], byHand) && SealAll(h, after, []) == SealAll(h, start, [])
    ensures store.Spent(old(store.readCalls), Tally(h, Rereads(h), start, []),
                        old(store.materializeCalls), Tally(h, Unseals(h), start, []), r.Err?)
    ensures store.materializeCalls == old(store.materializeCalls) ==> store.replaced == old(store.replaced)
  {
    var ok, node, extra := PrepareRoot(start, store, h, byHand);
    if !ok {
      return Err, start;
    }
    var buf: Path, path: seq<Frame>, extras := [], [], [extra];
    ghost var leads: seq<Path> := [[]];
    var done: Option<Result<Digest>> := None;
    while done.None?
      invariant done.None? ==> Underway(h, store, old(store.readCalls), old(store.materializeCalls), start, path, node,
                                        extras, leads, buf, byHand)
      invariant done.Some? ==> Ended(h, store, old(store.readCalls), old(store.materializeCalls), start, done.value, node,
                                     byHand)
      invariant store.materializeCalls == old(store.materializeCalls) ==> store.replaced == old(store.replaced)
      decreases done.None?, if done.None? then Work(h, path, node, extras, leads) else 0
    {
      done, path, node, extras, buf, leads := Turn(start, path, node, extras, buf, leads, store, h,
        old(store.readCalls), old(store.materializeCalls), byHand);
    }
    r, after := done.value, node;
  }

  /** The walk between two turns. */
  ghost predicate Underway(h: Hasher, store: Store, r0: nat, m0: nat, start: Node, path: seq<Frame>, node: Node,
                           extras: seq<Extra>, leads: seq<Path>, buf: Path, byHand: bool)
    reads store
  {
    StandsFor(h, start, path, node, extras, leads, byHand) && leads[|path|] <= buf &&
    Counted(h, store, r0, store.readCalls, m0, store.materializeCalls, start, path, node, extras, leads)
  }

  /** What the walk leaves. */
  ghost predicate Ended(h: Hasher, store: Store, r0: nat, m0: nat, start: Node, r: Result<Digest>, after: Node,
                        byHand: bool)
    reads store
  {
    store.Spent(r0, Tally(h, Rereads(h), start, []), m0, Tally(h, Unseals(h), start, []), r.Err?) &&
    match r
    case Ok(d) =>
      d == ScratchHash(h, start, [], 0) && after == SealAll(h, start, []) &&
      HashedTrie(h, start, after) && AllSealed(after) && d == NodeHash(h, after, [], 0)
    case Err => Sound(h, after, [], byHand) && SealAll(h, after, []) == SealAll(h, start, [])
  }

  /** One turn of the walk: into a pending child, or out of a finished node. */
  method Turn(ghost start: Node, path: seq<Frame>, node: Node, extras: seq<Extra>, buf: Path, ghost leads: seq<Path>,
              store: Store, h: Hasher, ghost r0: nat, ghost m0: nat, ghost byHand: bool)
    returns (done: Option<Result<Digest>>, path': seq<Frame>, node': Node, extras': seq<Extra>, buf': Path,
             ghost leads': seq<Path>)
    requires Lawful(h) && Underway(h, store, r0, m0, start, path, node, extras, leads, buf, byHand)
    modifies store
    ensures done.None? ==> Underway(h, store, r0, m0, start, path', node', extras', leads', buf', byHand)
    ensures done.None? ==> Work(h, path', node', extras', leads') < Work(h, path, node, extras, leads)
    ensures done.Some? ==> Ended(h, store, r0, m0, start, done.value, node', byHand)
    ensures store.materializeCalls == old(store.materializeCalls) ==> store.replaced == old(store.replaced)
    ensures store.materializeCalls >= old(store.materializeCalls)
  {
    TopFrame(h, path, node, extras, leads, byHand);
    var extra, ok := extras[|path|], false;
    buf' := buf[..extra.leadingLen];
    assert buf' == leads[|path|];
    if extra.pending != {} {
      ok, path', node', extras', buf', leads' := PushPendingChild(start, path, node, extras, buf', leads, store, h, r0, m0, byHand);
      if !ok {
        node' := Plug(path, node);
        WalkingSound(h, path, node, extras, leads, byHand);
        return Some(Err), path', node', extras', buf', leads';
      }
    } else {
      var d;
      ok, d, path', node', extras', leads' := FinishTop(start, path, node, extras, leads, buf', store, h, r0, m0, byHand);
      if ok {
        return Some(Ok(d)), path', node', extras', buf', leads';
      }
    }
    done := None;
  }

  /** Hashes the top node, whose children are all sealed; unless it was the root, seals it in its parent. */
  method FinishTop(ghost start: Node, path: seq<Frame>, node: Node, extras: seq<Extra>, ghost leads: seq<Path>,
                   buf: Path, ghost store: Store, h: Hasher, ghost r0: nat, ghost m0: nat, ghost byHand: bool)
    returns (done: bool, d: Digest, path': seq<Frame>, node': Node, extras': seq<Extra>, ghost leads': seq<Path>)
    requires Lawful(h) && StandsFor(h, start, path, node, extras, leads, byHand)
    requires buf == leads[|path|] && extras[|path|].pending == {}
    requires Counted(h, store, r0, store.readCalls, m0, store.materializeCalls, start, path, node, extras, leads)
    ensures done ==> d == ScratchHash(h, start, [], 0) && node' == SealAll(h, start, [])
    ensures done ==> HashedTrie(h, start, node') && AllSealed(node') && d == NodeHash(h, node', [], 0)
    ensures !done ==> StandsFor(h, start, path', node', extras', leads', byHand) && leads'[|path'|] <= buf
    ensures !done ==> Work(h, path', node', extras', leads') < Work(h, path, node, extras, leads)
    ensures if done then store.Spent(r0, Tally(h, Rereads(h), start, []), m0, Tally(h, Unseals(h), start, []), false)
            else
              Counted(h, store, r0, store.readCalls, m0, store.materializeCalls, start, path', node', extras', leads')
  {
    TopFrame(h, path, node, extras, leads, byHand);
    var extra := extras[|path|];
    var finished;
    d, finished := FinishNode(node, h, buf, extra.siblings, byHand);
    if extra.indexInParent.None? {
      RootFrame(h, start, path, node, extras, leads, byHand);
      NothingLeft(h, Rereads(h), node, extras, leads);
      NothingLeft(h, Unseals(h), node, extras, leads);
      SealHashesTrie(h, start);
      return true, d, path, finished, extras, leads;
    }
    done := false;
    path', node', extras', leads' := Pop(start, path, node, extras, leads, finished, d, h, byHand);
  }

  lemma NothingLeft(h: Hasher, cost: (Node, Path) -> nat, node: Node, extras: seq<Extra>, leads: seq<Path>)
    requires |extras| == |leads| == 1 && extras[0].pending == {}
    ensures Left(h, cost, [], node, extras, leads) == 0
  {
    assert {} * node.children.Keys == {};
  }

  /** The root's frame: an empty leading path and no siblings. */
  method PrepareRoot(start: Node, store: Store, h: Hasher, ghost byHand: bool)
    returns (ok: bool, node: Node, extra: Extra)
    requires Lawful(h) && Sound(h, start, [], byHand)
    modifies store
    ensures ok ==> StandsFor(h, start, [], node, [extra], [[]], byHand)
    ensures store.materializeCalls == old(store.materializeCalls) ==> store.replaced == old(store.replaced)
    ensures if ok then
              Counted(h, store, old(store.readCalls), store.readCalls,
                      old(store.materializeCalls), store.materializeCalls, start, [], node, [extra], [[]])
            else
              store.Spent(old(store.readCalls), Tally(h, Rereads(h), start, []),
                          old(store.materializeCalls), Tally(h, Unseals(h), start, []), true)
  {
    var buf: Path := [];
    assert buf[..0] == buf;
    ok, node, extra := Prepare(start, store, h, buf, None, 0, 0, byHand);
    if ok {
      CountOfKeys(start.children, node.children);
      BeginLeft(h, Rereads(h), start, node, extra);
      BeginLeft(h, Unseals(h), start, node, extra);
    }
  }

  lemma BeginLeft(h: Hasher, cost: (Node, Path) -> nat, start: Node, node: Node, extra: Extra)
    requires SameNodes(start, node) && extra.pending == Entering(h, start, [])
    ensures Left(h, cost, [], node, [extra], [[]]) + cost(start, []) == Tally(h, cost, start, [])
  {
    assert extra.pending * node.children.Keys == extra.pending;
    TallyOverLocal(h, cost, start, node, [], extra.pending);
  }

  lemma TopFrame(h: Hasher, path: seq<Frame>, node: Node, extras: seq<Extra>, leads: seq<Path>, byHand: bool)
    requires Walking(h, path, node, extras, leads, byHand)
    ensures extras[|path|].leadingLen == |leads[|path|]|
    ensures Walked(h, node, leads[|path|], extras[|path|].pending, {}, byHand)
  {}

  /** Pops the finished top node and seals its edge in the parent. */
  method Pop(ghost start: Node, path: seq<Frame>, node: Node, extras: seq<Extra>, ghost leads: seq<Path>,
             finished: Node, d: Digest, h: Hasher, ghost byHand: bool)
    returns (path': seq<Frame>, node': Node, extras': seq<Extra>, ghost leads': seq<Path>)
    requires Lawful(h) && StandsFor(h, start, path, node, extras, leads, byHand)
    requires extras[|path|].indexInParent.Some? && extras[|path|].pending == {}
    requires finished == SealAll(h, node, leads[|path|])
    requires d == ScratchHash(h, node, leads[|path|], extras[|path|].siblings)
    ensures StandsFor(h, start, path', node', extras', leads', byHand)
    ensures |path'| < |path|
    ensures forall cost: (Node, Path) -> nat ::
      Left(h, cost, path', node', extras', leads') == Left(h, cost, path, node, extras, leads)
    ensures leads'[|path'|] <= leads[|path|]
  {
    ParentFrame(h, path, node, extras, leads, byHand);
    LeaveStandsFor(h, start, path, node, extras, leads, byHand);
    forall cost: (Node, Path) -> nat
      ensures Left(h, cost, path[..|path| - 1],
                   Sealed(h, path[|path| - 1], node, leads[|path|], extras[|path|].siblings),
                   extras[..|path|], leads[..|path|])
           == Left(h, cost, path, node, extras, leads) {
      LeaveLeft(h, cost, path, node, extras, leads, byHand);
    }
    WalkingLed(h, path, node, extras, leads, byHand);
    LedBelow(path, leads);
    var last := |path| - 1;
    node' := SealChild(path[last].node, extras[|path|].indexInParent.value, finished, d);
    path', extras', leads' := path[..last], extras[..last + 1], leads[..last + 1];
  }

  /** Prepares a child for the slot in the buffer. */
  method PrepareChild(child: Node, store: Store, h: Hasher, slot: Path, i: Index, siblings: nat, ghost byHand: bool)
    returns (ok: bool, after: Node, extra: Extra)
    requires RespectsSiblings(h) && Sound(h, child, slot, byHand)
    modifies store
    ensures store.materializeCalls == old(store.materializeCalls) ==> store.replaced == old(store.replaced)
    ensures store.Spent(old(store.readCalls), Rereads(h)(child, slot),
                        old(store.materializeCalls), Unseals(h)(child, slot), !ok)
    ensures ok ==> SameNodes(child, after) && SealAll(h, after, slot) == SealAll(h, child, slot)
    ensures ok ==> Walked(h, after, slot, extra.pending, {}, byHand) && extra.pending == Entering(h, child, slot)
    ensures ok ==> extra == Extra(Some(i), |slot|, siblings, |child.children|, extra.pending)
  {
    assert slot[..|slot|] == slot;
    ok, after, extra := Prepare(child, store, h, slot, Some(i), |slot|, siblings, byHand);
  }

  /** Pushes the first pending child of the top node, prepared; a failure leaves the walk where it was. */
  method PushPendingChild(ghost start: Node, path: seq<Frame>, node: Node, extras: seq<Extra>, buf: Path,
                          ghost leads: seq<Path>, store: Store, h: Hasher, ghost r0: nat, ghost m0: nat,
                          ghost byHand: bool)
    returns (ok: bool, path': seq<Frame>, node': Node, extras': seq<Extra>, buf': Path, ghost leads': seq<Path>)
    requires Lawful(h) && StandsFor(h, start, path, node, extras, leads, byHand)
    requires buf == leads[|path|] && extras[|path|].pending != {}
    requires Counted(h, store, r0, store.readCalls, m0, store.materializeCalls, start, path, node, extras, leads)
    modifies store
    ensures !ok ==> path' == path && node' == node && extras' == extras && leads' == leads
    ensures ok ==> StandsFor(h, start, path', node', extras', leads', byHand)
    ensures ok ==> leads'[|path'|] == buf' && Work(h, path', node', extras', leads') < Work(h, path, node, extras, leads)
    ensures if ok then
              Counted(h, store, r0, store.readCalls, m0, store.materializeCalls, start, path', node', extras', leads')
            else store.Spent(r0, Tally(h, Rereads(h), start, []), m0, Tally(h, Unseals(h), start, []), true)
    ensures store.materializeCalls >= old(store.materializeCalls)
    ensures store.materializeCalls == old(store.materializeCalls) ==> store.replaced == old(store.replaced)
  {
    TopFrame(h, path, node, extras, leads, byHand);
    var m := |path|;
    var top := extras[m];
    var i := Min(top.pending);
    buf' := buf + node.path + [i];
    path', node', extras', leads' := path, node, extras, leads;
    assert buf' == Slot(leads[m], node, i);
    var prepared, above;
    ok, prepared, above := PrepareChild(node.children[i].node, store, h, buf', i, top.count, byHand);
    if !ok {
      ChildFails(h, store, r0, old(store.readCalls), m0, old(store.materializeCalls), start, path, node, extras, leads, i);
    } else {
      EnterPending(h, store, r0, old(store.readCalls), m0, old(store.materializeCalls), start, path, node, extras, leads,
                   byHand, i, prepared, above);
      path', node' := path + [Frame(node, i)], prepared;
      extras' := extras[..m] + [top.(pending := top.pending - {i}), above];
      leads' := leads + [buf'];
    }
  }

  /** Only the root frame has no index in a parent, so what finishes there is the whole trie. */
  lemma RootFrame(h: Hasher, start: Node, path: seq<Frame>, node: Node, extras: seq<Extra>, leads: seq<Path>,
                  byHand: bool)
    requires StandsFor(h, start, path, node, extras, leads, byHand) && extras[|path|].indexInParent.None?
    ensures SealAll(h, node, leads[|path|]) == SealAll(h, start, [])
    ensures ScratchHash(h, node, leads[|path|], extras[|path|].siblings) == ScratchHash(h, start, [], 0)
    ensures path == []
  {
    var m := |path|;
    assert m > 0 ==> Stepped(h, path[m - 1], extras[m - 1], leads[m - 1], extras[m], leads[m], byHand);
    SameSealSameHash(h, node, start, [], 0);
  }

  lemma ParentFrame(h: Hasher, path: seq<Frame>, node: Node, extras: seq<Extra>, leads: seq<Path>, byHand: bool)
    requires Walking(h, path, node, extras, leads, byHand) && extras[|path|].indexInParent.Some?
    ensures path != [] && extras[|path|].indexInParent.value == path[|path| - 1].at
    ensures path[|path| - 1].at in path[|path| - 1].node.children
  {
    var m := |path|;
    assert m > 0 ==> Stepped(h, path[m - 1], extras[m - 1], leads[m - 1], extras[m], leads[m], byHand);
  }
}
