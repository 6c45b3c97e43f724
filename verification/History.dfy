/** Whole runs: the trie simulates a map, and its root hash depends on that map alone. */
module History {
  import opened Wrappers
  import opened Paths
  import opened Nodes
  import opened Insertion
  import opened Removal
  import opened Canonical
  import opened Hashing
  import opened Soundness
  import opened Steps

  datatype Op =
    | Insert(key: Path, v: Value)
    | Remove(key: Path)
    | RemovePrefix(prefix: Path)
    | Hash
    | SwitchTo(next: Hasher)

  datatype Reply =
    | Inserted(displaced: Result<Option<Value>>)
    | Removed(taken: Result<Option<Value>>)
    | PrefixRemoved(done: Result<()>)
    | Hashed(digest: Result<Digest>)
    | Switched(done: Result<()>)

  /** Changing the hasher is turning every edge inline; until that succeeds the old one stays in force. */
  function InForce(h: Hasher, op: Op, reply: Reply): Hasher {
    if op.SwitchTo? && reply.Switched? && reply.done.Ok? then op.next else h
  }

  /** One operation of a run, under the hasher in force, failed ones included. */
  ghost predicate Step(h: Hasher, before: Root, op: Op, reply: Reply, after: Root) {
    match op
    case Insert(key, v) => reply.Inserted? && InsertStep(before, key, v, reply.displaced, after)
    case Remove(key) => reply.Removed? && RemoveStep(before, key, reply.taken, after)
    case RemovePrefix(prefix) => reply.PrefixRemoved? && PrefixStep(before, prefix, reply.done, after)
    case Hash => reply.Hashed? && HashStep(h, before, reply.digest, after, false)
    case SwitchTo(_) => reply.Switched? && InlineStep(before, reply.done, after)
  }

  /** What every reachable trie is: settled, with a sound sealed edge everywhere. */
  ghost predicate Good(h: Hasher, root: Root) {
    SettledRoot(root) && SoundRoot(h, root)
  }

  // ----- the abstract machine: a map from paths to values

  /** The root hash of a map: that of a freshly built trie, computed from scratch. */
  ghost function RootHash(h: Hasher, m: map<Path, Value>): Digest
    requires m != map[]
  {
    ScratchHash(h, FreshBuild(m).value, [], 0)
  }

  /** The map after hashing: every value rewritten as a freshly built trie would rewrite it. */
  ghost function Rewritten(h: Hasher, m: map<Path, Value>): map<Path, Value>
    requires m != map[]
  {
    Contents(Some(SealAll(h, FreshBuild(m).value, [])))
  }

  ghost function Look(m: map<Path, Value>, key: Path): Option<Value> {
    if key in m then Some(m[key]) else None
  }

  ghost predicate MapStep(h: Hasher, m: map<Path, Value>, op: Op, reply: Reply, m': map<Path, Value>) {
    match (op, reply)
    case (Insert(key, v), Inserted(r)) => if r.Err? then m' == m else m' == m[key := v] && r.value == Look(m, key)
    case (Remove(key), Removed(r)) => if r.Err? then m' == m else m' == m - {key} && r.value == Look(m, key)
    case (RemovePrefix(prefix), PrefixRemoved(r)) => if r.Err? then m' == m else m' == Outside(m, prefix)
    case (Hash, Hashed(r)) =>
      m != map[] && m' != map[] &&
      (if r.Ok? then r.value == RootHash(h, m) && m' == Rewritten(h, m)
       else RootHash(h, m') == RootHash(h, m) && Rewritten(h, m') == Rewritten(h, m)) &&
      (NeverRewrites(h) ==> m' == m)
    case (SwitchTo(_), Switched(_)) => m' == m
    case (_, _) => false
  }

  /**
   * Hashing the map `m` into the trie `after` gives `m'` and the digest `d`: the keys are the same,
   * each value is rewritten once, from the cached hashes of its node's children, and the digest is
   * the root's.
   */
  ghost predicate HashedMap(h: Hasher, m: map<Path, Value>, after: Node, m': map<Path, Value>, d: Digest) {
    m' == Contents(Some(after)) && m'.Keys == m.Keys &&
    (forall key :: key in m ==> RewrittenAt(h, after, key, m[key], m'[key])) &&
    AllSealed(after) && d == NodeHash(h, after, [], 0)
  }

  /** The map after hashing, and the root hash, in terms of the nodes of a hashed trie. */
  lemma RewrittenValues(h: Hasher, m: map<Path, Value>) returns (after: Node)
    requires m != map[]
    ensures HashedMap(h, m, after, Rewritten(h, m), RootHash(h, m))
    ensures HashedTrie(h, FreshBuild(m).value, after)
  {
    FreshBuildHolds(m);
    after := SealAll(h, FreshBuild(m).value, []);
    SealedValues(h, FreshBuild(m).value);
  }

  lemma SealedValues(h: Hasher, n: Node)
    ensures var s := SealAll(h, n, []);
            HashedMap(h, Contents(Some(n)), s, Contents(Some(s)), ScratchHash(h, n, [], 0)) && HashedTrie(h, n, s)
  {
    SealHashesTrie(h, n);
    HashedContents(h, n, SealAll(h, n, []));
  }

  lemma ContentsLook(root: Root, key: Path)
    ensures FindAt(root, key) == Look(Contents(root), key)
  {
    ContentsAt(root, key);
  }

  lemma UnsealedKeeps(h: Hasher, before: Root, after: Root)
    requires RespectsSiblings(h) && OnlyUnsealedRoot(before, after)
    ensures Contents(after) == Contents(before)
    ensures Good(h, before) ==> Good(h, after)
  {
    if before.Some? {
      UnsealedErase(before.value, after.value);
      if Good(h, before) {
        EraseSettled(before.value, after.value);
        UnsealedSound(h, before.value, after.value, []);
      }
    }
    EraseContents(before, after);
  }

  lemma InsertSimulates(h: Hasher, before: Root, key: Path, v: Value, r: Result<Option<Value>>, after: Root)
    requires RespectsSiblings(h) && Good(h, before) && InsertStep(before, key, v, r, after)
    ensures Good(h, after) && MapStep(h, Contents(before), Insert(key, v), Inserted(r), Contents(after))
  {
    if r.Err? {
      UnsealedKeeps(h, before, after);
    } else {
      ContentsLook(before, key);
      InsertedContents(before, key, v);
      if before.Some? {
        InsertedSound(h, before.value, [], key, v);
      }
    }
  }

  lemma RemoveSimulates(h: Hasher, before: Root, key: Path, r: Result<Option<Value>>, after: Root)
    requires RespectsSiblings(h) && Good(h, before) && RemoveStep(before, key, r, after)
    ensures Good(h, after) && MapStep(h, Contents(before), Remove(key), Removed(r), Contents(after))
  {
    ContentsLook(before, key);
    if r.Ok? && r.value.Some? {
      RemovedContents(before.value, key);
      RemovedSettled(before.value, key);
      RemovedSound(h, before.value, [], key);
    } else {
      UnsealedKeeps(h, before, after);
      assert r.Ok? ==> Contents(before) - {key} == Contents(before);
    }
  }

  lemma PrefixSimulates(h: Hasher, before: Root, prefix: Path, r: Result<()>, after: Root)
    requires RespectsSiblings(h) && Good(h, before) && PrefixStep(before, prefix, r, after)
    ensures Good(h, after) && MapStep(h, Contents(before), RemovePrefix(prefix), PrefixRemoved(r), Contents(after))
  {
    if before.Some? {
      CutContents(before.value, prefix);
      if Reaches(before.value, prefix) {
        CutSettled(before.value, prefix);
        CutSound(h, before.value, [], prefix);
      }
    } else {
      assert Outside(Contents(before), prefix) == Contents(before);
    }
    if !(r.Ok? && before.Some? && Reaches(before.value, prefix)) {
      UnsealedKeeps(h, before, after);
    }
  }

  /** Sealing keeps which nodes have values and which children they have. */
  lemma {:induction false} SealSettled(h: Hasher, n: Node, lead: Path)
    ensures Settled(SealAll(h, n, lead)) <==> Settled(n)
    decreases n
  {
    var s := SealAll(h, n, lead);
    SealedKidsKeys(h, n, lead);
    CountOfKeys(s.children, n.children);
    forall i | i in n.children
      ensures Settled(s.children[i].node) <==> Settled(n.children[i].node) {
      SealedKidAt(h, n, lead, i);
      SealSettled(h, n.children[i].node, Slot(lead, n, i));
    }
  }

  lemma NonEmpty(n: Node)
    requires Settled(n)
    ensures Contents(Some(n)) != map[]
  {
    SomeKeyFound(n);
    ContentsAt(Some(n), SomeKey(n));
  }

  /** For a settled trie the from-scratch hash and the sealed copy are those of its contents. */
  lemma HashOfContents(h: Hasher, n: Node)
    requires Settled(n)
    ensures var m := Contents(Some(n));
            m != map[] &&
            ScratchHash(h, n, [], 0) == RootHash(h, m) &&
            Contents(Some(SealAll(h, n, []))) == Rewritten(h, m) &&
            SealAll(h, n, []) == SealAll(h, FreshBuild(m).value, [])
  {
    NonEmpty(n);
    var built := FreshBuild(Contents(Some(n)));
    SettledIsFresh(Some(n));
    SealIgnoresSeals(h, n, built.value, []);
    SameSealSameHash(h, n, built.value, [], 0);
  }

  lemma HashKeepsGood(h: Hasher, before: Root, r: Result<Digest>, after: Root)
    requires Lawful(h) && Good(h, before) && HashStep(h, before, r, after, false)
    ensures Good(h, after) && SealAll(h, after.value, []) == SealAll(h, before.value, [])
  {
    var n, n' := before.value, after.value;
    SealSettled(h, n, []);
    SealSettled(h, n', []);
    if r.Ok? {
      SealTwice(h, n, []);
      DoneSound(h, n', [], false);
    }
  }

  lemma HashKeepsContents(h: Hasher, before: Root, r: Result<Digest>, after: Root)
    requires NeverRewrites(h) && before.Some? && after.Some?
    requires SealAll(h, after.value, []) == SealAll(h, before.value, [])
    ensures Contents(after) == Contents(before)
  {
    SealKeepsShape(h, before.value, []);
    SealKeepsShape(h, after.value, []);
    EraseContents(before, after);
  }

  lemma HashSimulates(h: Hasher, before: Root, r: Result<Digest>, after: Root)
    requires Lawful(h) && Good(h, before) && HashStep(h, before, r, after, false)
    ensures Good(h, after) && MapStep(h, Contents(before), Hash, Hashed(r), Contents(after))
  {
    HashKeepsGood(h, before, r, after);
    if NeverRewrites(h) {
      HashKeepsContents(h, before, r, after);
    }
    HashOfContents(h, before.value);
    if r.Err? {
      HashOfSame(h, before.value, after.value);
    } else {
      NonEmpty(after.value);
    }
  }

  /** Two settled tries with one sealed copy have contents that hash and rewrite alike. */
  lemma HashOfSame(h: Hasher, a: Node, b: Node)
    requires Settled(a) && Settled(b) && SealAll(h, a, []) == SealAll(h, b, [])
    ensures var m, m' := Contents(Some(a)), Contents(Some(b));
            m != map[] && m' != map[] && RootHash(h, m') == RootHash(h, m) && Rewritten(h, m') == Rewritten(h, m)
  {
    HashOfContents(h, a);
    HashOfContents(h, b);
    SameSealSameHash(h, a, b, [], 0);
  }

  lemma SwitchSimulates(h: Hasher, before: Root, next: Hasher, r: Result<()>, after: Root)
    requires RespectsSiblings(h) && Good(h, before) && InlineStep(before, r, after)
    ensures Good(InForce(h, SwitchTo(next), Switched(r)), after) && Contents(after) == Contents(before)
  {
    UnsealedKeeps(h, before, after);
    if r.Ok? && after.Some? {
      InlineSound(next, after.value, [], false);
    }
  }

  /** Forward simulation: every step of the trie is a step of the map, and keeps the invariants. */
  lemma StepSimulates(h: Hasher, before: Root, op: Op, reply: Reply, after: Root)
    requires Lawful(h) && Good(h, before) && Step(h, before, op, reply, after)
    ensures Good(InForce(h, op, reply), after) && MapStep(h, Contents(before), op, reply, Contents(after))
  {
    match op
    case Insert(key, v) => InsertSimulates(h, before, key, v, reply.displaced, after);
    case Remove(key) => RemoveSimulates(h, before, key, reply.taken, after);
    case RemovePrefix(prefix) => PrefixSimulates(h, before, prefix, reply.done, after);
    case Hash => HashSimulates(h, before, reply.digest, after);
    case SwitchTo(next) => SwitchSimulates(h, before, next, reply.done, after);
  }

  /**
   * A failed walk can be retried: whatever the next walk does, it does as if it were the first, so
   * one that finishes gives the digest and leaves the trie an uninterrupted walk would have.
   */
  lemma RetryHash(h: Hasher, before: Root, mid: Root, r: Result<Digest>, after: Root, byHand: bool)
    requires HashStep(h, before, Err, mid, byHand) && HashStep(h, mid, r, after, byHand)
    ensures HashStep(h, before, r, after, byHand)
  {
    SameSealSameHash(h, mid.value, before.value, [], 0);
  }

  /**
   * Changing the scheme works from any settled trie, whatever schemes its edges were sealed under:
   * once every edge is inline, the new scheme's walk gives the root hash of the contents.
   */
  lemma SwitchHasher(h: Hasher, before: Root, mid: Root, d: Digest, after: Root)
    requires before.Some? && Settled(before.value) && InlineStep(before, Ok(()), mid)
    requires HashStep(h, mid, Ok(d), after, false)
    ensures Good(h, mid) && Contents(mid) == Contents(before) != map[] && d == RootHash(h, Contents(before))
  {
    UnsealedErase(before.value, mid.value);
    EraseSettled(before.value, mid.value);
    EraseContents(before, mid);
    InlineSound(h, mid.value, [], false);
    HashOfContents(h, mid.value);
  }

  // ----- runs

  /**
   * A run from the empty trie, with the hasher in force at each state: each state follows from the
   * one before by one operation.
   */
  ghost predicate Run(hs: seq<Hasher>, states: seq<Root>, ops: seq<Op>, replies: seq<Reply>) {
    |ops| == |replies| && |hs| == |states| == |ops| + 1 && states[0] == None &&
    (forall k :: 0 <= k < |hs| ==> Lawful(hs[k])) &&
    forall k :: 0 <= k < |ops| ==>
      Step(hs[k], states[k], ops[k], replies[k], states[k + 1]) && hs[k + 1] == InForce(hs[k], ops[k], replies[k])
  }

  predicate HashedOk(op: Op, reply: Reply) {
    op.Hash? && reply.Hashed? && reply.digest.Ok?
  }

  /** Every reachable trie is settled, and sound for the hasher in force, whatever failed on the way. */
  lemma {:induction false} RunGood(hs: seq<Hasher>, states: seq<Root>, ops: seq<Op>, replies: seq<Reply>, k: nat)
    requires Run(hs, states, ops, replies) && k < |states|
    ensures Good(hs[k], states[k])
  {
    if k > 0 {
      RunGood(hs, states, ops, replies, k - 1);
      assert Step(hs[k - 1], states[k - 1], ops[k - 1], replies[k - 1], states[k]);
      StepSimulates(hs[k - 1], states[k - 1], ops[k - 1], replies[k - 1], states[k]);
    } else {
      assert SettledRoot(states[0]);
    }
  }

  /** History independence: hashing after any run gives the root hash of the contents then stored. */
  lemma RunHash(hs: seq<Hasher>, states: seq<Root>, ops: seq<Op>, replies: seq<Reply>, k: nat)
    requires Run(hs, states, ops, replies) && k < |ops|
    requires HashedOk(ops[k], replies[k])
    ensures Contents(states[k]) != map[]
    ensures replies[k].digest.value == RootHash(hs[k], Contents(states[k]))
    ensures Contents(states[k + 1]) == Rewritten(hs[k], Contents(states[k]))
  {
    RunGood(hs, states, ops, replies, k);
    assert Step(hs[k], states[k], ops[k], replies[k], states[k + 1]);
    StepSimulates(hs[k], states[k], ops[k], replies[k], states[k + 1]);
  }

  /** What one operation does to a map when no value is rewritten: nothing, if it failed. */
  ghost function Apply(m: map<Path, Value>, op: Op, reply: Reply): map<Path, Value> {
    match (op, reply)
    case (Insert(key, v), Inserted(Ok(_))) => m[key := v]
    case (Remove(key), Removed(Ok(_))) => m - {key}
    case (RemovePrefix(prefix), PrefixRemoved(Ok(_))) => Outside(m, prefix)
    case (_, _) => m
  }

  /** The map that a run's successful mutations build, with hashing left out. */
  ghost function Replay(ops: seq<Op>, replies: seq<Reply>): map<Path, Value>
    requires |ops| == |replies|
  {
    if ops == [] then map[] else
      var last := |ops| - 1;
      Apply(Replay(ops[..last], replies[..last]), ops[last], replies[last])
  }

  lemma ReplayLast(ops: seq<Op>, replies: seq<Reply>, k: nat)
    requires |ops| == |replies| && 0 < k <= |ops|
    ensures Replay(ops[..k], replies[..k])
         == Apply(Replay(ops[..k - 1], replies[..k - 1]), ops[k - 1], replies[k - 1])
  {
    assert ops[..k][..k - 1] == ops[..k - 1] && replies[..k][..k - 1] == replies[..k - 1];
  }

  lemma MapStepApplies(h: Hasher, m: map<Path, Value>, op: Op, reply: Reply, m': map<Path, Value>)
    requires NeverRewrites(h) && MapStep(h, m, op, reply, m')
    ensures m' == Apply(m, op, reply)
  {}

  /** With no value rewriting, every state holds exactly what the successful mutations say. */
  lemma {:induction false} RunReplays(hs: seq<Hasher>, states: seq<Root>, ops: seq<Op>, replies: seq<Reply>, k: nat)
    requires Run(hs, states, ops, replies) && k < |states|
    requires forall j :: 0 <= j < |hs| ==> NeverRewrites(hs[j])
    ensures Contents(states[k]) == Replay(ops[..k], replies[..k])
  {
    if k > 0 {
      var h, op, reply := hs[k - 1], ops[k - 1], replies[k - 1];
      RunReplays(hs, states, ops, replies, k - 1);
      RunGood(hs, states, ops, replies, k - 1);
      assert Step(h, states[k - 1], op, reply, states[k]);
      StepSimulates(h, states[k - 1], op, reply, states[k]);
      MapStepApplies(h, Contents(states[k - 1]), op, reply, Contents(states[k]));
      ReplayLast(ops, replies, k);
    }
  }

  /** Two runs that come to hold the same map have the same shape, and hash to the same root. */
  lemma TwoRuns(hs: seq<Hasher>, s: seq<Root>, os: seq<Op>, rs: seq<Reply>,
                ht: seq<Hasher>, t: seq<Root>, ot: seq<Op>, rt: seq<Reply>, j: nat, k: nat)
    requires Run(hs, s, os, rs) && Run(ht, t, ot, rt) && j < |os| && k < |ot|
    requires Contents(s[j]) == Contents(t[k])
    ensures EraseRoot(s[j]) == EraseRoot(t[k])
    ensures hs[j] == ht[k] && HashedOk(os[j], rs[j]) && HashedOk(ot[k], rt[k]) ==>
              rs[j].digest == rt[k].digest && s[j + 1] == t[k + 1]
  {
    RunGood(hs, s, os, rs, j);
    RunGood(ht, t, ot, rt, k);
    SameContents(s[j], t[k]);
    if hs[j] == ht[k] && HashedOk(os[j], rs[j]) && HashedOk(ot[k], rt[k]) {
      var h := hs[j];
      assert Step(h, s[j], os[j], rs[j], s[j + 1]) && Step(h, t[k], ot[k], rt[k], t[k + 1]);
      SealIgnoresSeals(h, s[j].value, t[k].value, []);
      SameSealSameHash(h, s[j].value, t[k].value, [], 0);
    }
  }
}
