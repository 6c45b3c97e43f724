/** Driving the trie: what its methods do is what a run is made of. */
module Sessions {
  import opened Wrappers
  import opened Paths
  import opened Nodes
  import opened Stores
  import opened Removal
  import opened Hashing
  import opened Steps
  import opened Tries
  import opened History

  /** The reply carries a store's error. */
  predicate Failed(reply: Reply) {
    match reply
    case Inserted(r) => r.Err?
    case Removed(r) => r.Err?
    case PrefixRemoved(r) => r.Err?
    case Hashed(r) => r.Err?
    case Switched(r) => r.Err?
  }

  // ----- the machine without failures: one map, one hasher, every answer determined

  /** The map after an operation that does not fail. */
  ghost function MapAfter(h: Hasher, m: map<Path, Value>, op: Op): map<Path, Value>
    requires op.Hash? ==> m != map[]
  {
    match op
    case Insert(key, v) => m[key := v]
    case Remove(key) => m - {key}
    case RemovePrefix(prefix) => Outside(m, prefix)
    case Hash => Rewritten(h, m)
    case SwitchTo(_) => m
  }

  /** What an operation that does not fail answers. */
  ghost function Answer(h: Hasher, m: map<Path, Value>, op: Op): Reply
    requires op.Hash? ==> m != map[]
  {
    match op
    case Insert(key, _) => Inserted(Ok(Look(m, key)))
    case Remove(key) => Removed(Ok(Look(m, key)))
    case RemovePrefix(_) => PrefixRemoved(Ok(()))
    case Hash => Hashed(Ok(RootHash(h, m)))
    case SwitchTo(_) => Switched(Ok(()))
  }

  /** The empty trie has no node to hash, so hashing it is no call. */
  ghost predicate NoCall(m: map<Path, Value>, op: Op) {
    op.Hash? && m == map[]
  }

  /** The hasher in force and the map after a list of operations, none of which fails. */
  ghost function Machine(h: Hasher, ops: seq<Op>): (Hasher, map<Path, Value>) {
    if ops == [] then (h, map[]) else
      var op, (g, m) := ops[|ops| - 1], Machine(h, ops[..|ops| - 1]);
      if NoCall(m, op) then (g, m)
      else (if op.SwitchTo? then op.next else g, MapAfter(g, m, op))
  }

  ghost function Answers(h: Hasher, ops: seq<Op>): seq<Reply> {
    if ops == [] then [] else
      var op, (g, m) := ops[|ops| - 1], Machine(h, ops[..|ops| - 1]);
      Answers(h, ops[..|ops| - 1]) + if NoCall(m, op) then [] else [Answer(g, m, op)]
  }

  /** An operation that does not fail does what the machine does. */
  lemma SureStep(h: Hasher, m: map<Path, Value>, op: Op, reply: Reply, m': map<Path, Value>)
    requires MapStep(h, m, op, reply, m') && !Failed(reply)
    ensures !NoCall(m, op) && reply == Answer(h, m, op) && m' == MapAfter(h, m, op)
  {
    match reply
    case PrefixRemoved(r) => assert r.value == ();
    case Switched(r) => assert r.value == ();
    case _ =>
  }

  lemma MachineNext(h: Hasher, ops: seq<Op>, op: Op)
    ensures var (g, m) := Machine(h, ops);
            if NoCall(m, op) then
              Machine(h, ops + [op]) == (g, m) && Answers(h, ops + [op]) == Answers(h, ops)
            else
              Machine(h, ops + [op]) == (if op.SwitchTo? then op.next else g, MapAfter(g, m, op)) &&
              Answers(h, ops + [op]) == Answers(h, ops) + [Answer(g, m, op)]
  {
    assert (ops + [op])[..|ops|] == ops;
  }

  // ----- the trie's own methods

  /** How many edges an operation reads, if no store call fails. */
  ghost function Lookups(h: Hasher, before: Root, op: Op): nat {
    if op.Hash? then HashLookups(h, before) else 0
  }

  /** How many edges an operation materializes, if no store call fails. */
  ghost function Unsealings(h: Hasher, before: Root, op: Op): nat {
    match op
    case Insert(key, _) => DescentsAt(before, key)
    case Remove(key) => RemoveCalls(before, key)
    case RemovePrefix(prefix) => PrefixCalls(before, prefix)
    case Hash => HashUnseals(h, before)
    case SwitchTo(_) => InlineCalls(before)
  }

  /** One operation through the trie's own methods is one step of a run and of the map; it fails with the store. */
  method Perform(t: Trie, h: Hasher, op: Op) returns (reply: Reply)
    requires Lawful(h) && Good(h, t.root) && (op.Hash? ==> t.root.Some?)
    modifies t`root, t.store
    ensures Step(h, old(t.root), op, reply, t.root) && Good(InForce(h, op, reply), t.root)
    ensures MapStep(h, Contents(old(t.root)), op, reply, Contents(t.root))
    ensures t.store.Failures() == old(t.store.Failures()) + One(Failed(reply))
    ensures t.store.Spent(old(t.store.readCalls), Lookups(h, old(t.root), op),
                          old(t.store.materializeCalls), Unsealings(h, old(t.root), op), Failed(reply))
    ensures if op.Hash? then t.Record() == old(t.Record()) else t.Accounted() == old(t.Accounted())
  {
    ghost var before := t.root;
    match op {
      case Insert(key, v) =>
        var displaced := t.Insert(key, v);
        reply := Inserted(displaced);
      case Remove(key) =>
        var taken := t.Remove(key);
        reply := Removed(taken);
      case RemovePrefix(prefix) =>
        var done := t.RemovePrefix(prefix);
        reply := PrefixRemoved(done);
      case Hash =>
        var digest := t.Hash(h, false);
        reply := Hashed(digest);
      case SwitchTo(_) =>
        var done := t.MaterializeAll();
        reply := Switched(done);
    }
    StepSimulates(h, before, op, reply, t.root);
  }

  /** A run grows by one step. */
  lemma RunGrows(hs: seq<Hasher>, states: seq<Root>, ops: seq<Op>, replies: seq<Reply>,
                 op: Op, reply: Reply, after: Root)
    requires Run(hs, states, ops, replies) && Step(hs[|ops|], states[|ops|], op, reply, after)
    requires Lawful(InForce(hs[|ops|], op, reply))
    ensures Run(hs + [InForce(hs[|ops|], op, reply)], states + [after], ops + [op], replies + [reply])
  {
    var g, s, o, r := hs + [InForce(hs[|ops|], op, reply)], states + [after], ops + [op], replies + [reply];
    forall k | 0 <= k < |o|
      ensures Step(g[k], s[k], o[k], r[k], s[k + 1]) && g[k + 1] == InForce(g[k], o[k], r[k]) {
      if k < |ops| {
        assert Step(hs[k], states[k], ops[k], replies[k], states[k + 1]);
      }
    }
  }

  /** The operations performed are all those asked for but the hashing of an empty trie. */
  ghost predicate Follows(ops: seq<Op>, performed: seq<Op>, states: seq<Root>)
    requires |states| == |performed| + 1
    decreases |ops|
  {
    if ops == [] then performed == [] else
      var n, m := |ops| - 1, |performed|;
      if ops[n].Hash? && states[m] == None then Follows(ops[..n], performed, states)
      else m > 0 && performed[m - 1] == ops[n] && Follows(ops[..n], performed[..m - 1], states[..m])
  }

  lemma FollowsNext(ops: seq<Op>, performed: seq<Op>, states: seq<Root>, op: Op, after: Root)
    requires |states| == |performed| + 1 && Follows(ops, performed, states)
    requires !(op.Hash? && after == None)
    ensures Follows(ops + [op], performed + [op], states + [after])
  {
    assert (ops + [op])[..|ops|] == ops && (performed + [op])[..|performed|] == performed;
    assert (states + [after])[..|states|] == states;
  }

  /** A settled trie is empty exactly when its contents are. */
  lemma EmptyContents(root: Root)
    requires SettledRoot(root)
    ensures root == None <==> Contents(root) == map[]
  {
    if root.Some? {
      NonEmpty(root.value);
    }
  }

  /** How many of the replies are failures. */
  ghost function FailedReplies(replies: seq<Reply>): nat {
    if replies == [] then 0 else FailedReplies(replies[..|replies| - 1]) + One(Failed(replies[|replies| - 1]))
  }

  /** The state of a session is the machine's, as long as nothing has failed. */
  ghost predicate Tracks(h: Hasher, ops: seq<Op>, g: Hasher, root: Root, replies: seq<Reply>) {
    FailedReplies(replies) == 0 ==> Machine(h, ops) == (g, Contents(root)) && Answers(h, ops) == replies
  }

  lemma TracksSkip(h: Hasher, ops: seq<Op>, op: Op, g: Hasher, root: Root, replies: seq<Reply>)
    requires Tracks(h, ops, g, root, replies) && op.Hash? && root == None
    ensures Tracks(h, ops + [op], g, root, replies)
  {
    EmptyContents(root);
    MachineNext(h, ops, op);
  }

  lemma TracksStep(h: Hasher, ops: seq<Op>, op: Op, g: Hasher, before: Root, replies: seq<Reply>,
                   reply: Reply, after: Root)
    requires Tracks(h, ops, g, before, replies) && MapStep(g, Contents(before), op, reply, Contents(after))
    ensures FailedReplies(replies + [reply]) == FailedReplies(replies) + One(Failed(reply))
    ensures Tracks(h, ops + [op], InForce(g, op, reply), after, replies + [reply])
  {
    assert (replies + [reply])[..|replies|] == replies;
    if !Failed(reply) {
      SureStep(g, Contents(before), op, reply, Contents(after));
      MachineNext(h, ops, op);
    }
  }

  /** Everything known of a session once `ops` have been asked for. */
  ghost predicate Session(start: Hasher, ops: seq<Op>, performed: seq<Op>, replies: seq<Reply>,
                          hs: seq<Hasher>, states: seq<Root>) {
    Run(hs, states, performed, replies) && hs[0] == start && Follows(ops, performed, states) &&
    Good(hs[|performed|], states[|performed|]) &&
    Tracks(start, ops, hs[|performed|], states[|performed|], replies)
  }

  lemma SessionSkip(start: Hasher, ops: seq<Op>, performed: seq<Op>, replies: seq<Reply>,
                    hs: seq<Hasher>, states: seq<Root>, op: Op)
    requires Session(start, ops, performed, replies, hs, states) && op.Hash? && states[|performed|] == None
    ensures Session(start, ops + [op], performed, replies, hs, states)
  {
    assert (ops + [op])[..|ops|] == ops;
    TracksSkip(start, ops, op, hs[|performed|], states[|performed|], replies);
  }

  lemma SessionStep(start: Hasher, ops: seq<Op>, performed: seq<Op>, replies: seq<Reply>,
                    hs: seq<Hasher>, states: seq<Root>, op: Op, reply: Reply, after: Root)
    requires Session(start, ops, performed, replies, hs, states)
    requires var h, before := hs[|performed|], states[|performed|];
             Step(h, before, op, reply, after) && MapStep(h, Contents(before), op, reply, Contents(after)) &&
             Lawful(InForce(h, op, reply)) && Good(InForce(h, op, reply), after) && !(op.Hash? && after == None)
    ensures Session(start, ops + [op], performed + [op], replies + [reply],
                    hs + [InForce(hs[|performed|], op, reply)], states + [after])
    ensures FailedReplies(replies + [reply]) == FailedReplies(replies) + One(Failed(reply))
  {
    RunGrows(hs, states, performed, replies, op, reply, after);
    FollowsNext(ops, performed, states, op, after);
    TracksStep(start, ops, op, hs[|performed|], states[|performed|], replies, reply, after);
  }

  lemma SessionStarts(start: Hasher)
    requires Lawful(start)
    ensures Session(start, [], [], [], [start], [None])
  {}

  /** Under schemes that rewrite no value a session ends holding what its successful mutations say. */
  lemma SessionReplays(start: Hasher, ops: seq<Op>, performed: seq<Op>, replies: seq<Reply>,
                       hs: seq<Hasher>, states: seq<Root>)
    requires Session(start, ops, performed, replies, hs, states) && forall k :: 0 <= k < |hs| ==> NeverRewrites(hs[k])
    ensures Contents(states[|performed|]) == Replay(performed, replies)
  {
    RunReplays(hs, states, performed, replies, |performed|);
    assert performed[..|performed|] == performed && replies[..|performed|] == replies;
  }

  /** The numbers of reads and of materializations a store has been asked for. */
  datatype Clock = Clock(lookups: nat, unseals: nat)

  /** Each operation makes the store calls its trie asks for, and fails exactly when one of them does. */
  ghost predicate Timed(store: Store, performed: seq<Op>, replies: seq<Reply>, hs: seq<Hasher>, states: seq<Root>,
                        clock: seq<Clock>) {
    |hs| == |states| == |clock| == |performed| + 1 && |replies| == |performed| &&
    forall k :: 0 <= k < |performed| ==>
      store.SpentTo(clock[k].lookups, clock[k + 1].lookups, Lookups(hs[k], states[k], performed[k]),
                    clock[k].unseals, clock[k + 1].unseals, Unsealings(hs[k], states[k], performed[k]), Failed(replies[k]))
  }

  lemma TimedNext(store: Store, performed: seq<Op>, replies: seq<Reply>, hs: seq<Hasher>, states: seq<Root>,
                  clock: seq<Clock>, op: Op, reply: Reply, h: Hasher, after: Root, now: Clock)
    requires Timed(store, performed, replies, hs, states, clock)
    requires var n := |performed|;
             store.SpentTo(clock[n].lookups, now.lookups, Lookups(hs[n], states[n], op),
                           clock[n].unseals, now.unseals, Unsealings(hs[n], states[n], op), Failed(reply))
    ensures Timed(store, performed + [op], replies + [reply], hs + [h], states + [after], clock + [now])
  {}

  /** What the trie and the hasher in hand are to a session. */
  ghost predicate AtEnd(t: Trie, h: Hasher, hs: seq<Hasher>, states: seq<Root>, clock: seq<Clock>)
    reads t`root, t.store
  {
    hs != [] && states != [] && clock != [] && hs[|hs| - 1] == h && states[|states| - 1] == t.root &&
    clock[|clock| - 1] == Clock(t.store.readCalls, t.store.materializeCalls)
  }

  /** One turn of a session; hashing the empty trie is no turn. */
  method Turn(t: Trie, h: Hasher, ghost start: Hasher, ghost ops: seq<Op>, op: Op, performed: seq<Op>,
              replies: seq<Reply>, ghost hs: seq<Hasher>, ghost states: seq<Root>, ghost clock: seq<Clock>)
    returns (h': Hasher, performed': seq<Op>, replies': seq<Reply>, ghost hs': seq<Hasher>, ghost states': seq<Root>,
             ghost clock': seq<Clock>)
    requires Session(start, ops, performed, replies, hs, states) && AtEnd(t, h, hs, states, clock)
    requires Timed(t.store, performed, replies, hs, states, clock)
    requires op.SwitchTo? ==> Lawful(op.next)
    modifies t`root, t.store
    ensures Session(start, ops + [op], performed', replies', hs', states') && AtEnd(t, h', hs', states', clock')
    ensures Timed(t.store, performed', replies', hs', states', clock') && clock <= clock'
    ensures t.store.Failures() + FailedReplies(replies) == old(t.store.Failures()) + FailedReplies(replies')
  {
    if op.Hash? && t.root.None? {
      SessionSkip(start, ops, performed, replies, hs, states, op);
      return h, performed, replies, hs, states, clock;
    }
    var reply := Perform(t, h, op);
    SessionStep(start, ops, performed, replies, hs, states, op, reply, t.root);
    h' := InForce(h, op, reply);
    ghost var now := Clock(t.store.readCalls, t.store.materializeCalls);
    TimedNext(t.store, performed, replies, hs, states, clock, op, reply, h', t.root, now);
    return h', performed + [op], replies + [reply], hs + [h'], states + [t.root], clock + [now];
  }

  /** The first operations, then one more turn. */
  method Play(t: Trie, start: Hasher, ops: seq<Op>)
    returns (h: Hasher, performed: seq<Op>, replies: seq<Reply>, ghost hs: seq<Hasher>, ghost states: seq<Root>,
             ghost clock: seq<Clock>)
    requires Lawful(start) && (forall op :: op in ops && op.SwitchTo? ==> Lawful(op.next)) && t.root == None
    modifies t`root, t.store
    ensures Session(start, ops, performed, replies, hs, states) && AtEnd(t, h, hs, states, clock)
    ensures Timed(t.store, performed, replies, hs, states, clock)
    ensures clock[0] == old(Clock(t.store.readCalls, t.store.materializeCalls))
    ensures t.store.Failures() == old(t.store.Failures()) + FailedReplies(replies)
    decreases |ops|
  {
    if ops == [] {
      SessionStarts(start);
      return start, [], [], [start], [None], [Clock(t.store.readCalls, t.store.materializeCalls)];
    }
    var n := |ops| - 1;
    h, performed, replies, hs, states, clock := Play(t, start, ops[..n]);
    assert ops == ops[..n] + [ops[n]];
    h, performed, replies, hs, states, clock := Turn(t, h, start, ops[..n], ops[n], performed, replies, hs, states, clock);
  }

  /**
   * Performs a list of operations on an empty trie, over a store that fails as it likes. What was
   * performed is a run; each operation makes the store calls its trie asks for, and its reply is an
   * error exactly when one of them fails. As long as none has failed, the answers and the contents are
   * the machine's.
   */
  method Drive(t: Trie, start: Hasher, ops: seq<Op>)
    returns (performed: seq<Op>, replies: seq<Reply>, ghost hs: seq<Hasher>, ghost states: seq<Root>,
             ghost clock: seq<Clock>)
    requires Lawful(start) && (forall op :: op in ops && op.SwitchTo? ==> Lawful(op.next)) && t.root == None
    modifies t`root, t.store
    ensures Session(start, ops, performed, replies, hs, states) && states[|performed|] == t.root
    ensures Timed(t.store, performed, replies, hs, states, clock)
    ensures clock[0] == old(Clock(t.store.readCalls, t.store.materializeCalls))
    ensures clock[|performed|] == Clock(t.store.readCalls, t.store.materializeCalls)
    ensures t.store.Failures() == old(t.store.Failures()) + FailedReplies(replies)
  {
    var h;
    h, performed, replies, hs, states, clock := Play(t, start, ops);
  }

  /**
   * Over a store that fails no call, every call succeeds: each operation is exactly the operation on
   * the map, and each hash is the root hash of the contents under the hasher in force, whether or
   * not the scheme is sensitive to siblings.
   */
  method DriveSurely(t: Trie, start: Hasher, ops: seq<Op>) returns (replies: seq<Reply>)
    requires Lawful(start) && (forall op :: op in ops && op.SwitchTo? ==> Lawful(op.next)) && t.root == None
    requires t.store.NeverFails()
    modifies t`root, t.store
    ensures replies == Answers(start, ops) && Contents(t.root) == Machine(start, ops).1
  {
    t.store.NoFailures();
    var performed;
    ghost var hs, states, clock;
    performed, replies, hs, states, clock := Drive(t, start, ops);
    t.store.NoFailures();
  }
}
