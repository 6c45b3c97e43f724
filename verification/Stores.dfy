/** The edge store: how an edge resolves to its node, with every call allowed to fail. */
module Stores {
  import opened Wrappers
  import opened Paths
  import opened Nodes

  /** How many of the first `n` calls fail. */
  ghost function Fails(failing: nat -> bool, n: nat): nat {
    if n == 0 then 0 else Fails(failing, n - 1) + One(failing(n - 1))
  }

  function One(b: bool): nat {
    if b then 1 else 0
  }

  /** No call fails where none is to fail. */
  lemma {:induction false} NoneFail(failing: nat -> bool, n: nat)
    requires forall k: nat :: !failing(k)
    ensures Fails(failing, n) == 0
  {
    if n > 0 {
      NoneFail(failing, n - 1);
    }
  }

  /** None of the calls numbered from `from` up to `to` fails. */
  ghost predicate NoneFails(failing: nat -> bool, from: nat, to: nat) {
    forall k: nat :: from <= k < to ==> !failing(k)
  }

  /** Calls `from` up to `to` are `n` calls one after another, given up at the first that fails. */
  ghost predicate Calls(failing: nat -> bool, from: nat, to: nat, n: nat, failed: bool) {
    from <= to <= from + n &&
    if failed then from < to && failing(to - 1) && NoneFails(failing, from, to - 1)
    else to == from + n && NoneFails(failing, from, to)
  }

  /** Which calls are made, and whether they come to an end, is settled by which calls fail. */
  lemma CallsSettled(failing: nat -> bool, from: nat, to: nat, n: nat, failed: bool)
    requires Calls(failing, from, to, n, failed)
    ensures failed <==> exists k: nat :: from <= k < from + n && failing(k)
    ensures forall to': nat, failed' :: Calls(failing, from, to', n, failed') ==> to' == to && failed' == failed
  {
    if failed {
      assert from <= to - 1 < from + n && failing(to - 1);
    }
    forall to': nat, failed' | Calls(failing, from, to', n, failed') ensures to' == to && failed' == failed {
      if failed' {
        assert failing(to' - 1);
      }
    }
  }

  /** Calls that all succeed, and further calls after them. */
  lemma CallsThen(failing: nat -> bool, from: nat, mid: nat, to: nat, n: nat, more: nat, failed: bool)
    requires Calls(failing, from, mid, n, false) && Calls(failing, mid, to, more, failed)
    ensures Calls(failing, from, to, n + more, failed)
  {}

  /** Where none fails the count of failures stands still. */
  lemma {:induction false} FailsNone(failing: nat -> bool, from: nat, to: nat)
    requires from <= to && NoneFails(failing, from, to)
    ensures Fails(failing, to) == Fails(failing, from)
  {
    if to > from {
      FailsNone(failing, from, to - 1);
    }
  }

  lemma CallsFail(failing: nat -> bool, from: nat, to: nat, n: nat, failed: bool)
    requires Calls(failing, from, to, n, failed)
    ensures Fails(failing, to) == Fails(failing, from) + One(failed)
  {
    FailsNone(failing, from, if failed then to - 1 else to);
  }

  // ----- counting the store calls of a descent: one for each edge followed

  /** Calls `from` up to `to`, none of which failed, have led from `start` down to `n`. */
  ghost predicate Descending(failing: nat -> bool, from: nat, to: nat, start: Node, key: Path, n: Node, rest: Path) {
    from <= to && NoneFails(failing, from, to) && to + Descents(n, rest) == from + Descents(start, key)
  }

  lemma DescendCalls(failing: nat -> bool, from: nat, to: nat, start: Node, key: Path, n: Node, rest: Path, to': nat, failed: bool)
    requires Descending(failing, from, to, start, key, n, rest) && Descends(n, rest)
    requires Calls(failing, to, to', 1, failed)
    ensures if failed then Calls(failing, from, to', Descents(start, key), true)
            else Descending(failing, from, to', start, key, Next(n, rest), After(n, rest))
  {}

  lemma DescentEnds(failing: nat -> bool, from: nat, to: nat, start: Node, key: Path, n: Node, rest: Path)
    requires Descending(failing, from, to, start, key, n, rest) && !Descends(n, rest)
    ensures Calls(failing, from, to, Descents(start, key), false)
  {}

  /**
   * Which calls fail is an arbitrary choice per call number, so a proof about this store covers
   * every schedule of failures. `replaced` records the hash of each sealed edge turned inline.
   */
  class Store {
    const readFails: nat -> bool
    const materializeFails: nat -> bool
    var readCalls: nat
    var materializeCalls: nat
    var replaced: seq<Digest>

    constructor (readFails: nat -> bool, materializeFails: nat -> bool)
      ensures readCalls == 0 && materializeCalls == 0 && replaced == []
      ensures this.readFails == readFails && this.materializeFails == materializeFails
    {
      this.readFails := readFails;
      this.materializeFails := materializeFails;
      readCalls := 0;
      materializeCalls := 0;
      replaced := [];
    }

    /** A store that fails no call, as one in memory is. */
    ghost predicate NeverFails() {
      forall k: nat :: !readFails(k) && !materializeFails(k)
    }

    /** How many calls have failed so far. */
    ghost function Failures(): nat
      reads this`readCalls, this`materializeCalls
    {
      Fails(readFails, readCalls) + Fails(materializeFails, materializeCalls)
    }

    /**
     * Reads `r0` up to `r` and materializations `m0` up to `m` are `lookups` of the one and `unseals` of
     * the other, given up at the first call of either kind that fails.
     */
    ghost predicate SpentTo(r0: nat, r: nat, lookups: nat, m0: nat, m: nat, unseals: nat, failed: bool) {
      r0 <= r <= r0 + lookups && m0 <= m <= m0 + unseals &&
      if failed then
        (Calls(readFails, r0, r, lookups, true) && NoneFails(materializeFails, m0, m)) ||
        (NoneFails(readFails, r0, r) && Calls(materializeFails, m0, m, unseals, true))
      else
        Calls(readFails, r0, r, lookups, false) && Calls(materializeFails, m0, m, unseals, false)
    }

    /** The same up to now. */
    ghost predicate Spent(r0: nat, lookups: nat, m0: nat, unseals: nat, failed: bool)
      reads this`readCalls, this`materializeCalls
    {
      SpentTo(r0, readCalls, lookups, m0, materializeCalls, unseals, failed)
    }

    /** It fails exactly when one of those calls is to fail. */
    lemma SpentSettled(r0: nat, r: nat, lookups: nat, m0: nat, m: nat, unseals: nat, failed: bool)
      requires SpentTo(r0, r, lookups, m0, m, unseals, failed)
      ensures failed <==>
              !NoneFails(readFails, r0, r0 + lookups) || !NoneFails(materializeFails, m0, m0 + unseals)
    {
      if failed {
        assert (r0 < r && readFails(r - 1)) || (m0 < m && materializeFails(m - 1));
      }
    }

    /** One failure at most, and none if all went through. */
    lemma SpentFailures(r0: nat, lookups: nat, m0: nat, unseals: nat, failed: bool)
      requires Spent(r0, lookups, m0, unseals, failed)
      ensures Failures() == Fails(readFails, r0) + Fails(materializeFails, m0) + One(failed)
    {
      if Calls(readFails, r0, readCalls, lookups, failed) {
        CallsFail(readFails, r0, readCalls, lookups, failed);
      } else {
        FailsNone(readFails, r0, readCalls);
      }
      if Calls(materializeFails, m0, materializeCalls, unseals, failed) {
        CallsFail(materializeFails, m0, materializeCalls, unseals, failed);
      } else {
        FailsNone(materializeFails, m0, materializeCalls);
      }
    }

    /** Over a store that fails no call there never is a failure. */
    lemma NoFailures()
      requires NeverFails()
      ensures Failures() == 0
    {
      NoneFail(readFails, readCalls);
      NoneFail(materializeFails, materializeCalls);
    }

    /** Resolves any edge, inline or sealed. */
    method Read(e: Edge) returns (r: Result<Node>)
      modifies this`readCalls
      ensures readCalls == old(readCalls) + 1
      ensures r == if readFails(old(readCalls)) then Err else Ok(e.node)
      ensures Failures() == old(Failures()) + One(r.Err?)
    {
      r := if readFails(readCalls) then Err else Ok(e.node);
      readCalls := readCalls + 1;
    }

    /** Turns an edge inline; a failed call records nothing. */
    method Materialize(e: Edge) returns (r: Result<Edge>)
      modifies this`materializeCalls, this`replaced
      ensures materializeCalls == old(materializeCalls) + 1
      ensures r == if materializeFails(old(materializeCalls)) then Err else Ok(Inline(e.node))
      ensures replaced == old(replaced) + (if r.Ok? && e.hash.Some? then [e.hash.value] else [])
      ensures Failures() == old(Failures()) + One(r.Err?)
    {
      if materializeFails(materializeCalls) {
        r := Err;
      } else {
        r := Ok(Inline(e.node));
        if e.hash.Some? {
          replaced := replaced + [e.hash.value];
        }
      }
      materializeCalls := materializeCalls + 1;
    }
  }
}

/** Zippers: the ancestors of a node, each with the index it was left by. */
module Frames {
  import opened Paths
  import opened Nodes

  datatype Frame = Frame(node: Node, at: Index)

  /** The parent of `frame` with its descended child replaced by `n`, behind an inline edge. */
  function Attach(frame: Frame, n: Node): Node {
    frame.node.(children := frame.node.children[frame.at := Inline(n)])
  }

  /** The whole trie when `cur` stands at the end of the path. */
  function Plug(frames: seq<Frame>, cur: Node): Node
    decreases |frames|
  {
    if frames == [] then cur else
      var last := |frames| - 1;
      Plug(frames[..last], Attach(frames[last], cur))
  }

  /** Every frame was left through a child it has. */
  ghost predicate Linked(frames: seq<Frame>) {
    forall k :: 0 <= k < |frames| ==> frames[k].at in frames[k].node.children
  }

  lemma PlugPush(frames: seq<Frame>, f: Frame, cur: Node)
    ensures Plug(frames + [f], cur) == Plug(frames, Attach(f, cur))
  {
    assert (frames + [f])[..|frames|] == frames;
  }

  /** Unsealing at the end of the path only unseals the whole. */
  lemma {:induction false} PlugUnseal(frames: seq<Frame>, a: Node, b: Node)
    requires OnlyUnsealed(a, b)
    ensures OnlyUnsealed(Plug(frames, a), Plug(frames, b))
    decreases |frames|
  {
    if frames != [] {
      var last := |frames| - 1;
      var pa, pb := Attach(frames[last], a), Attach(frames[last], b);
      UnsealChild(pa, frames[last].at, b);
      assert pb == pa.(children := pa.children[frames[last].at := Inline(b)]);
      PlugUnseal(frames[..last], pa, pb);
    }
  }
}
