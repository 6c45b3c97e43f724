/** In-order iteration: a walk over an explicit frame stack with one shared path buffer. */
module Iteration {
  import opened Wrappers
  import opened Paths
  import opened Mins
  import opened Nodes
  import opened Stores
  import opened PreOrder

  /** One level of the stack: `pathLen` cuts the shared buffer to the node's full path. */
  datatype WalkFrame = WalkFrame(node: Node, pathLen: nat, remaining: set<Index>)

  datatype State = Fresh | Seeking | Walking | Done

  /** The visits a walk from `start` makes. */
  ghost function VisitsFrom(root: Root, start: Option<Path>): seq<Visit> {
    if start.Some? then From(ListingRoot(root), start.value) else ListingRoot(root)
  }

  /** The stack fits the buffer: deeper nodes have longer paths, all within it. */
  ghost predicate Fits(frames: seq<WalkFrame>, buf: Path) {
    (forall k :: 0 <= k < |frames| ==>
       frames[k].remaining <= frames[k].node.children.Keys && frames[k].pathLen <= |buf|) &&
    (forall j, k :: 0 <= j < k < |frames| ==> frames[j].pathLen <= frames[k].pathLen)
  }

  /** The visits the stack still stands for, from its top down. */
  ghost function StackTodo(frames: seq<WalkFrame>, buf: Path): seq<Visit>
    requires Fits(frames, buf)
    decreases |frames|
  {
    if frames == [] then [] else
      var top := frames[|frames| - 1];
      Below(top.node, buf[..top.pathLen], top.remaining) + StackTodo(frames[..|frames| - 1], buf)
  }

  lemma {:induction false} StackTodoLocal(frames: seq<WalkFrame>, a: Path, b: Path)
    requires Fits(frames, a)
    requires forall k :: 0 <= k < |frames| ==> frames[k].pathLen <= |b| && a[..frames[k].pathLen] == b[..frames[k].pathLen]
    ensures Fits(frames, b) && StackTodo(frames, a) == StackTodo(frames, b)
    decreases |frames|
  {
    if frames != [] {
      StackTodoLocal(frames[..|frames| - 1], a, b);
    }
  }

  /** The stack after stepping into the least remaining child of its top node. */
  ghost function Entered(frames: seq<WalkFrame>, buf: Path): (seq<WalkFrame>, Path)
    requires Fits(frames, buf) && frames != [] && frames[|frames| - 1].remaining != {}
  {
    var last := |frames| - 1;
    var top := frames[last];
    var i := Min(top.remaining);
    var c := top.node.children[i].node;
    var buf' := buf[..top.pathLen] + [i] + c.path;
    (frames[last := top.(remaining := top.remaining - {i})] + [WalkFrame(c, |buf'|, c.children.Keys)], buf')
  }

  lemma {:induction false} EnteredFits(frames: seq<WalkFrame>, buf: Path)
    requires Fits(frames, buf) && frames != [] && frames[|frames| - 1].remaining != {}
    ensures Fits(Entered(frames, buf).0, Entered(frames, buf).1)
    ensures forall k :: 0 <= k < |frames| ==>
      buf[..frames[k].pathLen] == Entered(frames, buf).1[..frames[k].pathLen]
  {
    var buf' := Entered(frames, buf).1;
    var full := buf[..frames[|frames| - 1].pathLen];
    assert full <= buf';
    forall k | 0 <= k < |frames| ensures buf[..frames[k].pathLen] == buf'[..frames[k].pathLen] {
      assert buf[..frames[k].pathLen] == full[..frames[k].pathLen] == buf'[..frames[k].pathLen];
    }
  }

  lemma StackTop(frames: seq<WalkFrame>, f: WalkFrame, buf: Path)
    requires Fits(frames + [f], buf)
    ensures Fits(frames, buf) && f.remaining <= f.node.children.Keys && f.pathLen <= |buf|
    ensures StackTodo(frames + [f], buf) == Below(f.node, buf[..f.pathLen], f.remaining) + StackTodo(frames, buf)
  {
    var s := frames + [f];
    assert s[..|s| - 1] == frames && s[|s| - 1] == f;
    assert s[|frames|].remaining <= s[|frames|].node.children.Keys && s[|frames|].pathLen <= |buf|;
    forall k | 0 <= k < |frames|
      ensures frames[k].remaining <= frames[k].node.children.Keys && frames[k].pathLen <= |buf| {
      assert s[k] == frames[k];
    }
    forall j, k | 0 <= j < k < |frames| ensures frames[j].pathLen <= frames[k].pathLen {
      assert s[j] == frames[j] && s[k] == frames[k];
    }
  }

  /** Entering a child takes exactly that child's visit off the front. */
  lemma {:induction false} StackEnter(frames: seq<WalkFrame>, buf: Path)
    requires Fits(frames, buf) && frames != [] && frames[|frames| - 1].remaining != {}
    ensures var (frames', buf') := Entered(frames, buf);
            Fits(frames', buf') &&
            StackTodo(frames, buf) == [Visit(buf', frames'[|frames|].node)] + StackTodo(frames', buf')
  {
    var last := |frames| - 1;
    var top := frames[last];
    var i := Min(top.remaining);
    var c, full, lower := top.node.children[i].node, buf[..top.pathLen], frames[..last];
    var (frames', buf') := Entered(frames, buf);
    var mid := top.(remaining := top.remaining - {i});
    EnteredFits(frames, buf);
    assert frames == lower + [top];
    assert frames[last := mid] == lower + [mid];
    StackTop(lower, top, buf);
    StackTop(lower + [mid], WalkFrame(c, |buf'|, c.children.Keys), buf');
    StackTop(lower, mid, buf');
    StackTodoLocal(lower, buf, buf');
    assert buf'[..|buf'|] == buf' && buf'[..top.pathLen] == full;
    var rest := Below(top.node, full, top.remaining - {i});
    assert Listing(c, full + [i]) == [Visit(buf', c)] + Below(c, buf', c.children.Keys);
    Regroup([Visit(buf', c)], Below(c, buf', c.children.Keys), rest, StackTodo(lower, buf));
  }

  lemma Regroup<X>(a: seq<X>, b: seq<X>, c: seq<X>, d: seq<X>)
    ensures (a + b + c) + d == a + (b + (c + d))
  {}

  // ----- seeking: which visits lie before the start key

  /** At the start key or beyond it with the key a prefix: everything here and below is in. */
  lemma AtStart(n: Node, full: Path, s: set<Index>, start: Path)
    requires s <= n.children.Keys && start <= full
    ensures AtOrAfter(full, start) && AllAtOrAfter(Below(n, full, s), start)
  {
    SharedPrefix(full, start);
    var below := Below(n, full, s);
    forall k | 0 <= k < |below| ensures AtOrAfter(below[k].path, start) {
      BelowExtends(n, full, s, k);
      var p := below[k].path;
      assert start == full[..|start|] == p[..|full|][..|start|];
      SharedPrefix(p, start);
    }
  }

  /** Where the path leaves the start key, the whole subtree lies on one side. */
  lemma Diverged(n: Node, full: Path, s: set<Index>, start: Path)
    requires s <= n.children.Keys && SharedLen(full, start) < |full| && SharedLen(full, start) < |start|
    ensures var o := SharedLen(full, start);
            if full[o] > start[o] then AtOrAfter(full, start) && AllAtOrAfter(Below(n, full, s), start)
            else Less(full, start) && AllBefore(Below(n, full, s), start)
  {
    var below := Below(n, full, s);
    forall k | 0 <= k < |below| ensures Less(below[k].path, start) == Less(full, start) {
      BelowExtends(n, full, s, k);
      var p := below[k].path;
      assert p == full + p[|full|..];
      BelowSortsAlike(full, p[|full|..], start);
    }
  }

  /** Beneath a proper prefix of the start key, a child's index decides against the key's next index. */
  lemma ChildSide(n: Node, full: Path, s: set<Index>, start: Path, k: nat)
    requires s <= n.children.Keys && full < start && k < |Below(n, full, s)|
    ensures var p := Below(n, full, s)[k].path;
            full < p && p[|full|] in s &&
            (p[|full|] < start[|full|] ==> Less(p, start)) &&
            (p[|full|] > start[|full|] ==> AtOrAfter(p, start))
  {
    BelowExtends(n, full, s, k);
    var p := Below(n, full, s)[k].path;
    if p[|full|] < start[|full|] {
      ThroughLess(full, p, start);
    } else if p[|full|] > start[|full|] {
      assert p[..|full|] == full == start[..|full|];
      SharedAt(p, start, |full|);
    }
  }

  /** A child below the key's next index may be dropped. */
  lemma Prune(n: Node, full: Path, s: set<Index>, start: Path)
    requires s <= n.children.Keys && full < start && s != {} && Min(s) < start[|full|]
    ensures From(Below(n, full, s), start) == From(Below(n, full, s - {Min(s)}), start)
  {
    var i := Min(s);
    var first := Listing(n.children[i].node, full + [i]);
    forall k | 0 <= k < |first| ensures Less(first[k].path, start) {
      ListingExtends(n.children[i].node, full + [i], k);
      var p := first[k].path;
      assert p[|full|] == p[..|full| + 1][|full|] == i && full <= full + [i];
      ThroughLess(full, p, start);
    }
    FromNone(first, start);
    FromConcat(first, Below(n, full, s - {i}), start);
  }

  /** Children above the key's next index are in. */
  lemma Above(n: Node, full: Path, s: set<Index>, start: Path)
    requires s <= n.children.Keys && full < start && forall j :: j in s ==> j > start[|full|]
    ensures AllAtOrAfter(Below(n, full, s), start)
  {
    var below := Below(n, full, s);
    forall k | 0 <= k < |below| ensures AtOrAfter(below[k].path, start) {
      ChildSide(n, full, s, start, k);
    }
  }

  lemma AllConcat(a: seq<Visit>, b: seq<Visit>, start: Path)
    requires AllAtOrAfter(a, start) && AllAtOrAfter(b, start)
    ensures AllAtOrAfter(a + b, start) && From(a + b, start) == a + b
  {
    FromAll(a + b, start);
  }

  /** The walk on its way to the start key: the top node is in hand and all beneath the stack's top is in. */
  ghost predicate OnTheWay(frames: seq<WalkFrame>, buf: Path, start: Path) {
    Fits(frames, buf) && frames != [] &&
    var last := |frames| - 1;
    frames[last].pathLen == |buf| && frames[last].remaining == frames[last].node.children.Keys &&
    Fits(frames[..last], buf) && AllAtOrAfter(StackTodo(frames[..last], buf), start)
  }

  /** What is still to come, the node in hand included, from the start key on. */
  ghost function Ahead(frames: seq<WalkFrame>, buf: Path, start: Path): seq<Visit>
    requires OnTheWay(frames, buf, start)
  {
    From([Visit(buf, frames[|frames| - 1].node)] + StackTodo(frames, buf), start)
  }

  /**
   * Where a path stands towards the start key: at it or past it with everything beneath, a proper
   * prefix of it, or before it with everything beneath.
   */
  datatype Side = AtOrPast | Within | Short

  function SideOf(path: Path, start: Path): Side {
    var o := SharedLen(path, start);
    if o == |start| then AtOrPast
    else if o == |path| then Within
    else if path[o] > start[o] then AtOrPast
    else Short
  }

  lemma SideMeaning(path: Path, start: Path)
    ensures SideOf(path, start) == Within ==> path < start
  {
    SharedPrefix(path, start);
  }

  /** The ways a seek ends. */
  lemma SeekArrives(frames: seq<WalkFrame>, buf: Path, start: Path)
    requires OnTheWay(frames, buf, start) && SideOf(buf, start) == AtOrPast
    ensures Ahead(frames, buf, start) == [Visit(buf, frames[|frames| - 1].node)] + StackTodo(frames, buf)
  {
    var top, lower := frames[|frames| - 1], frames[..|frames| - 1];
    assert buf[..|buf|] == buf;
    SharedPrefix(buf, start);
    if SharedLen(buf, start) == |start| {
      AtStart(top.node, buf, top.remaining, start);
    } else {
      Diverged(top.node, buf, top.remaining, start);
    }
    AllConcat(Below(top.node, buf, top.remaining), StackTodo(lower, buf), start);
    AllConcat([Visit(buf, top.node)], StackTodo(frames, buf), start);
  }

  lemma NoneThenAll(a: seq<Visit>, b: seq<Visit>, start: Path)
    requires AllBefore(a, start) && AllAtOrAfter(b, start)
    ensures From(a + b, start) == b
  {
    FromNone(a, start);
    FromAll(b, start);
    FromConcat(a, b, start);
  }

  lemma TopTodo(frames: seq<WalkFrame>, buf: Path, start: Path)
    requires OnTheWay(frames, buf, start)
    ensures var n, lower := frames[|frames| - 1].node, frames[..|frames| - 1];
            StackTodo(frames, buf) == Below(n, buf, n.children.Keys) + StackTodo(lower, buf) &&
            AllAtOrAfter(StackTodo(lower, buf), start)
  {
    assert buf[..|buf|] == buf;
  }

  lemma PassAll(v: Visit, below: seq<Visit>, lower: seq<Visit>, start: Path)
    requires Less(v.path, start) && AllBefore(below, start) && AllAtOrAfter(lower, start)
    ensures From([v] + (below + lower), start) == lower
  {
    NoneThenAll(below, lower, start);
    assert [v][1..] == [];
    FromConcat([v], below + lower, start);
    assert From([v], start) == [];
  }

  lemma SeekPasses(frames: seq<WalkFrame>, buf: Path, start: Path)
    requires OnTheWay(frames, buf, start) && SideOf(buf, start) == Short
    ensures Ahead(frames, buf, start) == StackTodo(frames[..|frames| - 1], buf)
  {
    var n := frames[|frames| - 1].node;
    Diverged(n, buf, n.children.Keys, start);
    TopTodo(frames, buf, start);
    PassAll(Visit(buf, n), Below(n, buf, n.children.Keys), StackTodo(frames[..|frames| - 1], buf), start);
  }

  /** Pruning the top node on a proper prefix of the start key. */
  lemma SeekPrunes(frames: seq<WalkFrame>, buf: Path, start: Path, kept: set<Index>)
    requires OnTheWay(frames, buf, start) && buf < start
    requires kept <= frames[|frames| - 1].node.children.Keys
    requires var n := frames[|frames| - 1].node;
             From(Below(n, buf, n.children.Keys), start) == From(Below(n, buf, kept), start)
    ensures var last := |frames| - 1;
            var frames' := frames[last := frames[last].(remaining := kept)];
            Fits(frames', buf) && frames'[..last] == frames[..last] &&
            StackTodo(frames', buf) == Below(frames[last].node, buf, kept) + StackTodo(frames[..last], buf) &&
            Ahead(frames, buf, start) == From(StackTodo(frames', buf), start)
  {
    var last := |frames| - 1;
    var top, lower := frames[last], frames[..last];
    var n := top.node;
    assert buf[..|buf|] == buf;
    var frames' := frames[last := top.(remaining := kept)];
    assert frames' == lower + [top.(remaining := kept)];
    StackTop(lower, top.(remaining := kept), buf);
    SharedPrefix(buf, start);
    FromNone([Visit(buf, n)], start);
    FromConcat([Visit(buf, n)], StackTodo(frames, buf), start);
    FromConcat(Below(n, buf, n.children.Keys), StackTodo(lower, buf), start);
    FromConcat(Below(n, buf, kept), StackTodo(lower, buf), start);
  }

  lemma {:induction false} BelowSubset(n: Node, full: Path, t: set<Index>, s: set<Index>)
    requires t <= s <= n.children.Keys
    ensures |Below(n, full, t)| <= |Below(n, full, s)|
    decreases |s|
  {
    if t != {} {
      var i := Min(s);
      if i in t {
        assert Min(t) == i;
        BelowSubset(n, full, t - {i}, s - {i});
      } else {
        BelowSubset(n, full, t, s - {i});
      }
    }
  }

  lemma SeekShrinks(frames: seq<WalkFrame>, buf: Path, start: Path, kept: set<Index>)
    requires OnTheWay(frames, buf, start) && kept <= frames[|frames| - 1].node.children.Keys
    ensures var last := |frames| - 1;
            var frames' := frames[last := frames[last].(remaining := kept)];
            Fits(frames', buf) && |StackTodo(frames', buf)| <= |StackTodo(frames, buf)|
  {
    var last := |frames| - 1;
    var frames' := frames[last := frames[last].(remaining := kept)];
    assert frames'[..last] == frames[..last];
    BelowSubset(frames[last].node, buf[..|buf|], kept, frames[last].node.children.Keys);
  }

  /** Descending into the child on the start key's own index. */
  lemma SeekDescends(frames: seq<WalkFrame>, buf: Path, start: Path)
    requires Fits(frames, buf) && frames != [] && buf < start
    requires frames[|frames| - 1].pathLen == |buf|
    requires AllAtOrAfter(StackTodo(frames[..|frames| - 1], buf), start)
    requires var kept := frames[|frames| - 1].remaining;
             start[|buf|] in kept && forall j :: j in kept ==> j >= start[|buf|]
    ensures var (frames', buf') := Entered(frames, buf);
            OnTheWay(frames', buf', start) &&
            Ahead(frames', buf', start) == From(StackTodo(frames, buf), start) &&
            |StackTodo(frames', buf')| < |StackTodo(frames, buf)|
  {
    var last := |frames| - 1;
    var top, lower := frames[last], frames[..last];
    var si := start[|buf|];
    assert Min(top.remaining) == si;
    var mid := top.(remaining := top.remaining - {si});
    var (frames', buf') := Entered(frames, buf);
    StackEnter(frames, buf);
    EnteredFits(frames, buf);
    assert buf[..|buf|] == buf;
    assert buf'[..|buf|] == buf;
    assert frames'[..last + 1] == lower + [mid];
    StackTop(lower + [mid], frames'[last + 1], buf');
    StackTop(lower, mid, buf');
    StackTodoLocal(lower, buf, buf');
    Above(top.node, buf, mid.remaining, start);
    AllConcat(Below(top.node, buf, mid.remaining), StackTodo(lower, buf), start);
    assert frames' == (lower + [mid]) + [frames'[last + 1]];
  }

  ghost predicate Kept(n: Node, buf: Path, start: Path, kept: set<Index>)
    requires buf < start
  {
    kept == (set j | j in n.children && j >= start[|buf|]) &&
    From(Below(n, buf, n.children.Keys), start) == From(Below(n, buf, kept), start)
  }

  /** After pruning: either the key's own child is entered next, or all that is left is in. */
  lemma SeekTurn(frames: seq<WalkFrame>, buf: Path, start: Path, kept: set<Index>)
    requires OnTheWay(frames, buf, start) && buf < start && Kept(frames[|frames| - 1].node, buf, start, kept)
    ensures var last := |frames| - 1;
            var pruned := frames[last := frames[last].(remaining := kept)];
            Fits(pruned, buf) &&
            if start[|buf|] in kept then
              var (frames', buf') := Entered(pruned, buf);
              OnTheWay(frames', buf', start) &&
              Ahead(frames', buf', start) == Ahead(frames, buf, start) &&
              |StackTodo(frames', buf')| < |StackTodo(frames, buf)|
            else StackTodo(pruned, buf) == Ahead(frames, buf, start)
  {
    var last := |frames| - 1;
    var pruned := frames[last := frames[last].(remaining := kept)];
    SeekPrunes(frames, buf, start, kept);
    SeekShrinks(frames, buf, start, kept);
    if start[|buf|] in kept {
      SeekDescends(pruned, buf, start);
    } else {
      Above(frames[last].node, buf, kept, start);
      AllConcat(Below(frames[last].node, buf, kept), StackTodo(frames[..last], buf), start);
    }
  }

  /** The child entered is the first remaining one, by its full path. */
  lemma EntersFirst(frames: seq<WalkFrame>, buf: Path)
    requires Fits(frames, buf) && frames != [] && frames[|frames| - 1].remaining != {}
    requires frames[|frames| - 1].pathLen == |buf|
    ensures StackTodo(frames, buf) != []
    ensures var top, (frames', buf') := frames[|frames| - 1], Entered(frames, buf);
            var i := Min(top.remaining);
            frames' != [] && frames'[|frames'| - 1].node == top.node.children[i].node &&
            buf' == buf + [i] + top.node.children[i].node.path
  {
    StackEnter(frames, buf);
    assert buf[..|buf|] == buf;
  }

  /** The node has a child on the key's next index. */
  predicate Leads(n: Node, buf: Path, key: Path)
    requires buf < key
  {
    key[|buf|] in n.children
  }

  /** One turn of the seek, as a whole. */
  ghost predicate Turned(frames: seq<WalkFrame>, buf: Path, key: Path, frames': seq<WalkFrame>, buf': Path)
    requires OnTheWay(frames, buf, key) && buf < key && Leads(frames[|frames| - 1].node, buf, key)
  {
    var c := frames[|frames| - 1].node.children[key[|buf|]].node;
    OnTheWay(frames', buf', key) && Ahead(frames', buf', key) == Ahead(frames, buf, key) &&
    |StackTodo(frames', buf')| < |StackTodo(frames, buf)| &&
    frames'[|frames'| - 1].node == c && buf' == buf + [key[|buf|]] + c.path
  }

  lemma TurnDown(frames: seq<WalkFrame>, buf: Path, key: Path, kept: set<Index>)
    requires OnTheWay(frames, buf, key) && buf < key && Kept(frames[|frames| - 1].node, buf, key, kept)
    requires key[|buf|] in kept
    ensures var last := |frames| - 1;
            var pruned := frames[last := frames[last].(remaining := kept)];
            Fits(pruned, buf) && Turned(frames, buf, key, Entered(pruned, buf).0, Entered(pruned, buf).1)
  {
    var last := |frames| - 1;
    var pruned := frames[last := frames[last].(remaining := kept)];
    SeekTurn(frames, buf, key, kept);
    EntersFirst(pruned, buf);
  }

  // ----- how many nodes a walk reads

  /** How many visits there are up to and including the first that `stop` holds of. */
  ghost function Through(s: seq<Visit>, stop: Visit -> bool): nat {
    if s == [] then 0 else if stop(s[0]) then 1 else 1 + Through(s[1..], stop)
  }

  lemma {:induction false} ThroughFirst(s: seq<Visit>, stop: Visit -> bool)
    ensures var k := Through(s, stop);
            k <= |s| && (forall j :: 0 <= j < k - 1 ==> !stop(s[j])) &&
            (k == |s| || (k > 0 && stop(s[k - 1])))
  {
    if s != [] && !stop(s[0]) {
      ThroughFirst(s[1..], stop);
      assert forall j :: 1 <= j < |s| ==> s[j] == s[1..][j - 1];
    }
  }

  /** The descent towards a start key ends on a node that is itself at or past the key. */
  ghost predicate Lands(n: Node, key: Path)
    decreases n
  {
    if Descends(n, key) then Lands(Next(n, key), After(n, key)) else SideOf(n.path, key) == AtOrPast
  }

  ghost function KeyOf(start: Option<Path>): Path {
    if start.Some? then start.value else []
  }

  lemma FirstReads(root: Root, start: Option<Path>)
    requires root.Some?
    ensures VisitReads(root, start, v => true) == SeekReads(root.value, KeyOf(start), VisitsFrom(root, start))
  {}

  /** Which side a path is on does not depend on where it starts. */
  lemma SideLead(lead: Path, path: Path, rest: Path)
    ensures SideOf(lead + path, lead + rest) == SideOf(path, rest)
  {
    SharedLead(lead, path, rest);
    var o := SharedLen(path, rest);
    if o < |path| && o < |rest| {
      assert (lead + path)[|lead| + o] == path[o] && (lead + rest)[|lead| + o] == rest[o];
    }
  }

  /** A key leads on through a node exactly within it. */
  lemma WithinDescends(n: Node, rest: Path)
    ensures SideOf(n.path, rest) == Within <==> n.path < rest
  {
    SharedPrefix(n.path, rest);
  }

  /** The reads a walk makes up to the first visit `stop` holds of: one for each edge it follows. */
  ghost function VisitReads(root: Root, start: Option<Path>, stop: Visit -> bool): nat {
    if root.None? then 0 else
      var key, visits := KeyOf(start), Through(VisitsFrom(root, start), stop);
      Descents(root.value, key) + if Lands(root.value, key) && visits > 0 then visits - 1 else visits
  }

  /** The reads of a seek: the descent, and one more if it has to step on. */
  ghost function SeekReads(n: Node, key: Path, ahead: seq<Visit>): nat {
    Descents(n, key) + if Lands(n, key) || ahead == [] then 0 else 1
  }

  /** `n` is the node in hand with the full path `buf`, and `rest` is the key seen from its slot. */
  ghost predicate Towards(n: Node, buf: Path, key: Path, lead: Path, rest: Path) {
    buf == lead + n.path && key == lead + rest
  }

  /** Reads `r0` up to `r` have led from `from` to `n` on the way to the key. */
  ghost predicate Approached(failing: nat -> bool, r0: nat, r: nat, from: Node, key: Path, n: Node, buf: Path,
                             lead: Path, rest: Path) {
    Descending(failing, r0, r, from, key, n, rest) && Towards(n, buf, key, lead, rest) &&
    Lands(n, rest) == Lands(from, key)
  }

  lemma OnTowards(n: Node, buf: Path, key: Path, lead: Path, rest: Path)
    requires Towards(n, buf, key, lead, rest)
    ensures SideOf(buf, key) == SideOf(n.path, rest)
    ensures SideOf(buf, key) == Within <==> n.path < rest
    ensures n.path < rest ==>
      buf < key && key[|buf|] == rest[|n.path|] &&
      forall c: Node :: Towards(c, buf + [key[|buf|]] + c.path, key, lead + n.path + [rest[|n.path|]], After(n, rest))
  {
    SideLead(lead, n.path, rest);
    WithinDescends(n, rest);
    if n.path < rest {
      SplitKey(n, rest);
    }
  }

  /** Reads `from` up to `to`, none of which failed, are all of `total` but the `left` still to be made. */
  ghost predicate Reading(failing: nat -> bool, from: nat, to: nat, left: nat, total: nat) {
    from <= to && NoneFails(failing, from, to) && to + left == from + total
  }

  /** The next call's reads, added to those made so far. */
  lemma ReadsOn(failing: nat -> bool, from: nat, to: nat, to': nat, next: nat, left: nat, total: nat, failed: bool)
    requires Reading(failing, from, to, left, total) && Calls(failing, to, to', next, failed) && next <= left
    ensures if failed then Calls(failing, from, to', total, true)
            else Reading(failing, from, to', left - next, total)
    ensures !failed && next == left ==> Calls(failing, from, to', total, false)
  {}

  class Walk {
    const store: Store
    var frames: seq<WalkFrame>
    var buf: Path
    var root: Root
    var state: State
    var start: Option<Path>

    /** Between calls the walk is never left seeking. */
    ghost predicate Valid()
      reads this
    {
      state != Seeking && (state == Walking ==> Fits(frames, buf)) &&
      (state == Fresh ==> frames == [] && buf == [])
    }

    /** The visits still to come. */
    ghost function Todo(): seq<Visit>
      reads this
      requires Valid()
    {
      if state == Fresh then
        VisitsFrom(root, start)
      else if state == Walking then StackTodo(frames, buf)
      else []
    }

    /** The reads the next call makes. */
    ghost function NextReads(): nat
      reads this
      requires Valid()
    {
      if state == Fresh then VisitReads(root, start, v => true) else One(Todo() != [])
    }

    /** The reads up to the first visit `stop` holds of. */
    ghost function ReadsThrough(stop: Visit -> bool): nat
      reads this
      requires Valid()
    {
      if state == Fresh then VisitReads(root, start, stop) else Through(Todo(), stop)
    }

    /** The reads of the first visit, and then the rest. */
    lemma ReadsSplit(stop: Visit -> bool)
      requires Valid()
      ensures Todo() == [] ==> ReadsThrough(stop) == NextReads()
      ensures Todo() != [] ==>
        ReadsThrough(stop) == NextReads() + if stop(Todo()[0]) then 0 else Through(Todo()[1..], stop)
    {}

    constructor (store: Store, root: Root, start: Option<Path>)
      ensures Valid() && this.store == store
      ensures Todo() == VisitsFrom(root, start)
      ensures forall stop: Visit -> bool :: ReadsThrough(stop) == VisitReads(root, start, stop)
    {
      this.store := store;
      this.root, this.start := root, start;
      frames, buf, state := [], [], Fresh;
    }

    /** Turns the first visit the stack stands for into its new top. */
    method Enter() returns (r: Result<Visit>)
      requires Fits(frames, buf) && frames != [] && frames[|frames| - 1].remaining != {}
      modifies this`frames, this`buf, store`readCalls
      ensures r.Ok? ==> Fits(frames, buf) && (frames, buf) == old(Entered(frames, buf)) && frames != []
      ensures r.Ok? ==> r.value == Visit(buf, frames[|frames| - 1].node)
      ensures r.Ok? ==> old(StackTodo(frames, buf)) == [r.value] + StackTodo(frames, buf)
      ensures old(StackTodo(frames, buf)) != []
      ensures store.Failures() == old(store.Failures()) + One(r.Err?)
      ensures Calls(store.readFails, old(store.readCalls), store.readCalls, 1, r.Err?)
    {
      StackEnter(frames, buf);
      var last := |frames| - 1;
      var top := frames[last];
      var i := Min(top.remaining);
      frames := frames[last := top.(remaining := top.remaining - {i})];
      buf := buf[..top.pathLen] + [i];
      var read := store.Read(top.node.children[i]);
      if read.Err? {
        return Err;
      }
      var child := read.value;
      buf := buf + child.path;
      frames := frames + [WalkFrame(child, |buf|, child.children.Keys)];
      return Ok(Visit(buf, child));
    }

    /** Pops the nodes on top that have no child left. */
    method PopFinished()
      requires Fits(frames, buf)
      modifies this`frames
      ensures Fits(frames, buf) && StackTodo(frames, buf) == old(StackTodo(frames, buf))
      ensures frames != [] ==> frames[|frames| - 1].remaining != {}
      ensures old(frames != [] && frames[|frames| - 1].remaining != {}) ==> frames == old(frames)
    {
      while frames != [] && frames[|frames| - 1].remaining == {}
        invariant Fits(frames, buf) && StackTodo(frames, buf) == old(StackTodo(frames, buf))
        invariant frames == old(frames) || old(frames != [] && frames[|frames| - 1].remaining == {})
        decreases |frames|
      {
        frames := frames[..|frames| - 1];
      }
    }

    /** Takes the first visit off what the stack stands for; nothing left empties the stack. */
    method Step() returns (r: Result<Option<Visit>>)
      requires Fits(frames, buf)
      modifies this`frames, this`buf, store`readCalls
      ensures r.Ok? && r.value.Some? ==>
                Fits(frames, buf) && buf == r.value.value.path &&
                old(StackTodo(frames, buf)) == [r.value.value] + StackTodo(frames, buf)
      ensures r.Ok? && r.value.None? ==> frames == [] && old(StackTodo(frames, buf)) == []
      ensures r.Ok? && old(frames != [] && frames[|frames| - 1].remaining != {}) ==>
                r.value.Some? && (frames, buf) == old(Entered(frames, buf)) && frames != [] &&
                r.value.value.node == frames[|frames| - 1].node
      ensures Calls(store.readFails, old(store.readCalls), store.readCalls, One(old(StackTodo(frames, buf)) != []), r.Err?)
      ensures store.Failures() == old(store.Failures()) + One(r.Err?)
    {
      PopFinished();
      if frames == [] {
        return Ok(None);
      }
      var child := Enter();
      return if child.Ok? then Ok(Some(child.value)) else Err;
    }

    /** Drops the children of the top node that lie before the start key. */
    method PruneTop(n: Node, start: Path) returns (kept: set<Index>)
      requires buf < start
      ensures Kept(n, buf, start, kept)
    {
      kept := n.children.Keys;
      while kept != {} && Min(kept) < start[|buf|]
        invariant kept <= n.children.Keys
        invariant forall j :: j in n.children && j >= start[|buf|] ==> j in kept
        invariant From(Below(n, buf, n.children.Keys), start) == From(Below(n, buf, kept), start)
        decreases |kept|
      {
        Prune(n, buf, kept, start);
        kept := kept - {Min(kept)};
      }
    }

    /** Resumes the plain walk once everything the stack stands for is at or after the start key. */
    method Resume(ghost ahead: seq<Visit>) returns (r: Result<Option<Visit>>)
      requires Fits(frames, buf) && StackTodo(frames, buf) == ahead
      modifies this`frames, this`buf, this`state, store`readCalls
      ensures Calls(store.readFails, old(store.readCalls), store.readCalls, One(ahead != []), r.Err?)
      ensures r.Ok? && r.value.Some? ==>
                state == Walking && Fits(frames, buf) && buf == r.value.value.path &&
                ahead == [r.value.value] + StackTodo(frames, buf)
      ensures r.Ok? && r.value.None? ==> ahead == []
      ensures store.Failures() == old(store.Failures()) + One(r.Err?)
    {
      state := Walking;
      r := Step();
    }

    /**
     * One turn of the seek on a proper prefix of the start key: into the child on the key's next
     * index, `Ok(true)`, or, if there is none, past this node.
     */
    method SeekDown(key: Path) returns (r: Result<bool>)
      requires OnTheWay(frames, buf, key) && buf < key
      modifies this`frames, this`buf, store`readCalls
      ensures r == Ok(false) ==> !old(Leads(frames[|frames| - 1].node, buf, key))
      ensures r == Ok(true) ==>
                old(Leads(frames[|frames| - 1].node, buf, key)) && Turned(old(frames), old(buf), key, frames, buf)
      ensures r == Ok(false) ==> Fits(frames, buf) && StackTodo(frames, buf) == old(Ahead(frames, buf, key))
      ensures Calls(store.readFails, old(store.readCalls), store.readCalls,
                    One(old(Leads(frames[|frames| - 1].node, buf, key))), r.Err?)
      ensures store.Failures() == old(store.Failures()) + One(r.Err?)
    {
      var last := |frames| - 1;
      var kept := PruneTop(frames[last].node, key);
      if key[|buf|] !in kept {
        SeekTurn(frames, buf, key, kept);
        frames := frames[last := frames[last].(remaining := kept)];
        return Ok(false);
      }
      TurnDown(frames, buf, key, kept);
      frames := frames[last := frames[last].(remaining := kept)];
      var entered := StepIn();
      return if entered then Ok(true) else Err;
    }

    /** A step from a node with children left enters the first of them. */
    method StepIn() returns (ok: bool)
      requires Fits(frames, buf) && frames != [] && frames[|frames| - 1].remaining != {}
      modifies this`frames, this`buf, store`readCalls
      ensures ok ==> (frames, buf) == old(Entered(frames, buf))
      ensures store.Failures() == old(store.Failures()) + One(!ok)
      ensures Calls(store.readFails, old(store.readCalls), store.readCalls, 1, !ok)
    {
      StackEnter(frames, buf);
      var step := Step();
      ok := step.Ok?;
    }

    /** The same turn, with its reads added to those of the turns before it. */
    method SeekOn(key: Path, ghost from: Node, ghost lead: Path, ghost rest: Path, ghost r0: nat)
      returns (r: Result<bool>, ghost lead': Path, ghost rest': Path)
      requires OnTheWay(frames, buf, key) && SideOf(buf, key) == Within
      requires Approached(store.readFails, r0, store.readCalls, from, key, frames[|frames| - 1].node, buf, lead, rest)
      modifies this`frames, this`buf, store`readCalls
      ensures r == Ok(true) ==>
                OnTheWay(frames, buf, key) && Ahead(frames, buf, key) == old(Ahead(frames, buf, key)) &&
                |StackTodo(frames, buf)| < |old(StackTodo(frames, buf))| &&
                Approached(store.readFails, r0, store.readCalls, from, key, frames[|frames| - 1].node, buf, lead', rest')
      ensures r == Ok(false) ==>
                Fits(frames, buf) && StackTodo(frames, buf) == old(Ahead(frames, buf, key)) && !Lands(from, key) &&
                Calls(store.readFails, r0, store.readCalls, Descents(from, key), false)
      ensures r.Err? ==> Calls(store.readFails, r0, store.readCalls, Descents(from, key), true)
      ensures store.Failures() == old(store.Failures()) + One(r.Err?)
    {
      SideMeaning(buf, key);
      ghost var n, calls, failing := frames[|frames| - 1].node, store.readCalls, store.readFails;
      OnTowards(n, buf, key, lead, rest);
      assert Descends(n, rest) <==> Leads(n, buf, key);
      r := SeekDown(key);
      lead', rest' := lead, rest;
      if Descends(n, rest) {
        DescendCalls(failing, r0, calls, from, key, n, rest, store.readCalls, r.Err?);
        lead', rest' := lead + n.path + [rest[|n.path|]], After(n, rest);
      }
    }

    /**
     * Descends towards the key as far as there are nodes within it. `Ok(true)`: the node in hand is to
     * one side of the key. `Ok(false)`: all the stack stands for is past the key.
     */
    method Approach(key: Path) returns (r: Result<bool>)
      requires OnTheWay(frames, buf, key) && buf == frames[|frames| - 1].node.path
      modifies this`frames, this`buf, store`readCalls
      ensures r == Ok(true) ==>
                OnTheWay(frames, buf, key) && Ahead(frames, buf, key) == old(Ahead(frames, buf, key)) &&
                SideOf(buf, key) != Within && (SideOf(buf, key) == AtOrPast <==> Lands(old(frames[|frames| - 1].node), key))
      ensures r == Ok(false) ==>
                Fits(frames, buf) && StackTodo(frames, buf) == old(Ahead(frames, buf, key)) &&
                !Lands(old(frames[|frames| - 1].node), key)
      ensures Calls(store.readFails, old(store.readCalls), store.readCalls,
                    Descents(old(frames[|frames| - 1].node), key), r.Err?)
      ensures store.Failures() == old(store.Failures()) + One(r.Err?)
    {
      ghost var ahead, from := Ahead(frames, buf, key), frames[|frames| - 1].node;
      ghost var lead: Path, rest := [], key;
      assert lead + from.path == from.path && lead + rest == key;
      while SideOf(buf, key) == Within
        invariant OnTheWay(frames, buf, key) && Ahead(frames, buf, key) == ahead
        invariant Approached(store.readFails, old(store.readCalls), store.readCalls, from, key,
                             frames[|frames| - 1].node, buf, lead, rest)
        invariant store.Failures() == old(store.Failures())
        decreases |StackTodo(frames, buf)|
      {
        r, lead, rest := SeekOn(key, from, lead, rest, old(store.readCalls));
        if r.Err? || !r.value {
          return;
        }
      }
      OnTowards(frames[|frames| - 1].node, buf, key, lead, rest);
      DescentEnds(store.readFails, old(store.readCalls), store.readCalls, from, key, frames[|frames| - 1].node, rest);
      r := Ok(true);
    }

    /** Descends towards the start key and returns the first node at or after it. */
    method Seek() returns (r: Result<Option<Visit>>)
      requires start.Some? && OnTheWay(frames, buf, start.value) && buf == frames[|frames| - 1].node.path
      modifies this`frames, this`buf, this`state, this`start, store`readCalls
      ensures r.Ok? && r.value.Some? ==>
                state == Walking && Fits(frames, buf) && buf == r.value.value.path &&
                old(Ahead(frames, buf, start.value)) == [r.value.value] + StackTodo(frames, buf)
      ensures r.Ok? && r.value.None? ==> old(Ahead(frames, buf, start.value)) == []
      ensures store.Failures() == old(store.Failures()) + One(r.Err?)
      ensures Calls(store.readFails, old(store.readCalls), store.readCalls,
                    old(SeekReads(frames[|frames| - 1].node, start.value, Ahead(frames, buf, start.value))), r.Err?)
    {
      var key := start.value;
      ghost var ahead := Ahead(frames, buf, key);
      start := None;
      var positioned := Approach(key);
      if positioned.Err? {
        return Err;
      }
      if positioned.value {
        r := SeekEnd(key, SideOf(buf, key), ahead);
      } else {
        r := Resume(ahead);
      }
    }

    /** The seek's last turn: the node in hand is the first one in, or its whole subtree is out. */
    method SeekEnd(key: Path, side: Side, ghost ahead: seq<Visit>) returns (r: Result<Option<Visit>>)
      requires OnTheWay(frames, buf, key) && Ahead(frames, buf, key) == ahead
      requires side == SideOf(buf, key) != Within
      modifies this`frames, this`buf, this`state, store`readCalls
      ensures r.Ok? && r.value.Some? ==>
                state == Walking && Fits(frames, buf) && buf == r.value.value.path &&
                ahead == [r.value.value] + StackTodo(frames, buf)
      ensures r.Ok? && r.value.None? ==> ahead == []
      ensures store.Failures() == old(store.Failures()) + One(r.Err?)
      ensures Calls(store.readFails, old(store.readCalls), store.readCalls, if side == AtOrPast || ahead == [] then 0 else 1, r.Err?)
    {
      var last := |frames| - 1;
      if side == AtOrPast {
        SeekArrives(frames, buf, key);
        state := Walking;
        return Ok(Some(Visit(buf, frames[last].node)));
      }
      SeekPasses(frames, buf, key);
      frames := frames[..last];
      r := Resume(ahead);
    }

    /** Starts the walk at the root: the node in hand is the root, with nothing below the stack's bottom. */
    method Begin(node: Node)
      requires state == Fresh && Valid()
      modifies this
      ensures start == old(start) && state == old(state)
      ensures frames == [WalkFrame(node, |buf|, node.children.Keys)] && buf == node.path
      ensures Fits(frames, buf) && [Visit(buf, node)] + StackTodo(frames, buf) == Listing(node, [])
      ensures forall key: Path :: OnTheWay(frames, buf, key)
    {
      root := None;
      buf := buf + node.path;
      frames := [WalkFrame(node, |buf|, node.children.Keys)];
      assert buf[..|buf|] == buf && [] + node.path == node.path;
      assert frames[..0] == [];
    }

    /** The first call on a trie: at the root, or on the way to the start key. */
    method First() returns (r: Result<Option<Visit>>)
      requires Valid() && state == Fresh && root.Some?
      modifies this, store`readCalls
      ensures r.Ok? && r.value.Some? ==>
                state == Walking && Fits(frames, buf) && buf == r.value.value.path &&
                old(VisitsFrom(root, start)) == [r.value.value] + StackTodo(frames, buf)
      ensures r.Ok? && r.value.None? ==> old(VisitsFrom(root, start)) == []
      ensures store.Failures() == old(store.Failures()) + One(r.Err?)
      ensures Calls(store.readFails, old(store.readCalls), store.readCalls,
                    old(SeekReads(root.value, KeyOf(start), VisitsFrom(root, start))), r.Err?)
    {
      var node := root.value;
      Begin(node);
      if start.Some? {
        state := Seeking;
        r := Seek();
      } else {
        state := Walking;
        WithinDescends(node, []);
        r := Ok(Some(Visit(buf, node)));
      }
    }

    /** Takes the first visit off what is still to come; the one way to lose the rest is a failed read. */
    method Advance() returns (r: Result<Option<Visit>>)
      requires Valid()
      modifies this, store`readCalls
      ensures Valid()
      ensures r.Ok? && r.value.Some? ==> old(Todo()) == [r.value.value] + Todo() && buf == r.value.value.path
      ensures r.Ok? && r.value.None? ==> old(Todo()) == [] && Todo() == []
      ensures r.Err? ==> Todo() == []
      ensures store.Failures() == old(store.Failures()) + One(r.Err?)
      ensures Calls(store.readFails, old(store.readCalls), store.readCalls, old(NextReads()), r.Err?)
      ensures forall stop: Visit -> bool :: ReadsThrough(stop) == Through(Todo(), stop)
    {
      if state == Done {
        return Ok(None);
      }
      r := Ok(None);
      if state == Walking {
        r := Step();
      } else if root.Some? {
        FirstReads(root, start);
        r := First();
      }
      if r.Err? || r.value.None? {
        state := Done;
      }
    }
  }

  // ----- the valued nodes

  /** The keys and values among some visits, in order. */
  ghost function Pairs(s: seq<Visit>): seq<(Path, Value)> {
    if s == [] then [] else
      (if s[0].node.value.Some? then [(s[0].path, s[0].node.value.value)] else []) + Pairs(s[1..])
  }

  lemma PairsCons(v: Visit, s: seq<Visit>)
    ensures Pairs([v] + s) == (if v.node.value.Some? then [(v.path, v.node.value.value)] else []) + Pairs(s)
  {
    assert ([v] + s)[1..] == s;
  }

  ghost function Valued(): Visit -> bool {
    (v: Visit) => v.node.value.Some?
  }

  /** Yields, a pair a call, what `Pairs` makes of the walk's visits. */
  class Iter {
    const walk: Walk

    constructor (store: Store, root: Root, start: Option<Path>)
      ensures fresh(walk) && walk.Valid() && walk.store == store
      ensures walk.Todo() == VisitsFrom(root, start)
    {
      walk := new Walk(store, root, start);
    }

    method Next() returns (item: Option<Result<(Path, Value)>>)
      requires walk.Valid()
      modifies walk, walk.store`readCalls
      ensures walk.Valid()
      ensures item.Some? && item.value.Ok? ==> old(Pairs(walk.Todo())) == [item.value.value] + Pairs(walk.Todo())
      ensures item.None? ==> old(Pairs(walk.Todo())) == [] && walk.Todo() == []
      ensures item.Some? && item.value.Err? ==> walk.Todo() == []
      ensures walk.store.Failures() == old(walk.store.Failures()) + One(item.Some? && item.value.Err?)
      ensures Calls(walk.store.readFails, old(walk.store.readCalls), walk.store.readCalls,
                    old(walk.ReadsThrough(Valued())), item.Some? && item.value.Err?)
    {
      while true
        invariant walk.Valid() && Pairs(walk.Todo()) == old(Pairs(walk.Todo()))
        invariant walk.store.Failures() == old(walk.store.Failures())
        invariant Reading(walk.store.readFails, old(walk.store.readCalls), walk.store.readCalls,
                          walk.ReadsThrough(Valued()), old(walk.ReadsThrough(Valued())))
        decreases |walk.Todo()|
      {
        ghost var calls, reading, left := walk.store.readCalls, walk.NextReads(), walk.ReadsThrough(Valued());
        walk.ReadsSplit(Valued());
        var next := walk.Advance();
        ReadsOn(walk.store.readFails, old(walk.store.readCalls), calls, walk.store.readCalls, reading, left,
                old(walk.ReadsThrough(Valued())), next.Err?);
        if next.Err? {
          return Some(Err);
        }
        if next.value.None? {
          return None;
        }
        var node := next.value.value.node;
        PairsCons(next.value.value, walk.Todo());
        if node.value.Some? {
          return Some(Ok((walk.buf, node.value.value)));
        }
      }
    }
  }

  /** The valued visits up to and including the first one `f` stops at. */
  ghost function Until(s: seq<Visit>, f: (Path, Node) -> bool): seq<Visit> {
    if s == [] then []
    else if s[0].node.value.None? then Until(s[1..], f)
    else if f(s[0].path, s[0].node) then [s[0]]
    else [s[0]] + Until(s[1..], f)
  }

  /** Whether `f` stops at any valued visit. */
  ghost predicate Stops(s: seq<Visit>, f: (Path, Node) -> bool) {
    exists k :: 0 <= k < |s| && s[k].node.value.Some? && f(s[k].path, s[k].node)
  }

  ghost function Stopping(f: (Path, Node) -> bool): Visit -> bool {
    (v: Visit) => v.node.value.Some? && f(v.path, v.node)
  }

  /** The visits shown are the first valued ones; `f` stops at none but the last. */
  ghost predicate Shown(s: seq<Visit>, f: (Path, Node) -> bool, seen: seq<Visit>) {
    Pairs(seen) <= Pairs(s) && |Pairs(seen)| == |seen| &&
    (forall k :: 0 <= k < |seen| ==> seen[k] in s && seen[k].node.value.Some?) &&
    (forall k :: 0 <= k < |seen| - 1 ==> !f(seen[k].path, seen[k].node)) &&
    if Stops(s, f) then seen != [] && f(seen[|seen| - 1].path, seen[|seen| - 1].node)
    else Pairs(seen) == Pairs(s)
  }

  lemma {:induction false} UntilMeans(s: seq<Visit>, f: (Path, Node) -> bool)
    ensures Shown(s, f, Until(s, f))
  {
    if s != [] {
      UntilMeans(s[1..], f);
      assert s == [s[0]] + s[1..];
      ShownCons(s[0], s[1..], f, Until(s[1..], f));
    }
  }

  lemma ShownCons(v: Visit, s: seq<Visit>, f: (Path, Node) -> bool, seen: seq<Visit>)
    requires Shown(s, f, seen)
    ensures v.node.value.None? ==> Shown([v] + s, f, seen)
    ensures v.node.value.Some? && f(v.path, v.node) ==> Shown([v] + s, f, [v])
    ensures v.node.value.Some? && !f(v.path, v.node) ==> Shown([v] + s, f, [v] + seen)
  {
    UntilCons([], v, s, f);
    PairsCons(v, s);
    PairsCons(v, seen);
    PairsCons(v, []);
    assert [v] + [] == [v];
  }

  lemma UntilCons(seen: seq<Visit>, v: Visit, s: seq<Visit>, f: (Path, Node) -> bool)
    ensures Until([v] + s, f) == if v.node.value.None? then Until(s, f)
                                 else if f(v.path, v.node) then [v] else [v] + Until(s, f)
    ensures seen + ([v] + Until(s, f)) == (seen + [v]) + Until(s, f)
    ensures Stops([v] + s, f) <==> (v.node.value.Some? && f(v.path, v.node)) || Stops(s, f)
  {
    var t := [v] + s;
    assert t[1..] == s && t[0] == v;
    if k :| 0 <= k < |s| && s[k].node.value.Some? && f(s[k].path, s[k].node) {
      assert t[k + 1] == s[k];
    }
    if k :| 0 <= k < |t| && t[k].node.value.Some? && f(t[k].path, t[k].node) {
      assert k > 0 ==> s[k - 1] == t[k];
    }
  }

  /** Shows `f` the valued visits in order, up to the first it stops at. */
  method VisitEach(root: Root, store: Store, start: Option<Path>, f: (Path, Node) -> bool)
    returns (r: Result<bool>, ghost seen: seq<Visit>)
    modifies store`readCalls
    ensures seen <= Until(VisitsFrom(root, start), f)
    ensures r.Ok? ==> seen == Until(VisitsFrom(root, start), f) && r.value == Stops(VisitsFrom(root, start), f)
    ensures Calls(store.readFails, old(store.readCalls), store.readCalls, VisitReads(root, start, Stopping(f)), r.Err?)
    ensures store.Failures() == old(store.Failures()) + One(r.Err?)
  {
    var walk := new Walk(store, root, start);
    ghost var all := Until(walk.Todo(), f);
    ghost var stops := Stops(walk.Todo(), f);
    seen := [];
    assert [] + all == all;
    while true
      invariant walk.Valid() && fresh(walk) && walk.store == store
      invariant seen + Until(walk.Todo(), f) == all && Stops(walk.Todo(), f) == stops
      invariant Reading(store.readFails, old(store.readCalls), store.readCalls, walk.ReadsThrough(Stopping(f)),
                        VisitReads(root, start, Stopping(f)))
      invariant store.Failures() == old(store.Failures())
      decreases |walk.Todo()|
    {
      ghost var calls, reading, left := store.readCalls, walk.NextReads(), walk.ReadsThrough(Stopping(f));
      walk.ReadsSplit(Stopping(f));
      var next := walk.Advance();
      ReadsOn(store.readFails, old(store.readCalls), calls, store.readCalls, reading, left,
              VisitReads(root, start, Stopping(f)), next.Err?);
      if next.Err? {
        return Err, seen;
      }
      if next.value.None? {
        return Ok(false), seen;
      }
      var v := next.value.value;
      UntilCons(seen, v, walk.Todo(), f);
      if v.node.value.Some? {
        seen := seen + [v];
        if f(v.path, v.node) {
          return Ok(true), seen;
        }
      }
    }
  }

  // ----- what the whole iteration amounts to

  lemma {:induction false} FromIn(s: seq<Visit>, start: Path, v: Visit)
    ensures v in From(s, start) <==> v in s && AtOrAfter(v.path, start)
  {
    if s != [] {
      FromIn(s[1..], start, v);
      assert s == [s[0]] + s[1..];
    }
  }

  lemma {:induction false} FromAscends(s: seq<Visit>, start: Path)
    requires Ascending(s)
    ensures Ascending(From(s, start))
  {
    if s != [] {
      var rest := From(s[1..], start);
      FromAscends(s[1..], start);
      forall k | 0 <= k < |rest| ensures Less(s[0].path, rest[k].path) {
        FromIn(s[1..], start, rest[k]);
        var j :| 0 <= j < |s[1..]| && s[1..][j] == rest[k];
        assert s[j + 1] == rest[k];
      }
      AscendingConcat(if AtOrAfter(s[0].path, start) then [s[0]] else [], rest);
    }
  }

  lemma {:induction false} PairsIn(s: seq<Visit>, key: Path, v: Value)
    ensures (key, v) in Pairs(s) <==> exists n: Node :: Visit(key, n) in s && n.value == Some(v)
  {
    if s != [] {
      assert s == [s[0]] + s[1..];
      PairsIn(s[1..], key, v);
      if exists n: Node :: Visit(key, n) in s && n.value == Some(v) {
        var n: Node :| Visit(key, n) in s && n.value == Some(v);
        assert Visit(key, n) == s[0] || Visit(key, n) in s[1..];
      }
      if s[0].node.value == Some(v) && s[0].path == key {
        assert Visit(key, s[0].node) in s;
      }
    }
  }

  ghost predicate KeysAscend(s: seq<(Path, Value)>) {
    forall j, k :: 0 <= j < k < |s| ==> Less(s[j].0, s[k].0)
  }

  lemma {:induction false} PairsAscend(s: seq<Visit>)
    requires Ascending(s)
    ensures KeysAscend(Pairs(s))
  {
    if s != [] {
      var rest := Pairs(s[1..]);
      PairsAscend(s[1..]);
      forall k | 0 <= k < |rest| ensures Less(s[0].path, rest[k].0) {
        PairsIn(s[1..], rest[k].0, rest[k].1);
        var n: Node :| Visit(rest[k].0, n) in s[1..] && n.value == Some(rest[k].1);
        var j :| 0 <= j < |s[1..]| && s[1..][j] == Visit(rest[k].0, n);
        assert s[j + 1] == Visit(rest[k].0, n);
      }
    }
  }

  /**
   * Iteration from a start key yields exactly the stored entries at or after it, in strictly
   * ascending order, so each of them once.
   */
  lemma IterationIsContents(root: Root, start: Path)
    ensures var all := Pairs(From(ListingRoot(root), start));
            KeysAscend(all) &&
            forall key: Path, v: Value :: (key, v) in all <==>
              key in Contents(root) && Contents(root)[key] == v && AtOrAfter(key, start)
  {
    var listing := ListingRoot(root);
    if root.Some? {
      ListingAscends(root.value, []);
    }
    FromAscends(listing, start);
    PairsAscend(From(listing, start));
    forall key: Path, v: Value
      ensures (key, v) in Pairs(From(listing, start)) <==>
              key in Contents(root) && Contents(root)[key] == v && AtOrAfter(key, start) {
      EntryListed(root, start, key, v);
      ContentsAt(root, key);
    }
  }

  lemma EntryListed(root: Root, start: Path, key: Path, v: Value)
    ensures (key, v) in Pairs(From(ListingRoot(root), start)) <==>
            FindAt(root, key) == Some(v) && AtOrAfter(key, start)
  {
    var all := From(ListingRoot(root), start);
    PairsIn(all, key, v);
    assert [] + key == key;
    if (key, v) in Pairs(all) {
      var n: Node :| Visit(key, n) in all && n.value == Some(v);
      FromIn(ListingRoot(root), start, Visit(key, n));
      ListingFinds(root.value, [], key, n);
    }
    if FindAt(root, key) == Some(v) && AtOrAfter(key, start) {
      var n := FindNode(root.value, key).value;
      ListingFinds(root.value, [], key, n);
      FromIn(ListingRoot(root), start, Visit(key, n));
    }
  }

  /** Starting from the empty path leaves nothing out. */
  lemma FromStart(root: Root)
    ensures From(ListingRoot(root), []) == ListingRoot(root)
  {
    FromAll(ListingRoot(root), []);
  }
}
