/** Structural validation: the first violation in pre-order. */
module Validation {
  import opened Wrappers
  import opened Paths
  import opened Mins
  import opened Nodes
  import opened Stores
  import opened PreOrder
  import opened Iteration

  datatype ViolationKind = ValuelessSingleChild | ValuelessLeaf

  datatype Violation = Violation(path: Path, kind: ViolationKind)

  datatype Verdict = Sane | Invalid(violation: Violation) | StoreFailed

  /** How one node breaks the structural invariant, if it does. */
  function Breaks(n: Node): Option<ViolationKind> {
    if n.value.Some? then None
    else if |n.children| == 0 then Some(ValuelessLeaf)
    else if |n.children| == 1 then Some(ValuelessSingleChild)
    else None
  }

  ghost predicate Clean(s: seq<Visit>) {
    forall k :: 0 <= k < |s| ==> Breaks(s[k].node) == None
  }

  lemma CleanConcat(a: seq<Visit>, b: seq<Visit>)
    ensures Clean(a + b) <==> Clean(a) && Clean(b)
  {
    if Clean(a + b) {
      forall k | 0 <= k < |a| ensures Breaks(a[k].node) == None {
        assert (a + b)[k] == a[k];
      }
      forall k | 0 <= k < |b| ensures Breaks(b[k].node) == None {
        assert (a + b)[|a| + k] == b[k];
      }
    }
  }

  /** The verdict names the first visit that breaks the invariant. */
  ghost predicate IsVerdict(r: Verdict, s: seq<Visit>) {
    match r
    case Sane => Clean(s)
    case Invalid(v) =>
      exists k :: 0 <= k < |s| && s[k].path == v.path && Breaks(s[k].node) == Some(v.kind) &&
                  forall j :: 0 <= j < k ==> Breaks(s[j].node) == None
    case StoreFailed => true
  }

  lemma VerdictCons(r: Verdict, v: Visit, s: seq<Visit>)
    ensures Breaks(v.node) == None && IsVerdict(r, s) ==> IsVerdict(r, [v] + s)
    ensures Breaks(v.node).Some? ==> IsVerdict(Invalid(Violation(v.path, Breaks(v.node).value)), [v] + s)
  {
    var t := [v] + s;
    assert forall k :: 1 <= k < |t| ==> t[k] == s[k - 1];
    if Breaks(v.node).Some? {
      assert t[0] == v;
    } else if IsVerdict(r, s) && r.Invalid? {
      var k :| 0 <= k < |s| && s[k].path == r.violation.path && Breaks(s[k].node) == Some(r.violation.kind) &&
               forall j :: 0 <= j < k ==> Breaks(s[j].node) == None;
      assert t[k + 1] == s[k];
    }
  }

  /** A trie is settled exactly when no visit breaks the invariant. */
  lemma {:induction false} ListingSettled(n: Node, lead: Path)
    ensures Settled(n) <==> Clean(Listing(n, lead))
    decreases n, 1, 0
  {
    var full := lead + n.path;
    BelowSettled(n, full, n.children.Keys);
    CleanConcat([Visit(full, n)], Below(n, full, n.children.Keys));
    assert Clean([Visit(full, n)]) <==> Breaks(n) == None by {
      assert [Visit(full, n)][0].node == n;
    }
  }

  lemma {:induction false} BelowSettled(n: Node, full: Path, s: set<Index>)
    requires s <= n.children.Keys
    ensures (forall i :: i in s ==> Settled(n.children[i].node)) <==> Clean(Below(n, full, s))
    decreases n, 0, |s|
  {
    if s != {} {
      var i := Min(s);
      ListingSettled(n.children[i].node, full + [i]);
      BelowSettled(n, full, s - {i});
      CleanConcat(Listing(n.children[i].node, full + [i]), Below(n, full, s - {i}));
      assert s == {i} + (s - {i});
    }
  }

  /** A verdict other than a store failure is `Sane` exactly on settled tries. */
  lemma VerdictDecides(root: Root, r: Verdict)
    requires IsVerdict(r, ListingRoot(root)) && !r.StoreFailed?
    ensures r.Sane? <==> SettledRoot(root)
  {
    if root.Some? {
      ListingSettled(root.value, []);
    }
  }

  /** A node that is neither valued nor branching. */
  predicate Superfluous(n: Node) {
    n.value.None? && |n.children| < 2
  }

  ghost function AtFault(): Visit -> bool {
    (v: Visit) => Superfluous(v.node)
  }

  /**
   * The node at the path named has no value, and no child or one as the kind says; every node whose
   * path sorts before it has a value or two children.
   */
  ghost predicate FirstAtFault(root: Node, v: Violation) {
    (match FindNode(root, v.path)
     case None => false
     case Some(n) => n.value.None? && |n.children| == (if v.kind.ValuelessLeaf? then 0 else 1)) &&
    forall key: Path :: FindNode(root, key).Some? && Less(key, v.path) ==>
      !Superfluous(FindNode(root, key).value)
  }

  /** What the listing holds, by position, is what lookup finds. */
  lemma ListedAt(root: Node, k: nat)
    requires k < |Listing(root, [])|
    ensures var v := Listing(root, [])[k]; FindNode(root, v.path) == Some(v.node)
  {
    var v := Listing(root, [])[k];
    assert [] + v.path == v.path;
    ListingFinds(root, [], v.path, v.node);
  }

  /** What lookup finds before a listed path is listed before it. */
  lemma ListedBefore(root: Node, key: Path, k: nat) returns (j: nat)
    requires k < |Listing(root, [])| && FindNode(root, key).Some? && Less(key, Listing(root, [])[k].path)
    ensures j < k && Listing(root, [])[j] == Visit(key, FindNode(root, key).value)
  {
    var s, v := Listing(root, []), Visit(key, FindNode(root, key).value);
    assert [] + key == key;
    ListingFinds(root, [], key, v.node);
    assert v in s;
    j :| 0 <= j < |s| && s[j] == v;
    ListingAscends(root, []);
    LessTotal(key, s[k].path);
  }

  /** What a violation found in the listing says of the trie. */
  lemma VerdictMeans(root: Root, r: Verdict)
    requires IsVerdict(r, ListingRoot(root)) && r.Invalid?
    ensures root.Some? && FirstAtFault(root.value, r.violation)
  {
    var n, v, s := root.value, r.violation, ListingRoot(root);
    var k :| 0 <= k < |s| && s[k].path == v.path && Breaks(s[k].node) == Some(v.kind) &&
             forall j :: 0 <= j < k ==> Breaks(s[j].node) == None;
    ListedAt(n, k);
    forall key: Path | FindNode(n, key).Some? && Less(key, v.path) ensures !Superfluous(FindNode(n, key).value) {
      var j := ListedBefore(n, key, k);
      assert Breaks(s[j].node) == None;
    }
  }

  /** The first violation in pre-order, by full path, or none. */
  method Validate(root: Root, store: Store) returns (r: Verdict)
    modifies store`readCalls
    ensures IsVerdict(r, ListingRoot(root))
    ensures !r.StoreFailed? ==> (r.Sane? <==> SettledRoot(root))
    ensures r.Invalid? ==> root.Some? && FirstAtFault(root.value, r.violation)
    ensures Calls(store.readFails, old(store.readCalls), store.readCalls,
                  VisitReads(root, None, AtFault()), r.StoreFailed?)
    ensures store.Failures() == old(store.Failures()) + One(r.StoreFailed?)
  {
    var walk := new Walk(store, root, None);
    while true
      invariant walk.Valid() && fresh(walk) && walk.store == store && store.Failures() == old(store.Failures())
      invariant Reading(store.readFails, old(store.readCalls), store.readCalls, walk.ReadsThrough(AtFault()),
                        VisitReads(root, None, AtFault()))
      invariant forall v: Verdict :: IsVerdict(v, walk.Todo()) ==> IsVerdict(v, ListingRoot(root))
      decreases |walk.Todo()|
    {
      ghost var calls, reading, left := store.readCalls, walk.NextReads(), walk.ReadsThrough(AtFault());
      walk.ReadsSplit(AtFault());
      var next := walk.Advance();
      ReadsOn(store.readFails, old(store.readCalls), calls, store.readCalls, reading, left,
              VisitReads(root, None, AtFault()), next.Err?);
      if next.Err? {
        return StoreFailed;
      }
      if next.value.None? {
        r := Sane;
        assert IsVerdict(r, walk.Todo());
        VerdictDecides(root, r);
        return;
      }
      var v := next.value.value;
      ghost var rest := walk.Todo();
      forall u: Verdict
        ensures Breaks(v.node) == None && IsVerdict(u, rest) ==> IsVerdict(u, [v] + rest) {
        VerdictCons(u, v, rest);
      }
      var broken := Breaks(v.node);
      if broken.Some? {
        r := Invalid(Violation(walk.buf, broken.value));
        VerdictCons(r, v, rest);
        VerdictDecides(root, r);
        VerdictMeans(root, r);
        return;
      }
    }
  }
}
