/** The pre-order listing of a trie, and its order. */
module PreOrder {
  import opened Wrappers
  import opened Paths
  import opened Mins
  import opened Nodes

  /** A node with its full path. */
  datatype Visit = Visit(path: Path, node: Node)

  /** Every node, valued or not, parents first and children ascending. */
  ghost function Listing(n: Node, lead: Path): seq<Visit>
    decreases n, 1, 0
  {
    [Visit(lead + n.path, n)] + Below(n, lead + n.path, n.children.Keys)
  }

  /** The listing of the children in `s` of a node whose full path is `full`. */
  ghost function Below(n: Node, full: Path, s: set<Index>): seq<Visit>
    requires s <= n.children.Keys
    decreases n, 0, |s|
  {
    if s == {} then [] else
      var i := Min(s);
      Listing(n.children[i].node, full + [i]) + Below(n, full, s - {i})
  }

  ghost function ListingRoot(root: Root): seq<Visit> {
    if root.Some? then Listing(root.value, []) else []
  }

  /** Full paths strictly ascend. */
  ghost predicate Ascending(s: seq<Visit>) {
    forall j, k :: 0 <= j < k < |s| ==> Less(s[j].path, s[k].path)
  }

  ghost predicate AllAtOrAfter(s: seq<Visit>, start: Path) {
    forall j :: 0 <= j < |s| ==> AtOrAfter(s[j].path, start)
  }

  ghost predicate AllBefore(s: seq<Visit>, start: Path) {
    forall j :: 0 <= j < |s| ==> Less(s[j].path, start)
  }

  /** The visits at or after `start`, in their order. */
  ghost function From(s: seq<Visit>, start: Path): seq<Visit> {
    if s == [] then [] else
      (if AtOrAfter(s[0].path, start) then [s[0]] else []) + From(s[1..], start)
  }

  lemma {:induction false} FromConcat(a: seq<Visit>, b: seq<Visit>, start: Path)
    ensures From(a + b, start) == From(a, start) + From(b, start)
  {
    if a == [] {
      assert a + b == b;
    } else {
      assert (a + b)[1..] == a[1..] + b && (a + b)[0] == a[0];
      FromConcat(a[1..], b, start);
      var head := if AtOrAfter(a[0].path, start) then [a[0]] else [];
      assert From(a, start) == head + From(a[1..], start);
      assert head + (From(a[1..], start) + From(b, start)) == From(a, start) + From(b, start);
    }
  }

  lemma {:induction false} FromAll(s: seq<Visit>, start: Path)
    requires AllAtOrAfter(s, start)
    ensures From(s, start) == s
  {
    if s != [] {
      FromAll(s[1..], start);
    }
  }

  lemma {:induction false} FromNone(s: seq<Visit>, start: Path)
    requires AllBefore(s, start)
    ensures From(s, start) == []
  {
    if s != [] {
      FromNone(s[1..], start);
    }
  }

  /** Everything listed under a node extends its full path. */
  lemma {:induction false} ListingExtends(n: Node, lead: Path, k: nat)
    requires k < |Listing(n, lead)|
    ensures lead + n.path <= Listing(n, lead)[k].path
    ensures k > 0 ==> lead + n.path < Listing(n, lead)[k].path
    decreases n, 1, 0
  {
    if k > 0 {
      BelowExtends(n, lead + n.path, n.children.Keys, k - 1);
    }
  }

  /** Everything listed below a node runs through one of the children listed. */
  lemma {:induction false} BelowExtends(n: Node, full: Path, s: set<Index>, k: nat)
    requires s <= n.children.Keys && k < |Below(n, full, s)|
    ensures var p := Below(n, full, s)[k].path; full < p && p[|full|] in s
    decreases n, 0, |s|
  {
    var i := Min(s);
    var first := Listing(n.children[i].node, full + [i]);
    if k < |first| {
      ListingExtends(n.children[i].node, full + [i], k);
      var p := Below(n, full, s)[k].path;
      assert full + [i] <= p;
      assert p[|full|] == (full + [i])[|full|];
    } else {
      BelowExtends(n, full, s - {i}, k - |first|);
    }
  }

  /** A path through a lower child sorts before one through a higher child. */
  lemma ThroughLess(full: Path, p: Path, q: Path)
    requires full < p && full < q && p[|full|] < q[|full|]
    ensures Less(p, q)
  {
    assert p[..|full|] == full == q[..|full|];
    SharedAt(p, q, |full|);
  }

  lemma AscendingConcat(a: seq<Visit>, b: seq<Visit>)
    requires Ascending(a) && Ascending(b)
    requires forall j, k :: 0 <= j < |a| && 0 <= k < |b| ==> Less(a[j].path, b[k].path)
    ensures Ascending(a + b)
  {}

  /** The pre-order listing ascends: a node's path is a prefix of, so before, all beneath it. */
  lemma {:induction false} ListingAscends(n: Node, lead: Path)
    ensures Ascending(Listing(n, lead))
    decreases n, 1, 0
  {
    var full := lead + n.path;
    BelowAscends(n, full, n.children.Keys);
    var rest := Below(n, full, n.children.Keys);
    forall k | 0 <= k < |rest| ensures Less(full, rest[k].path) {
      BelowExtends(n, full, n.children.Keys, k);
      PrefixLess(full, rest[k].path);
    }
    AscendingConcat([Visit(full, n)], rest);
  }

  lemma {:induction false} BelowAscends(n: Node, full: Path, s: set<Index>)
    requires s <= n.children.Keys
    ensures Ascending(Below(n, full, s))
    decreases n, 0, |s|
  {
    if s != {} {
      var i := Min(s);
      var c := n.children[i].node;
      ListingAscends(c, full + [i]);
      BelowAscends(n, full, s - {i});
      var a, b := Listing(c, full + [i]), Below(n, full, s - {i});
      forall j, k | 0 <= j < |a| && 0 <= k < |b| ensures Less(a[j].path, b[k].path) {
        ListingExtends(c, full + [i], j);
        BelowExtends(n, full, s - {i}, k);
        assert full + [i] <= a[j].path && a[j].path[|full|] == (full + [i])[|full|];
        ThroughLess(full, a[j].path, b[k].path);
      }
      AscendingConcat(a, b);
    }
  }

  /** The listing is as long as the trie is large. */
  lemma {:induction false} ListingSize(n: Node, lead: Path)
    ensures |Listing(n, lead)| == Size(n)
    decreases n, 1, 0
  {
    BelowSize(n, lead + n.path, n.children.Keys);
  }

  lemma {:induction false} BelowSize(n: Node, full: Path, s: set<Index>)
    requires s <= n.children.Keys
    ensures |Below(n, full, s)| == SizeOver(n, s)
    decreases n, 0, |s|
  {
    if s != {} {
      var i := Min(s);
      ListingSize(n.children[i].node, full + [i]);
      BelowSize(n, full, s - {i});
    }
  }

  /** The listing visits exactly the nodes lookup finds. */
  lemma {:induction false} ListingFinds(n: Node, lead: Path, key: Path, found: Node)
    ensures Visit(lead + key, found) in Listing(n, lead) <==> FindNode(n, key) == Some(found)
    decreases n, 1, 0
  {
    var full := lead + n.path;
    var v := Visit(lead + key, found);
    assert lead + key == full <==> key == n.path by {
      assert (lead + key)[|lead|..] == key && full[|lead|..] == n.path;
    }
    BelowFinds(n, lead, n.children.Keys, key, found);
  }

  lemma {:induction false} BelowFinds(n: Node, lead: Path, s: set<Index>, key: Path, found: Node)
    requires s <= n.children.Keys
    ensures Visit(lead + key, found) in Below(n, lead + n.path, s)
       <==> n.path < key && key[|n.path|] in s && FindNode(n, key) == Some(found)
    decreases n, 0, |s|
  {
    if s != {} {
      var i := Min(s);
      var c, full := n.children[i].node, lead + n.path;
      BelowFinds(n, lead, s - {i}, key, found);
      if n.path < key && key[|n.path|] == i {
        SplitKey(n, key);
        assert full + [i] + After(n, key) == lead + key;
        ListingFinds(c, full + [i], After(n, key), found);
      } else {
        NotListed(n, lead, i, key, found);
      }
    }
  }

  lemma PathThrough(lead: Path, path: Path, i: Index, key: Path)
    requires lead + path + [i] <= lead + key
    ensures path < key && key[|path|] == i
  {
    var p, q := lead + path + [i], lead + key;
    assert p == q[..|p|];
    assert key[..|path|] == q[|lead|..|lead| + |path|] == path;
    assert key[|path|] == q[|lead| + |path|] == p[|lead| + |path|] == i;
  }

  lemma NotListed(n: Node, lead: Path, i: Index, key: Path, found: Node)
    requires i in n.children && !(n.path < key && key[|n.path|] == i)
    ensures Visit(lead + key, found) !in Listing(n.children[i].node, lead + n.path + [i])
  {
    var s := Listing(n.children[i].node, lead + n.path + [i]);
    forall k | 0 <= k < |s| ensures s[k].path != lead + key {
      ListingExtends(n.children[i].node, lead + n.path + [i], k);
      if s[k].path == lead + key {
        PathThrough(lead, n.path, i, key);
      }
    }
  }
}
