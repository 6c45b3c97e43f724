/** Options, results, and the index paths the trie algorithms share. */
module Wrappers {
  datatype Option<+T> = None | Some(value: T)

  /** A store failure carries no detail here: which call failed is all that matters. */
  datatype Result<+T> = Ok(value: T) | Err
}

/** Index paths: longest common prefix and the lexicographic order. */
module Paths {
  type Index = nat
  type Path = seq<Index>

  /** The length of the longest common prefix of two paths. */
  function SharedLen(a: Path, b: Path): (r: nat)
    ensures r <= |a| && r <= |b|
    ensures a[..r] == b[..r]
    ensures r < |a| && r < |b| ==> a[r] != b[r]
  {
    if a == [] || b == [] || a[0] != b[0] then 0 else
      var r := 1 + SharedLen(a[1..], b[1..]);
      assert a[..r] == [a[0]] + a[1..][..r - 1] && b[..r] == [b[0]] + b[1..][..r - 1];
      r
  }

  /** `SharedLen` is the longest common prefix: any other common prefix is no longer. */
  lemma SharedIsLongest(a: Path, b: Path, r: nat)
    requires r <= |a| && r <= |b| && a[..r] == b[..r]
    ensures r <= SharedLen(a, b)
  {
    assert forall k | 0 <= k < r :: a[k] == a[..r][k] == b[..r][k] == b[k];
  }

  /** The first input is exhausted exactly when it is a prefix of the second. */
  lemma SharedPrefix(a: Path, b: Path)
    ensures SharedLen(a, b) == |a| <==> a <= b
    ensures SharedLen(a, b) == |b| <==> b <= a
    ensures SharedLen(a, b) == |a| == |b| <==> a == b
  {
    if a <= b {
      SharedIsLongest(a, b, |a|);
    }
    if b <= a {
      SharedIsLongest(a, b, |b|);
    }
  }

  /** The order of keys: by the first index that differs, or the exhausted one first. */
  predicate Less(a: Path, b: Path) {
    var o := SharedLen(a, b);
    o < |b| && (o == |a| || a[o] < b[o])
  }

  predicate AtOrAfter(a: Path, start: Path) {
    !Less(a, start)
  }

  /** A divergence point decides the common prefix length. */
  lemma SharedAt(a: Path, b: Path, o: nat)
    requires o < |a| && o < |b| && a[..o] == b[..o] && a[o] != b[o]
    ensures SharedLen(a, b) == o
  {
    SharedIsLongest(a, b, o);
    var s := SharedLen(a, b);
    assert forall k | 0 <= k < s :: a[k] == a[..s][k] == b[..s][k] == b[k];
  }

  /** The order is total and strict: exactly one of the three. */
  lemma LessTotal(a: Path, b: Path)
    ensures a == b || Less(a, b) || Less(b, a)
    ensures Less(a, b) ==> a != b && !Less(b, a)
  {
    SharedSymmetric(a, b);
    SharedPrefix(a, b);
  }

  /** A path sorts before all that extend it. */
  lemma PrefixLess(a: Path, b: Path)
    requires a < b
    ensures Less(a, b)
  {
    SharedPrefix(a, b);
  }

  /** A common lead lengthens the common prefix and nothing else. */
  lemma SharedLead(lead: Path, a: Path, b: Path)
    ensures SharedLen(lead + a, lead + b) == |lead| + SharedLen(a, b)
  {
    var o, x, y := SharedLen(a, b), lead + a, lead + b;
    assert x[..|lead| + o] == lead + a[..o] == lead + b[..o] == y[..|lead| + o];
    SharedIsLongest(x, y, |lead| + o);
    if o < |a| && o < |b| {
      SharedAt(x, y, |lead| + o);
    }
  }

  lemma SharedSymmetric(a: Path, b: Path)
    ensures SharedLen(a, b) == SharedLen(b, a)
  {
    SharedIsLongest(b, a, SharedLen(a, b));
    SharedIsLongest(a, b, SharedLen(b, a));
  }

  lemma LessTransitive(a: Path, b: Path, c: Path)
    requires Less(a, b) && Less(b, c)
    ensures Less(a, c)
  {
    var o, p := SharedLen(a, b), SharedLen(b, c);
    var m := if o <= p then o else p;
    assert a[..m] == a[..o][..m] == b[..o][..m] == b[..m];
    assert b[..m] == b[..p][..m] == c[..p][..m] == c[..m];
    if o < p {
      assert b[o] == b[..p][o] == c[..p][o] == c[o];
    } else if p < o {
      assert a[p] == a[..o][p] == b[..o][p] == b[p];
    }
    if m == |a| {
      SharedPrefix(a, c);
      assert a <= c;
    } else {
      SharedAt(a, c, m);
    }
  }

  /** Everything beneath a path sorts with it, relative to a path it diverges from. */
  lemma BelowSortsAlike(a: Path, rest: Path, start: Path)
    requires SharedLen(a, start) < |a|
    ensures Less(a + rest, start) == Less(a, start)
  {
    var o := SharedLen(a, start);
    if o < |start| {
      assert (a + rest)[..o] == a[..o];
      SharedAt(a + rest, start, o);
    } else {
      SharedPrefix(a, start);
      SharedPrefix(a + rest, start);
    }
  }

  /** Two children of one node sort by their indices. */
  lemma SiblingsLess(a: Path, i: Index, j: Index, p: Path, q: Path)
    requires i < j
    ensures Less(a + [i] + p, a + [j] + q)
  {
    var x, y := a + [i] + p, a + [j] + q;
    assert x[..|a|] == a == y[..|a|];
    SharedAt(x, y, |a|);
  }
}

/** The least element of a set of indices: what `select(0)` on a bitmap of children yields. */
module Mins {
  import opened Paths

  lemma MinExists(s: set<Index>, a: Index)
    requires a in s
    ensures exists m :: m in s && forall x :: x in s ==> m <= x
    decreases a
  {
    if b :| b in s && b < a {
      MinExists(s, b);
    } else {
      assert forall x :: x in s ==> a <= x;
    }
  }

  function Min(s: set<Index>): (m: Index)
    requires s != {}
    ensures m in s && forall x :: x in s ==> m <= x
  {
    assert exists m :: m in s && forall x :: x in s ==> m <= x by {
      var a :| a in s;
      MinExists(s, a);
    }
    var m :| m in s && forall x :: x in s ==> m <= x;
    m
  }

  lemma TwoElements<T>(s: set<T>)
    requires |s| >= 2
    ensures exists x, y :: x in s && y in s && x != y
  {
    var x :| x in s;
    var rest := s - {x};
    assert |rest| == |s| - 1;
    var y :| y in rest;
  }

  lemma SubsetSize<T>(a: set<T>, b: set<T>)
    requires a <= b
    ensures |a| <= |b|
  {
    assert b == a + (b - a);
  }

  lemma OnlyElement<T>(s: set<T>, x: T)
    requires |s| == 1 && x in s
    ensures s == {x}
  {
    assert |s - {x}| == 0;
  }
}
