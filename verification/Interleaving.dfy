/** Drawing from both ends of a sequence, in any order of ends. */
module Interleaving {
  datatype End = Front | Back

  function Reversed<X>(s: seq<X>): (r: seq<X>)
    ensures |r| == |s| && forall k :: 0 <= k < |s| ==> r[k] == s[|s| - 1 - k]
  {
    if s == [] then [] else Reversed(s[1..]) + [s[0]]
  }

  /** What a list of draws takes from the front, leaves, and takes from the back; past the end a draw takes nothing. */
  ghost function DrawnBy<X>(pending: seq<X>, ends: seq<End>): (seq<X>, seq<X>, seq<X>) {
    if ends == [] then ([], pending, []) else
      var (fronts, rest, backs) := DrawnBy(pending, ends[..|ends| - 1]);
      if rest == [] then (fronts, rest, backs)
      else if ends[|ends| - 1].Front? then (fronts + [rest[0]], rest[1..], backs)
      else (fronts, rest[..|rest| - 1], backs + [rest[|rest| - 1]])
  }

  /** One more draw, in the terms an iterator promises it. */
  lemma DrawOne<X>(pending: seq<X>, ends: seq<End>, fronts: seq<X>, rest: seq<X>, backs: seq<X>, x: X, left: seq<X>)
    requires DrawnBy(pending, ends) == (fronts, rest, backs)
    ensures rest == [x] + left ==> DrawnBy(pending, ends + [Front]) == (fronts + [x], left, backs)
    ensures rest == left + [x] ==> DrawnBy(pending, ends + [Back]) == (fronts, left, backs + [x])
  {
    assert (ends + [Front])[..|ends|] == ends && (ends + [Back])[..|ends|] == ends;
  }

  lemma DrawNone<X>(pending: seq<X>, ends: seq<End>, end: End)
    requires DrawnBy(pending, ends).1 == []
    ensures DrawnBy(pending, ends + [end]) == DrawnBy(pending, ends)
  {
    assert (ends + [end])[..|ends|] == ends;
  }

  /**
   * Front and back draws never cross: the fronts in order, what is left, and the backs in reverse
   * are the sequence, and every draw takes something until all is drawn.
   */
  lemma {:induction false} DrawsSplit<X>(pending: seq<X>, ends: seq<End>)
    ensures var (fronts, rest, backs) := DrawnBy(pending, ends);
            pending == fronts + rest + Reversed(backs) &&
            |rest| == (if |ends| <= |pending| then |pending| - |ends| else 0) &&
            (|ends| <= |pending| ==> |fronts| == multiset(ends)[Front] && |backs| == multiset(ends)[Back])
    decreases |ends|
  {
    if ends != [] {
      var init := ends[..|ends| - 1];
      DrawsSplit(pending, init);
      assert ends == init + [ends[|ends| - 1]];
      var (fronts, rest, backs) := DrawnBy(pending, init);
      if rest != [] {
        if ends[|ends| - 1].Front? {
          assert fronts + rest + Reversed(backs) == (fronts + [rest[0]]) + rest[1..] + Reversed(backs);
        } else {
          var x := rest[|rest| - 1];
          ReversedSnoc(backs, x);
          assert fronts + rest + Reversed(backs) == fronts + rest[..|rest| - 1] + ([x] + Reversed(backs));
        }
      }
    } else {
      assert [] + pending + Reversed<X>([]) == pending;
    }
  }

  lemma ReversedSnoc<X>(s: seq<X>, x: X)
    ensures Reversed(s + [x]) == [x] + Reversed(s)
  {}

  /** The k-th front draw takes the k-th from the front, the k-th back draw the k-th from the back. */
  lemma DrawsPlace<X>(pending: seq<X>, ends: seq<End>)
    ensures var (fronts, rest, backs) := DrawnBy(pending, ends);
            |fronts| + |rest| + |backs| == |pending| &&
            (forall k :: 0 <= k < |fronts| ==> fronts[k] == pending[k]) &&
            (forall k :: 0 <= k < |backs| ==> backs[k] == pending[|pending| - 1 - k])
  {
    DrawsSplit(pending, ends);
    var (fronts, rest, backs) := DrawnBy(pending, ends);
    SplitPlace(fronts, rest, backs, pending);
  }

  lemma SplitPlace<X>(fronts: seq<X>, rest: seq<X>, backs: seq<X>, whole: seq<X>)
    requires whole == fronts + rest + Reversed(backs)
    ensures forall k :: 0 <= k < |fronts| ==> fronts[k] == whole[k]
    ensures forall k :: 0 <= k < |backs| ==> backs[k] == whole[|whole| - 1 - k]
  {
    var r := Reversed(backs);
    forall k | 0 <= k < |backs| ensures backs[k] == whole[|whole| - 1 - k] {
      assert r[|backs| - 1 - k] == backs[k];
    }
  }
}
