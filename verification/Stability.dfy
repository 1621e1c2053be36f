/** Which equivalent nodes `list::sort` leaves in their order, and which it exchanges. */
module Stability {
  import opened Merging
  import opened Sequences

  /** The position of x in t. */
  ghost function Place<P>(t: seq<P>, x: P): int {
    if x in t then IndexOf(t, x) else |t|
  }

  lemma PlaceOf<P>(t: seq<P>, x: P)
    requires x in t
    ensures 0 <= Place(t, x) < |t| && t[Place(t, x)] == x
  {
  }

  lemma PlaceAt<P>(t: seq<P>, i: nat)
    requires Distinct(t) && i < |t|
    ensures Place(t, t[i]) == i
  {
    PlaceOf(t, t[i]);
    var j := Place(t, t[i]);
    assert i < j || j < i || i == j;
  }

  lemma PlaceTail<P>(t: seq<P>, x: P)
    requires t != [] && x != t[0]
    ensures Place(t, x) == 1 + Place(t[1..], x)
  {
    assert t == [t[0]] + t[1..];
  }

  lemma PlaceAppended<P>(t: seq<P>, u: seq<P>, x: P)
    requires x in t && Distinct(t + u)
    ensures Place(t + u, x) == Place(t, x)
  {
    PlaceOf(t, x);
    assert (t + u)[Place(t, x)] == x;
    PlaceAt(t + u, Place(t, x));
  }

  // What merging does to the order of two nodes.

  lemma {:induction false} OrderInLeft<P, K>(less: (K, K) -> bool, values: map<P, K>, l: seq<P>, r: seq<P>, x: P, y: P)
    requires Held(values, l) && Held(values, r) && x in l && y in l && x !in r && y !in r
    ensures var t := Interleave(less, values, l, r); Place(t, x) < Place(t, y) <==> Place(l, x) < Place(l, y)
    decreases |l| + |r|
  {
    InterleaveMembers(less, values, l, r);
    if r != [] {
      var t := Interleave(less, values, l, r);
      if less(values[r[0]], values[l[0]]) {
        assert t == [r[0]] + Interleave(less, values, l, r[1..]);
        PlaceTail(t, x);
        PlaceTail(t, y);
        OrderInLeft(less, values, l, r[1..], x, y);
      } else {
        assert t == [l[0]] + Interleave(less, values, l[1..], r);
        if x != l[0] {
          PlaceTail(t, x);
          PlaceTail(l, x);
        }
        if y != l[0] {
          PlaceTail(t, y);
          PlaceTail(l, y);
        }
        if x != l[0] && y != l[0] {
          OrderInLeft(less, values, l[1..], r, x, y);
        }
      }
    }
  }

  lemma {:induction false} OrderInRight<P, K>(less: (K, K) -> bool, values: map<P, K>, l: seq<P>, r: seq<P>, x: P, y: P)
    requires Held(values, l) && Held(values, r) && x in r && y in r && x !in l && y !in l
    ensures var t := Interleave(less, values, l, r); Place(t, x) < Place(t, y) <==> Place(r, x) < Place(r, y)
    decreases |l| + |r|
  {
    if l != [] {
      var t := Interleave(less, values, l, r);
      if less(values[r[0]], values[l[0]]) {
        assert t == [r[0]] + Interleave(less, values, l, r[1..]);
        if x != r[0] {
          PlaceTail(t, x);
          PlaceTail(r, x);
        }
        if y != r[0] {
          PlaceTail(t, y);
          PlaceTail(r, y);
        }
        if x != r[0] && y != r[0] {
          OrderInRight(less, values, l, r[1..], x, y);
        }
      } else {
        assert t == [l[0]] + Interleave(less, values, l[1..], r);
        PlaceTail(t, x);
        PlaceTail(t, y);
        OrderInRight(less, values, l[1..], r, x, y);
      }
    }
  }

  /** Some node up to x is greater than y. */
  ghost predicate GreaterUpTo<P, K>(less: (K, K) -> bool, values: map<P, K>, s: seq<P>, x: P, y: P) {
    exists u :: u in s && Place(s, u) <= Place(s, x) && u in values && y in values && less(values[y], values[u])
  }

  lemma GreaterInTail<P, K>(less: (K, K) -> bool, values: map<P, K>, s: seq<P>, x: P, y: P)
    requires s != [] && x in s[1..] && x != s[0] && Held(values, s) && y in values && !less(values[y], values[s[0]])
    ensures GreaterUpTo(less, values, s, x, y) <==> GreaterUpTo(less, values, s[1..], x, y)
  {
    PlaceTail(s, x);
    if GreaterUpTo(less, values, s, x, y) {
      var u :| u in s && Place(s, u) <= Place(s, x) && u in values && less(values[y], values[u]);
      PlaceTail(s, u);
    }
    if GreaterUpTo(less, values, s[1..], x, y) {
      var u :| u in s[1..] && Place(s[1..], u) <= Place(s[1..], x) && u in values && less(values[y], values[u]);
      PlaceTail(s, u);
    }
  }

  lemma NotBelowHead<P, K(!new)>(less: (K, K) -> bool, values: map<P, K>, l0: P, r: seq<P>, y: P)
    requires StrictWeakOrder(less) && Held(values, r) && SortedExcept(less, values, r, {}) && y in r && l0 in values
    requires !less(values[r[0]], values[l0])
    ensures !less(values[y], values[l0])
  {
    PlaceOf(r, y);
    if y != r[0] {
      SortedAll(less, values, r, 0, Place(r, y));
    }
  }

  /** A node of the sorted right side goes before a left node just when a left node up to that one is greater. */
  lemma {:induction false} OrderAcross<P, K(!new)>(less: (K, K) -> bool, values: map<P, K>, l: seq<P>, r: seq<P>, x: P,
                                                   y: P)
    requires StrictWeakOrder(less) && Held(values, l) && Held(values, r) && SortedExcept(less, values, r, {})
    requires Distinct(l) && x in l && y in r && x !in r && y !in l
    ensures Place(Interleave(less, values, l, r), y) < Place(Interleave(less, values, l, r), x) <==>
      GreaterUpTo(less, values, l, x, y)
    decreases |l| + |r|
  {
    var t := Interleave(less, values, l, r);
    if less(values[r[0]], values[l[0]]) {
      assert t == [r[0]] + Interleave(less, values, l, r[1..]);
      PlaceTail(t, x);
      if y == r[0] {
        assert Place(l, l[0]) == 0;
        PlaceOf(l, x);
        InterleaveMembers(less, values, l, r[1..]);
      } else {
        PlaceTail(t, y);
        OrderAcross(less, values, l, r[1..], x, y);
      }
    } else {
      assert t == [l[0]] + Interleave(less, values, l[1..], r);
      NotBelowHead(less, values, l[0], r, y);
      PlaceTail(t, y);
      if x == l[0] {
        OnlyHead(less, values, l, y);
      } else {
        PlaceTail(t, x);
        GreaterInTail(less, values, l, x, y);
        OrderAcross(less, values, l[1..], r, x, y);
      }
    }
  }

  lemma OnlyHead<P, K>(less: (K, K) -> bool, values: map<P, K>, s: seq<P>, y: P)
    requires s != [] && Held(values, s) && y in values && !less(values[y], values[s[0]])
    ensures !GreaterUpTo(less, values, s, s[0], y)
  {
    forall u | u in s && Place(s, u) <= Place(s, s[0]) ensures u == s[0] {
      PlaceOf(s, u);
    }
  }

  // One merge of the sort: the nodes at p .. e - 1 go into those before p.

  ghost function Merged<P, K>(less: (K, K) -> bool, values: map<P, K>, s: seq<P>, p: int, e: int): seq<P>
    requires Held(values, s) && 0 <= p <= e <= |s|
  {
    Interleave(less, values, s[..p], s[p..e]) + s[e..]
  }

  lemma MergedMembers<P, K>(less: (K, K) -> bool, values: map<P, K>, s: seq<P>, p: int, e: int)
    requires Held(values, s) && 0 <= p <= e <= |s| && Distinct(s)
    ensures var t := Merged(less, values, s, p, e);
      && |t| == |s| && Distinct(t) && t[e..] == s[e..]
      && multiset(t[..e]) == multiset(s[..e]) && multiset(t) == multiset(s)
  {
    InterleaveKeeps(less, values, s[..p], s[p..e]);
    InThree(s, p, e);
    var i, t := Interleave(less, values, s[..p], s[p..e]), Merged(less, values, s, p, e);
    assert t == i + s[e..];
    hide *;
    PrefixReplaced(s[..e], i, s[e..], s, t);
    StillDistinct(s, t);
  }

  lemma InThree<P>(s: seq<P>, p: int, e: int)
    requires 0 <= p <= e <= |s|
    ensures multiset(s[..p]) + multiset(s[p..e]) == multiset(s[..e]) && s == s[..e] + s[e..]
  {
    assert s[..e] == s[..p] + s[p..e];
  }

  lemma PrefixReplaced<P>(u: seq<P>, v: seq<P>, rest: seq<P>, s: seq<P>, t: seq<P>)
    requires multiset(u) == multiset(v) && |u| == |v| && s == u + rest && t == v + rest
    ensures |t| == |s| && t[|u|..] == s[|u|..] && t[..|u|] == v && multiset(t) == multiset(s)
  {
  }

  lemma StillDistinct<P>(s: seq<P>, t: seq<P>)
    requires Distinct(s) && multiset(s) == multiset(t)
    ensures Distinct(t)
  {
    forall i, j | 0 <= i < j < |t| ensures t[i] != t[j] {
      if t[i] == t[j] {
        var u := t[..i] + t[i + 1..];
        assert t == t[..i] + [t[i]] + t[i + 1..];
        assert u[j - 1] == t[j];
        assert multiset(t)[t[i]] >= 2;
        AtMostOnce(s, t[i]);
        assert false;
      }
    }
  }

  lemma {:induction false} AtMostOnce<P>(s: seq<P>, x: P)
    requires Distinct(s)
    ensures multiset(s)[x] <= 1
    decreases |s|
  {
    if s != [] {
      var n := |s| - 1;
      assert s == s[..n] + [s[n]];
      AtMostOnce(s[..n], x);
      if s[n] == x {
        assert x !in s[..n];
      }
    }
  }

  /** Where a node of s is, in terms of the two sides of the merge. */
  lemma PlaceInSides<P>(s: seq<P>, p: int, e: int, x: P)
    requires Distinct(s) && 0 <= p <= e <= |s| && x in s
    ensures Place(s, x) < p ==> x in s[..p] && x !in s[p..e] && Place(s[..p], x) == Place(s, x)
    ensures p <= Place(s, x) < e ==> x in s[p..e] && x !in s[..p] && Place(s[p..e], x) == Place(s, x) - p
  {
    PlaceOf(s, x);
    var i := Place(s, x);
    if i < p {
      assert s[..p][i] == x;
      PlaceAt(s[..p], i);
    } else if i < e {
      assert s[p..e][i - p] == x;
      PlaceAt(s[p..e], i - p);
    }
  }

  lemma PlaceMerged<P, K>(less: (K, K) -> bool, values: map<P, K>, s: seq<P>, p: int, e: int, x: P)
    requires Held(values, s) && 0 <= p <= e <= |s| && Distinct(s) && x in s && Place(s, x) < e
    ensures Place(Merged(less, values, s, p, e), x) == Place(Interleave(less, values, s[..p], s[p..e]), x)
  {
    MergedMembers(less, values, s, p, e);
    PlaceInSides(s, p, e, x);
    PlaceOf(s, x);
    InterleaveMembers(less, values, s[..p], s[p..e]);
    PlaceAppended(Interleave(less, values, s[..p], s[p..e]), s[e..], x);
  }

  lemma GreaterInSide<P, K>(less: (K, K) -> bool, values: map<P, K>, s: seq<P>, p: int, x: P, y: P)
    requires Distinct(s) && 0 <= p <= |s| && x in s && Place(s, x) < p
    ensures GreaterUpTo(less, values, s[..p], x, y) <==> GreaterUpTo(less, values, s, x, y)
  {
    PlaceInSides(s, p, |s|, x);
    if GreaterUpTo(less, values, s, x, y) {
      var u :| u in s && Place(s, u) <= Place(s, x) && u in values && y in values && less(values[y], values[u]);
      PlaceInSides(s, p, |s|, u);
    }
  }

  lemma MergedSameSide<P, K>(less: (K, K) -> bool, values: map<P, K>, s: seq<P>, p: int, e: int, x: P, y: P)
    requires Held(values, s) && 0 <= p <= e <= |s| && Distinct(s) && x in s && y in s
    requires (Place(s, x) < p && Place(s, y) < p) || (p <= Place(s, x) < e && p <= Place(s, y) < e)
    ensures var t := Merged(less, values, s, p, e); Place(t, x) < Place(t, y) <==> Place(s, x) < Place(s, y)
  {
    PlaceMerged(less, values, s, p, e, x);
    PlaceMerged(less, values, s, p, e, y);
    PlaceInSides(s, p, e, x);
    PlaceInSides(s, p, e, y);
    if Place(s, x) < p {
      OrderInLeft(less, values, s[..p], s[p..e], x, y);
    } else {
      OrderInRight(less, values, s[..p], s[p..e], x, y);
    }
  }

  lemma MergedAcross<P, K(!new)>(less: (K, K) -> bool, values: map<P, K>, s: seq<P>, p: int, e: int, x: P, y: P)
    requires StrictWeakOrder(less) && Held(values, s) && 0 <= p <= e <= |s| && Distinct(s) && x in s && y in s
    requires SortedExcept(less, values, s[p..e], {}) && Place(s, x) < p <= Place(s, y) < e
    ensures var t := Merged(less, values, s, p, e); Place(t, y) < Place(t, x) <==> GreaterUpTo(less, values, s, x, y)
  {
    PlaceMerged(less, values, s, p, e, x);
    PlaceMerged(less, values, s, p, e, y);
    PlaceInSides(s, p, e, x);
    PlaceInSides(s, p, e, y);
    OrderAcross(less, values, s[..p], s[p..e], x, y);
    GreaterInSide(less, values, s, p, x, y);
  }

  /** Nothing before x is greater than x. */
  ghost predicate Low<P, K>(less: (K, K) -> bool, values: map<P, K>, s: seq<P>, x: P) {
    x in values && forall u :: u in s && Place(s, u) < Place(s, x) ==> u in values && !less(values[x], values[u])
  }

  lemma LowNotGreater<P, K(!new)>(less: (K, K) -> bool, values: map<P, K>, s: seq<P>, x: P, y: P)
    requires StrictWeakOrder(less) && x in s && x in values && y in values && !less(values[y], values[x]) &&
             Low(less, values, s, x)
    ensures !GreaterUpTo(less, values, s, x, y)
  {
    forall u | u in s && Place(s, u) <= Place(s, x) ensures u in values && !less(values[y], values[u]) {
      PlaceOf(s, u);
      PlaceOf(s, x);
    }
  }

  lemma NothingBetween<P>(s: seq<P>, t: seq<P>, p: int, e: int, u: P)
    requires Distinct(s) && Distinct(t) && |s| == |t| && 0 <= p <= e <= |s| && t[e..] == s[e..] &&
             multiset(s) == multiset(t) && u in t
    ensures u in s && (Place(t, u) < e <==> Place(s, u) < e)
    ensures Place(s, u) >= e ==> Place(t, u) == Place(s, u)
  {
    SameMembers(s, t);
    PlaceOf(s, u);
    PlaceOf(t, u);
    var i, j := Place(s, u), Place(t, u);
    if i >= e {
      assert t[i] == t[e..][i - e] == s[e..][i - e] == s[i];
      PlaceAt(t, i);
    }
    if j >= e {
      assert s[j] == s[e..][j - e] == t[e..][j - e] == t[j];
      PlaceAt(s, j);
    }
  }

  lemma BeforeLeft<P, K(!new)>(less: (K, K) -> bool, values: map<P, K>, s: seq<P>, p: int, e: int, x: P, u: P)
    requires StrictWeakOrder(less) && Held(values, s) && 0 <= p <= e <= |s| && Distinct(s) && x in s && Place(s, x) < p
    requires SortedExcept(less, values, s[p..e], {}) && Low(less, values, s, x)
    requires u in s && Place(s, u) < e &&
             Place(Merged(less, values, s, p, e), u) < Place(Merged(less, values, s, p, e), x)
    ensures u in values && !less(values[x], values[u])
  {
    PlaceOf(s, u);
    if Place(s, u) < p {
      MergedSameSide(less, values, s, p, e, u, x);
    } else {
      MergedAcross(less, values, s, p, e, x, u);
      if less(values[x], values[u]) {
        LowNotGreater(less, values, s, x, u);
      }
    }
  }

  lemma BeforeRight<P, K(!new)>(less: (K, K) -> bool, values: map<P, K>, s: seq<P>, p: int, e: int, y: P, u: P)
    requires StrictWeakOrder(less) && Held(values, s) && 0 <= p <= e <= |s| && Distinct(s) && y in s &&
             p <= Place(s, y) < e
    requires SortedExcept(less, values, s[p..e], {})
    requires u in s && Place(s, u) < e &&
             Place(Merged(less, values, s, p, e), u) < Place(Merged(less, values, s, p, e), y)
    ensures u in values && !less(values[y], values[u])
  {
    PlaceOf(s, u);
    if Place(s, u) < p {
      MergedAcross(less, values, s, p, e, u, y);
    } else {
      MergedSameSide(less, values, s, p, e, u, y);
      PlaceInSides(s, p, e, u);
      PlaceInSides(s, p, e, y);
      PlaceOf(s[p..e], u);
      PlaceOf(s[p..e], y);
      hide Merged;
      SortedAll(less, values, s[p..e], Place(s[p..e], u), Place(s[p..e], y));
    }
  }

  lemma BeforeInMerged<P, K>(less: (K, K) -> bool, values: map<P, K>, s: seq<P>, p: int, e: int, x: P, u: P)
    requires Held(values, s) && 0 <= p <= e <= |s| && Distinct(s) && x in s && Place(s, x) < e
    requires u in Merged(less, values, s, p, e) &&
             Place(Merged(less, values, s, p, e), u) < Place(Merged(less, values, s, p, e), x)
    ensures u in s && Place(s, u) < e
  {
    MergedMembers(less, values, s, p, e);
    var t := Merged(less, values, s, p, e);
    SameMembers(s, t);
    NothingBetween(s, t, p, e, u);
    NothingBetween(s, t, p, e, x);
  }

  /** Merging keeps a low node of the left side low. */
  lemma LeftStaysLow<P, K(!new)>(less: (K, K) -> bool, values: map<P, K>, s: seq<P>, p: int, e: int, x: P)
    requires StrictWeakOrder(less) && Held(values, s) && 0 <= p <= e <= |s| && Distinct(s) && x in s && Place(s, x) < p
    requires SortedExcept(less, values, s[p..e], {}) && Low(less, values, s, x)
    ensures Low(less, values, Merged(less, values, s, p, e), x)
  {
    hide Merged, Place, SortedExcept, Held, Distinct, StrictWeakOrder;
    var t := Merged(less, values, s, p, e);
    forall u | u in t && Place(t, u) < Place(t, x) ensures u in values && !less(values[x], values[u]) {
      BeforeInMerged(less, values, s, p, e, x, u);
      BeforeLeft(less, values, s, p, e, x, u);
    }
  }

  /** Merging makes every node of the right side low. */
  lemma RightIsLow<P, K(!new)>(less: (K, K) -> bool, values: map<P, K>, s: seq<P>, p: int, e: int, y: P)
    requires StrictWeakOrder(less) && Held(values, s) && 0 <= p <= e <= |s| && Distinct(s) && y in s &&
             p <= Place(s, y) < e
    requires SortedExcept(less, values, s[p..e], {})
    ensures Low(less, values, Merged(less, values, s, p, e), y)
  {
    assert y in values by { PlaceOf(s, y); }
    hide Merged, Place, SortedExcept, Held, Distinct, StrictWeakOrder;
    var t := Merged(less, values, s, p, e);
    forall u | u in t && Place(t, u) < Place(t, y) ensures u in values && !less(values[y], values[u]) {
      BeforeInMerged(less, values, s, p, e, y, u);
      BeforeRight(less, values, s, p, e, y, u);
    }
  }

  // What sorting the nodes a .. e - 1 of s does to the order, t being the result.

  /** The same nodes, those from e on untouched. */
  ghost predicate SameNodes<P, K>(values: map<P, K>, s: seq<P>, t: seq<P>, e: int) {
    && 0 <= e <= |s| == |t| && Distinct(s) && Distinct(t) && Held(values, s) && Held(values, t)
    && t[e..] == s[e..] && multiset(s) == multiset(t)
  }

  /** The nodes up to a keep their order. */
  ghost predicate OldOrder<P>(s: seq<P>, t: seq<P>, a: int) {
    forall k, m :: 0 <= k < m <= a && m < |s| ==> Place(t, s[k]) < Place(t, s[m])
  }

  /** A later node goes before one of them just when one up to that is greater. */
  ghost predicate Jumps<P, K>(less: (K, K) -> bool, values: map<P, K>, s: seq<P>, t: seq<P>, a: int, e: int) {
    forall k, w :: 0 <= k <= a < w < e <= |s| ==>
      (Place(t, s[w]) < Place(t, s[k]) <==> GreaterUpTo(less, values, s, s[k], s[w]))
  }

  /** The later nodes are low, and the earlier ones stay so. */
  ghost predicate AllLow<P, K>(less: (K, K) -> bool, values: map<P, K>, s: seq<P>, t: seq<P>, a: int, e: int) {
    forall w :: 0 <= a < w < e <= |s| ==> Low(less, values, t, s[w])
  }

  ghost predicate LowKept<P, K>(less: (K, K) -> bool, values: map<P, K>, s: seq<P>, t: seq<P>, a: int) {
    forall k :: 0 <= k <= a && k < |s| && Low(less, values, s, s[k]) ==> Low(less, values, t, s[k])
  }

  ghost predicate Arranged<P, K>(less: (K, K) -> bool, values: map<P, K>, s: seq<P>, t: seq<P>, a: int, e: int) {
    && SameNodes(values, s, t, e) && OldOrder(s, t, a) && Jumps(less, values, s, t, a, e)
    && AllLow(less, values, s, t, a, e) && LowKept(less, values, s, t, a)
  }

  /** One level of the recursion: s1 after the first half, s2 after the second. */
  ghost predicate Level<P, K(!new)>(less: (K, K) -> bool, values: map<P, K>, s: seq<P>, s1: seq<P>, s2: seq<P>, a: int,
                                    a1: int, e: int) {
    && StrictWeakOrder(less) && 0 <= a < a1 < e <= |s|
    && Arranged(less, values, s, s1, a, a1) && Arranged(less, values, s1, s2, a1, e)
  }

  lemma SamePlaces<P, K>(values: map<P, K>, s: seq<P>, t: seq<P>, e: int, i: int)
    requires SameNodes(values, s, t, e) && 0 <= i < |s|
    ensures s[i] in t && s[i] in values && 0 <= Place(t, s[i]) < |t| && t[Place(t, s[i])] == s[i] && Place(s, s[i]) == i
    ensures Place(t, s[i]) < e <==> i < e
    ensures i >= e ==> Place(t, s[i]) == i && t[i] == s[i]
  {
    SameMembers(s, t);
    PlaceAt(s, i);
    PlaceOf(t, s[i]);
    NothingBetween(s, t, e, e, s[i]);
  }

  lemma FromBefore<P, K>(values: map<P, K>, s: seq<P>, t: seq<P>, e: int, j: int) returns (i: int)
    requires SameNodes(values, s, t, e) && 0 <= j < |t|
    ensures 0 <= i < |s| && s[i] == t[j] && (i < e <==> j < e) && (j >= e ==> i == j) && Place(t, s[i]) == j
  {
    SameMembers(s, t);
    i := Place(s, t[j]);
    PlaceOf(s, t[j]);
    PlaceAt(t, j);
    SamePlaces(values, s, t, e, i);
  }

  /** The node that heads the second half is behind everything before it. */
  lemma MidPlace<P, K(!new)>(less: (K, K) -> bool, values: map<P, K>, s: seq<P>, s1: seq<P>, s2: seq<P>, a: int,
                             a1: int, e: int)
    requires Level(less, values, s, s1, s2, a, a1, e)
    ensures |s1| == |s2| == |s| && Distinct(s2) && Held(values, s2) && s1[a1] == s[a1]
    ensures 0 <= Place(s2, s1[a1]) < e && s2[Place(s2, s1[a1])] == s1[a1]
    ensures forall m :: 0 <= m < a1 ==> 0 <= Place(s2, s1[m]) < Place(s2, s1[a1])
  {
    SamePlaces(values, s1, s2, e, a1);
    SamePlaces(values, s, s1, a1, a1);
    forall m | 0 <= m < a1 ensures 0 <= Place(s2, s1[m]) < Place(s2, s1[a1]) {
      SamePlaces(values, s1, s2, e, m);
    }
  }

  lemma RightInOrder<P, K(!new)>(less: (K, K) -> bool, values: map<P, K>, s: seq<P>, s1: seq<P>, s2: seq<P>, a: int,
                                 a1: int, e: int, p: int, q: int)
    requires Level(less, values, s, s1, s2, a, a1, e) && p == Place(s2, s1[a1]) && p < q < e
    ensures 0 <= p && q < |s2| && InOrder(less, values, s2[q - 1], s2[q])
  {
    MidPlace(less, values, s, s1, s2, a, a1, e);
    var w := FromBefore(values, s1, s2, e, q);
    assert w > a1;
    PlaceAt(s2, q - 1);
    assert Low(less, values, s2, s1[w]);
    hide Place, StrictWeakOrder, Held, Arranged;
  }

  lemma SortedFrom<P, K>(less: (K, K) -> bool, values: map<P, K>, s: seq<P>, p: int, e: int)
    requires 0 <= p <= e <= |s| && forall q :: p < q < e ==> InOrder(less, values, s[q - 1], s[q])
    ensures SortedExcept(less, values, s[p..e], {})
  {
    var r := s[p..e];
    forall i | 0 < i < |r| ensures InOrder(less, values, r[i - 1], r[i]) {
      assert r[i - 1] == s[p + i - 1] && r[i] == s[p + i];
    }
  }

  lemma RightSorted<P, K(!new)>(less: (K, K) -> bool, values: map<P, K>, s: seq<P>, s1: seq<P>, s2: seq<P>, a: int,
                                a1: int, e: int, p: int)
    requires Level(less, values, s, s1, s2, a, a1, e) && p == Place(s2, s1[a1])
    ensures 0 <= p < e <= |s2| && SortedExcept(less, values, s2[p..e], {})
  {
    assert e <= |s|;
    hide *;
    MidPlace(less, values, s, s1, s2, a, a1, e);
    forall q | p < q < e ensures InOrder(less, values, s2[q - 1], s2[q]) {
      RightInOrder(less, values, s, s1, s2, a, a1, e, p, q);
    }
    SortedFrom(less, values, s2, p, e);
  }

  // The order after the merge of the level, t, in terms of the order before its second half, s1.

  /** Nodes of the first part keep their order. */
  lemma FirstPartOrder<P, K(!new)>(less: (K, K) -> bool, values: map<P, K>, s: seq<P>, s1: seq<P>, s2: seq<P>, a: int,
                                   a1: int, e: int, p: int, m: int, n: int)
    requires Level(less, values, s, s1, s2, a, a1, e) && p == Place(s2, s1[a1]) && 0 <= m < n < a1
    ensures 0 <= p < e <= |s2| && Held(values, s2) &&
            Place(Merged(less, values, s2, p, e), s1[m]) < Place(Merged(less, values, s2, p, e), s1[n])
  {
    MidPlace(less, values, s, s1, s2, a, a1, e);
    SamePlaces(values, s1, s2, e, m);
    SamePlaces(values, s1, s2, e, n);
    MergedSameSide(less, values, s2, p, e, s1[m], s1[n]);
    hide Merged, Place;
  }

  lemma GreaterUpToAt<P, K>(less: (K, K) -> bool, values: map<P, K>, s: seq<P>, m: int, y: P)
    requires Distinct(s) && Held(values, s) && 0 <= m < |s| && y in values
    ensures GreaterUpTo(less, values, s, s[m], y) <==> exists k :: 0 <= k <= m && less(values[y], values[s[k]])
  {
    PlaceAt(s, m);
    if GreaterUpTo(less, values, s, s[m], y) {
      var u :| u in s && Place(s, u) <= Place(s, s[m]) && u in values && less(values[y], values[u]);
      PlaceOf(s, u);
      assert less(values[y], values[s[Place(s, u)]]);
    } else {
      forall k | 0 <= k <= m ensures !less(values[y], values[s[k]]) {
        PlaceAt(s, k);
      }
    }
  }

  lemma GreaterAt<P, K>(less: (K, K) -> bool, values: map<P, K>, s: seq<P>, m: int, y: P) returns (k: int)
    requires Distinct(s) && Held(values, s) && 0 <= m < |s| && GreaterUpTo(less, values, s, s[m], y)
    ensures 0 <= k <= m && y in values && s[k] in values && less(values[y], values[s[k]])
  {
    var u := Greater(less, values, s, s[m], y);
    PlaceOf(s, u);
    PlaceAt(s, m);
    k := Place(s, u);
  }

  /** A node greater before the second half was sorted still stands up to the same one. */
  lemma StillGreater<P, K>(less: (K, K) -> bool, values: map<P, K>, s1: seq<P>, s2: seq<P>, a1: int, e: int, m: int,
                           y: P)
    requires Arranged(less, values, s1, s2, a1, e) && 0 <= m <= a1 < |s1| && GreaterUpTo(less, values, s1, s1[m], y)
    ensures GreaterUpTo(less, values, s2, s1[m], y)
  {
    ArrangedNodes(less, values, s1, s2, a1, e);
    SameNodesSize(values, s1, s2, e);
    hide *;
    var k := GreaterAt(less, values, s1, m, y);
    SamePlaces(values, s1, s2, e, k);
    if k < m { EarlierKept(less, values, s1, s2, a1, e, k, m); }
    IsGreater(less, values, s2, s1[m], y, s1[k]);
  }

  lemma WasGreater<P, K(!new)>(less: (K, K) -> bool, values: map<P, K>, s1: seq<P>, s2: seq<P>, a1: int, e: int, m: int,
                               y: P)
    requires StrictWeakOrder(less) && Arranged(less, values, s1, s2, a1, e) && 0 <= m <= a1 < e <= |s1|
    requires GreaterUpTo(less, values, s2, s1[m], y)
    ensures GreaterUpTo(less, values, s1, s1[m], y)
  {
    ArrangedNodes(less, values, s1, s2, a1, e);
    SameNodesSize(values, s1, s2, e);
    hide *;
    var u := Greater(less, values, s2, s1[m], y);
    PlaceOf(s2, u);
    SamePlaces(values, s1, s2, e, m);
    var v := FromBefore(values, s1, s2, e, Place(s2, u));
    GreaterFromSecond(less, values, s1, s2, a1, e, m, y, v);
  }

  lemma LevelParts<P, K(!new)>(less: (K, K) -> bool, values: map<P, K>, s: seq<P>, s1: seq<P>, s2: seq<P>, a: int,
                               a1: int, e: int)
    requires Level(less, values, s, s1, s2, a, a1, e)
    ensures StrictWeakOrder(less) && Arranged(less, values, s1, s2, a1, e) && 0 <= a < a1 < e <= |s1|
  {
    ArrangedNodes(less, values, s, s1, a, a1);
    hide Arranged, StrictWeakOrder;
  }

  /** What is greater up to a node of the first part has not changed by sorting the second half. */
  lemma GreaterBeforeMid<P, K(!new)>(less: (K, K) -> bool, values: map<P, K>, s: seq<P>, s1: seq<P>, s2: seq<P>, a: int,
                                     a1: int, e: int, m: int, y: P)
    requires Level(less, values, s, s1, s2, a, a1, e) && 0 <= m < a1 && y in values
    ensures GreaterUpTo(less, values, s2, s1[m], y) <==> GreaterUpTo(less, values, s1, s1[m], y)
  {
    LevelParts(less, values, s, s1, s2, a, a1, e);
    hide *;
    if GreaterUpTo(less, values, s1, s1[m], y) { StillGreater(less, values, s1, s2, a1, e, m, y); }
    if GreaterUpTo(less, values, s2, s1[m], y) { WasGreater(less, values, s1, s2, a1, e, m, y); }
  }

  lemma IsGreater<P, K>(less: (K, K) -> bool, values: map<P, K>, s: seq<P>, x: P, y: P, u: P)
    requires u in s && Place(s, u) <= Place(s, x) && u in values && y in values && less(values[y], values[u])
    ensures GreaterUpTo(less, values, s, x, y)
  {
  }

  lemma Greater<P, K>(less: (K, K) -> bool, values: map<P, K>, s: seq<P>, x: P, y: P) returns (u: P)
    requires GreaterUpTo(less, values, s, x, y)
    ensures u in s && Place(s, u) <= Place(s, x) && u in values && y in values && less(values[y], values[u])
  {
    u :| u in s && Place(s, u) <= Place(s, x) && u in values && less(values[y], values[u]);
  }

  lemma OldOrderAt<P>(s: seq<P>, t: seq<P>, a: int, k: int, m: int)
    requires OldOrder(s, t, a) && 0 <= k < m < |s|
    ensures m <= a ==> Place(t, s[k]) < Place(t, s[m])
  {
  }

  lemma JumpsAt<P, K>(less: (K, K) -> bool, values: map<P, K>, s: seq<P>, t: seq<P>, a: int, e: int, k: int, w: int)
    requires Arranged(less, values, s, t, a, e) && 0 <= k <= a < w < e
    ensures SameNodes(values, s, t, e)
    ensures Place(t, s[w]) < Place(t, s[k]) <==> GreaterUpTo(less, values, s, s[k], s[w])
  {
    ArrangedNodes(less, values, s, t, a, e);
    SameNodesSize(values, s, t, e);
    assert Jumps(less, values, s, t, a, e);
    hide SameNodes, OldOrder, AllLow, LowKept, Place, GreaterUpTo, Arranged;
  }

  lemma SameNodesSize<P, K>(values: map<P, K>, s: seq<P>, t: seq<P>, e: int)
    requires SameNodes(values, s, t, e)
    ensures 0 <= e <= |s| == |t| && Distinct(s) && Held(values, s)
  {
  }

  lemma EarlierKept<P, K>(less: (K, K) -> bool, values: map<P, K>, s: seq<P>, t: seq<P>, a: int, e: int, k: int, m: int)
    requires Arranged(less, values, s, t, a, e) && 0 <= k < m <= a && m < |s|
    ensures Place(t, s[k]) < Place(t, s[m])
  {
    hide SameNodes, Jumps, AllLow, LowKept, Place;
  }

  lemma GreaterFromSecond<P, K(!new)>(less: (K, K) -> bool, values: map<P, K>, s1: seq<P>, s2: seq<P>, a1: int, e: int,
                                      m: int, y: P, v: int)
    requires StrictWeakOrder(less) && Arranged(less, values, s1, s2, a1, e) && 0 <= m <= a1 < e <= |s1| &&
             0 <= v < e && y in values
    requires s1[v] in values && less(values[y], values[s1[v]]) && Place(s2, s1[v]) <= Place(s2, s1[m])
    ensures GreaterUpTo(less, values, s1, s1[m], y)
  {
    ArrangedNodes(less, values, s1, s2, a1, e);
    SameNodesSize(values, s1, s2, e);
    hide Arranged, Place, GreaterUpTo, SameNodes, Distinct;
    GreaterUpToAt(less, values, s1, m, y);
    if m < v <= a1 {
      EarlierKept(less, values, s1, s2, a1, e, m, v);
      assert false;
    }
    if v > a1 {
      JumpsAt(less, values, s1, s2, a1, e, m, v);
      PlacesDiffer(values, s1, s2, e, m, v);
      GreaterUpToAt(less, values, s1, m, s1[v]);
      var k :| 0 <= k <= m && less(values[s1[v]], values[s1[k]]);
      assert less(values[y], values[s1[k]]);
    }
  }

  /** A node of the second half goes before one of the first part just when one up to that is greater. */
  lemma SecondAcrossFirst<P, K(!new)>(less: (K, K) -> bool, values: map<P, K>, s: seq<P>, s1: seq<P>, s2: seq<P>,
                                      a: int, a1: int, e: int, p: int, m: int, w: int)
    requires Level(less, values, s, s1, s2, a, a1, e) && p == Place(s2, s1[a1]) && 0 <= m < a1 <= w < e
    ensures 0 <= p < e <= |s2| && Held(values, s2)
    ensures var t := Merged(less, values, s2, p, e);
      Place(t, s1[w]) < Place(t, s1[m]) <==> GreaterUpTo(less, values, s1, s1[m], s1[w])
  {
    MidPlace(less, values, s, s1, s2, a, a1, e);
    RightSorted(less, values, s, s1, s2, a, a1, e, p);
    SamePlaces(values, s1, s2, e, m);
    SamePlaces(values, s1, s2, e, w);
    var x, y := s1[m], s1[w];
    if Place(s2, y) < p {
      assert w > a1;
      MergedSameSide(less, values, s2, p, e, y, x);
    } else {
      MergedAcross(less, values, s2, p, e, x, y);
      GreaterBeforeMid(less, values, s, s1, s2, a, a1, e, m, y);
    }
    hide Merged, Place, SortedExcept, GreaterUpTo;
  }

  lemma FirstPartStaysLow<P, K(!new)>(less: (K, K) -> bool, values: map<P, K>, s: seq<P>, s1: seq<P>, s2: seq<P>,
                                      a: int, a1: int, e: int, p: int, m: int)
    requires Level(less, values, s, s1, s2, a, a1, e) && p == Place(s2, s1[a1]) && 0 <= m < a1 &&
             Low(less, values, s1, s1[m])
    ensures 0 <= p < e <= |s2| && Held(values, s2) && Low(less, values, Merged(less, values, s2, p, e), s1[m])
  {
    MidPlace(less, values, s, s1, s2, a, a1, e);
    RightSorted(less, values, s, s1, s2, a, a1, e, p);
    SamePlaces(values, s1, s2, e, m);
    assert LowKept(less, values, s1, s2, a1);
    hide Low, Merged, Place, SortedExcept;
    LeftStaysLow(less, values, s2, p, e, s1[m]);
  }

  lemma SecondIsLow<P, K(!new)>(less: (K, K) -> bool, values: map<P, K>, s: seq<P>, s1: seq<P>, s2: seq<P>, a: int,
                                a1: int, e: int, p: int, w: int)
    requires Level(less, values, s, s1, s2, a, a1, e) && p == Place(s2, s1[a1]) && a1 <= w < e
    ensures 0 <= p < e <= |s2| && Held(values, s2) && Low(less, values, Merged(less, values, s2, p, e), s1[w])
  {
    MidPlace(less, values, s, s1, s2, a, a1, e);
    RightSorted(less, values, s, s1, s2, a, a1, e, p);
    SamePlaces(values, s1, s2, e, w);
    assert AllLow(less, values, s1, s2, a1, e);
    hide Low, Merged, Place, SortedExcept;
    if Place(s2, s1[w]) < p {
      assert w > a1;
      LeftStaysLow(less, values, s2, p, e, s1[w]);
    } else {
      RightIsLow(less, values, s2, p, e, s1[w]);
    }
  }

  // The same in terms of the order before the level, s.

  /** What is greater up to an old node has not changed by sorting the first half. */
  lemma GreaterBeforeOld<P, K(!new)>(less: (K, K) -> bool, values: map<P, K>, s: seq<P>, s1: seq<P>, a: int, a1: int,
                                     k: int, y: P)
    requires StrictWeakOrder(less) && 0 <= k <= a < a1 <= |s| && Arranged(less, values, s, s1, a, a1) && y in values
    ensures GreaterUpTo(less, values, s1, s[k], y) <==> GreaterUpTo(less, values, s, s[k], y)
  {
    hide *;
    if GreaterUpTo(less, values, s, s[k], y) { StillGreater(less, values, s, s1, a, a1, k, y); }
    if GreaterUpTo(less, values, s1, s[k], y) { WasGreater(less, values, s, s1, a, a1, k, y); }
  }

  ghost predicate MergedLevel<P, K(!new)>(less: (K, K) -> bool, values: map<P, K>, s: seq<P>, s1: seq<P>, s2: seq<P>,
                                          t: seq<P>, a: int, a1: int, e: int) {
    && Level(less, values, s, s1, s2, a, a1, e)
    && var p := Place(s2, s1[a1]);
      0 <= p < e <= |s2| && Held(values, s2) && t == Merged(less, values, s2, p, e)
  }

  lemma LevelFacts<P, K(!new)>(less: (K, K) -> bool, values: map<P, K>, s: seq<P>, s1: seq<P>, s2: seq<P>, t: seq<P>,
                               a: int, a1: int, e: int)
    requires MergedLevel(less, values, s, s1, s2, t, a, a1, e)
    ensures StrictWeakOrder(less) && 0 <= a < a1 < e <= |s| == |s1| && Level(less, values, s, s1, s2, a, a1, e)
    ensures SameNodes(values, s, s1, a1) && OldOrder(s, s1, a) && Jumps(less, values, s, s1, a, a1)
    ensures Distinct(s1) && Held(values, s1)
    ensures AllLow(less, values, s, s1, a, a1) && LowKept(less, values, s, s1, a)
  {
    hide Merged, Place, OldOrder, Jumps, AllLow, LowKept;
  }

  /** Two nodes of the first half, or before it: sorting the second half and merging keep their order. */
  lemma LevelFirst<P, K(!new)>(less: (K, K) -> bool, values: map<P, K>, s: seq<P>, s1: seq<P>, s2: seq<P>, t: seq<P>,
                               a: int, a1: int, e: int, v: int, w: int)
    requires MergedLevel(less, values, s, s1, s2, t, a, a1, e) && 0 <= v < a1 && 0 <= w < a1
    ensures a1 <= |s| && (Place(t, s[v]) < Place(t, s[w]) <==> Place(s1, s[v]) < Place(s1, s[w]))
  {
    hide Merged, Place, SameNodes, OldOrder, Jumps, AllLow, LowKept, Level;
    LevelFacts(less, values, s, s1, s2, t, a, a1, e);
    SamePlaces(values, s, s1, a1, v);
    SamePlaces(values, s, s1, a1, w);
    var i, j := Place(s1, s[v]), Place(s1, s[w]);
    var p := Place(s2, s1[a1]);
    if i < j {
      FirstPartOrder(less, values, s, s1, s2, a, a1, e, p, i, j);
    } else if j < i {
      FirstPartOrder(less, values, s, s1, s2, a, a1, e, p, j, i);
    }
  }

  lemma LevelAcross<P, K(!new)>(less: (K, K) -> bool, values: map<P, K>, s: seq<P>, s1: seq<P>, s2: seq<P>, t: seq<P>,
                                a: int, a1: int, e: int, v: int, w: int)
    requires MergedLevel(less, values, s, s1, s2, t, a, a1, e) && 0 <= v < a1 <= w < e
    ensures Place(t, s[w]) < Place(t, s[v]) <==> GreaterUpTo(less, values, s1, s[v], s[w])
  {
    SamePlaces(values, s, s1, a1, v);
    SamePlaces(values, s, s1, a1, w);
    SecondAcrossFirst(less, values, s, s1, s2, a, a1, e, Place(s2, s1[a1]), Place(s1, s[v]), w);
    hide Merged, Place, GreaterUpTo;
  }

  lemma LevelJumps<P, K(!new)>(less: (K, K) -> bool, values: map<P, K>, s: seq<P>, s1: seq<P>, s2: seq<P>, t: seq<P>,
                               a: int, a1: int, e: int, k: int, w: int)
    requires MergedLevel(less, values, s, s1, s2, t, a, a1, e) && 0 <= k <= a < w < e
    ensures Place(t, s[w]) < Place(t, s[k]) <==> GreaterUpTo(less, values, s, s[k], s[w])
  {
    if w < a1 {
      LevelFirst(less, values, s, s1, s2, t, a, a1, e, w, k);
      assert Jumps(less, values, s, s1, a, a1);
    } else {
      LevelAcross(less, values, s, s1, s2, t, a, a1, e, k, w);
      SamePlaces(values, s, s1, a1, w);
      GreaterBeforeOld(less, values, s, s1, a, a1, k, s[w]);
    }
    hide Merged, Place, GreaterUpTo;
  }

  lemma LevelLow<P, K(!new)>(less: (K, K) -> bool, values: map<P, K>, s: seq<P>, s1: seq<P>, s2: seq<P>, t: seq<P>,
                             a: int, a1: int, e: int, w: int)
    requires MergedLevel(less, values, s, s1, s2, t, a, a1, e) && 0 <= w < e
    requires w < a1 ==> Low(less, values, s1, s[w])
    ensures Low(less, values, t, s[w])
  {
    SamePlaces(values, s, s1, a1, w);
    var p := Place(s2, s1[a1]);
    hide Low, Merged;
    if w < a1 {
      FirstPartStaysLow(less, values, s, s1, s2, a, a1, e, p, Place(s1, s[w]));
    } else {
      SecondIsLow(less, values, s, s1, s2, a, a1, e, p, w);
    }
  }

  lemma LevelSame<P, K(!new)>(less: (K, K) -> bool, values: map<P, K>, s: seq<P>, s1: seq<P>, s2: seq<P>, t: seq<P>,
                              a: int, a1: int, e: int)
    requires MergedLevel(less, values, s, s1, s2, t, a, a1, e)
    ensures SameNodes(values, s, t, e)
  {
    MergedMembers(less, values, s2, Place(s2, s1[a1]), e);
    hide Merged, Place;
    HeldMembers(values, s2, t);
    assert s1[e..] == s1[a1..][e - a1..] && s[e..] == s[a1..][e - a1..];
  }

  lemma LevelOldOrder<P, K(!new)>(less: (K, K) -> bool, values: map<P, K>, s: seq<P>, s1: seq<P>, s2: seq<P>, t: seq<P>,
                                  a: int, a1: int, e: int)
    requires MergedLevel(less, values, s, s1, s2, t, a, a1, e)
    ensures OldOrder(s, t, a)
  {
    LevelFacts(less, values, s, s1, s2, t, a, a1, e);
    hide MergedLevel, Level, Place, GreaterUpTo, Low, SameNodes, StrictWeakOrder;
    forall k, m | 0 <= k < m <= a && m < |s| ensures Place(t, s[k]) < Place(t, s[m]) {
      LevelFirst(less, values, s, s1, s2, t, a, a1, e, k, m);
      OldOrderAt(s, s1, a, k, m);
    }
  }

  lemma LevelAllJumps<P, K(!new)>(less: (K, K) -> bool, values: map<P, K>, s: seq<P>, s1: seq<P>, s2: seq<P>, t: seq<P>,
                                  a: int, a1: int, e: int)
    requires MergedLevel(less, values, s, s1, s2, t, a, a1, e)
    ensures Jumps(less, values, s, t, a, e)
  {
    LevelFacts(less, values, s, s1, s2, t, a, a1, e);
    hide MergedLevel, Level, Place, GreaterUpTo, Low, SameNodes, StrictWeakOrder;
    forall k, w | 0 <= k <= a < w < e <= |s|
      ensures Place(t, s[w]) < Place(t, s[k]) <==> GreaterUpTo(less, values, s, s[k], s[w])
    {
      LevelJumps(less, values, s, s1, s2, t, a, a1, e, k, w);
    }
  }

  lemma LevelAllLow<P, K(!new)>(less: (K, K) -> bool, values: map<P, K>, s: seq<P>, s1: seq<P>, s2: seq<P>, t: seq<P>,
                                a: int, a1: int, e: int)
    requires MergedLevel(less, values, s, s1, s2, t, a, a1, e)
    ensures AllLow(less, values, s, t, a, e) && LowKept(less, values, s, t, a)
  {
    LevelFacts(less, values, s, s1, s2, t, a, a1, e);
    hide MergedLevel, Level, Place, GreaterUpTo, Low, SameNodes, StrictWeakOrder;
    forall w | 0 <= a < w < e <= |s| ensures Low(less, values, t, s[w]) {
      LevelLow(less, values, s, s1, s2, t, a, a1, e, w);
    }
    forall k | 0 <= k <= a && k < |s| && Low(less, values, s, s[k]) ensures Low(less, values, t, s[k]) {
      LevelLow(less, values, s, s1, s2, t, a, a1, e, k);
    }
  }

  lemma LevelArranged<P, K(!new)>(less: (K, K) -> bool, values: map<P, K>, s: seq<P>, s1: seq<P>, s2: seq<P>, t: seq<P>,
                                  a: int, a1: int, e: int)
    requires MergedLevel(less, values, s, s1, s2, t, a, a1, e)
    ensures Arranged(less, values, s, t, a, e)
  {
    hide MergedLevel, OldOrder, Jumps, AllLow, LowKept, SameNodes;
    LevelSame(less, values, s, s1, s2, t, a, a1, e);
    LevelOldOrder(less, values, s, s1, s2, t, a, a1, e);
    LevelAllJumps(less, values, s, s1, s2, t, a, a1, e);
    LevelAllLow(less, values, s, s1, s2, t, a, a1, e);
  }

  // The recursion.

  lemma OneArranged<P, K(!new)>(less: (K, K) -> bool, values: map<P, K>, s: seq<P>, a: int, e: int)
    requires Distinct(s) && Held(values, s) && 0 <= a <= e <= |s| && e <= a + 1
    ensures Arranged(less, values, s, s, a, e)
  {
    forall k, m | 0 <= k < m <= a && m < |s| ensures Place(s, s[k]) < Place(s, s[m]) {
      PlaceAt(s, k);
      PlaceAt(s, m);
    }
  }

  lemma ArrangedSame<P, K>(less: (K, K) -> bool, values: map<P, K>, s: seq<P>, t: seq<P>, a: int, e: int)
    requires Arranged(less, values, s, t, a, e)
    ensures |s| == |t| && Distinct(t) && Held(values, t)
  {
    hide OldOrder, Jumps, AllLow, LowKept;
  }

  /** Two arranged halves and their merge make a level. */
  lemma LevelMade<P, K(!new)>(less: (K, K) -> bool, values: map<P, K>, s: seq<P>, s1: seq<P>, s2: seq<P>, a: int,
                              a1: int, e: int)
    requires StrictWeakOrder(less) && 0 <= a < a1 < e <= |s|
    requires Arranged(less, values, s, s1, a, a1) && Arranged(less, values, s1, s2, a1, e)
    ensures a1 < |s1| && MergedLevel(less, values, s, s1, s2, MergeAt(less, values, s2, s1[a1], e), a, a1, e)
  {
    hide Arranged, Merged, MergeAt, Place, StrictWeakOrder, Held;
    MidPlace(less, values, s, s1, s2, a, a1, e);
    MergeAtPosition(less, values, s2, s1[a1], Place(s2, s1[a1]), e);
    MergedIs(less, values, s2, Place(s2, s1[a1]), e);
  }

  lemma MergedIs<P, K>(less: (K, K) -> bool, values: map<P, K>, s: seq<P>, p: int, e: int)
    requires Held(values, s) && 0 <= p <= e <= |s|
    ensures Held(values, s[..p]) && Held(values, s[p..e])
    ensures Merged(less, values, s, p, e) == Interleave(less, values, s[..p], s[p..e]) + s[e..]
  {
  }

  /**
   * `_sort` arranges its range, whatever stands before it; what the two recursive calls and the merge leave is a
   * level.
   */
  lemma {:induction false} SortArranges<P, K(!new)>(less: (K, K) -> bool, values: map<P, K>, s: seq<P>, a: int,
                                                    count: nat)
    requires StrictWeakOrder(less) && Distinct(s) && Held(values, s) && 0 <= a && a + count <= |s|
    ensures Arranged(less, values, s, SortSeq(less, values, s, a, count), a, a + count)
    decreases count, 1
  {
    hide *;
    if count <= 1 {
      OneArranged(less, values, s, a, a + count);
      SortSeqShort(less, values, s, a, count);
    } else {
      var s1, s2 := SortLevel(less, values, s, a, count);
      LevelArranged(less, values, s, s1, s2, SortSeq(less, values, s, a, count), a, a + count / 2, a + count);
    }
  }

  lemma {:induction false} SortLevel<P, K(!new)>(less: (K, K) -> bool, values: map<P, K>, s: seq<P>, a: int, count: nat)
    returns (s1: seq<P>, s2: seq<P>)
    requires StrictWeakOrder(less) && Distinct(s) && Held(values, s) && 0 <= a && a + count <= |s| && count > 1
    ensures s1 == SortSeq(less, values, s, a, count / 2)
    ensures s2 == SortSeq(less, values, s1, a + count / 2, count - count / 2)
    ensures MergedLevel(less, values, s, s1, s2, SortSeq(less, values, s, a, count), a, a + count / 2, a + count)
    decreases count, 0
  {
    hide *;
    var a1, e := a + count / 2, a + count;
    s1 := SortSeq(less, values, s, a, count / 2);
    s2 := SortSeq(less, values, s1, a1, count - count / 2);
    SortArranges(less, values, s, a, count / 2);
    ArrangedSame(less, values, s, s1, a, a1);
    SortArranges(less, values, s1, a1, count - count / 2);
    LevelMade(less, values, s, s1, s2, a, a1, e);
    SortSeqUnfolds(less, values, s, s1, s2, a, count);
  }

  // Equivalent nodes.

  ghost predicate Equivalent<P, K>(less: (K, K) -> bool, values: map<P, K>, x: P, y: P) {
    x in values && y in values && !less(values[x], values[y]) && !less(values[y], values[x])
  }

  /** Sorting count nodes from a on, `_sort` calls itself, or is called, on a range that begins at i and holds j. */
  predicate Begins(a: int, count: nat, i: int, j: int)
    decreases count
  {
    && 1 < count && a <= i < j < a + count
    && (i == a
        || (if j < a + count / 2 then Begins(a, count / 2, i, j)
            else i >= a + count / 2 && Begins(a + count / 2, count - count / 2, i, j)))
  }

  /** Some node before position i is greater than y. */
  ghost predicate GreaterBefore<P, K>(less: (K, K) -> bool, values: map<P, K>, s: seq<P>, i: int, y: P) {
    exists k :: 0 <= k < i <= |s| && s[k] in values && y in values && less(values[y], values[s[k]])
  }

  /** The first node of a range: it is passed by an equivalent one just when something before the range is greater. */
  lemma FirstOfRange<P, K(!new)>(less: (K, K) -> bool, values: map<P, K>, s: seq<P>, t: seq<P>, a: int, e: int, j: int)
    requires StrictWeakOrder(less) && Arranged(less, values, s, t, a, e) && 0 <= a < j < e &&
             Equivalent(less, values, s[a], s[j])
    ensures Place(t, s[j]) < Place(t, s[a]) <==> GreaterBefore(less, values, s, a, s[j])
  {
    GreaterUpToAt(less, values, s, a, s[j]);
    assert Jumps(less, values, s, t, a, e);
    if GreaterUpTo(less, values, s, s[a], s[j]) {
      var k :| 0 <= k <= a && less(values[s[j]], values[s[k]]);
      assert k < a;
    }
    hide Place, GreaterUpTo, OldOrder, AllLow, LowKept;
  }

  /** Two equivalent nodes of the second half keep the order its sorting gave them. */
  lemma SecondPair<P, K(!new)>(less: (K, K) -> bool, values: map<P, K>, s: seq<P>, s1: seq<P>, s2: seq<P>, t: seq<P>,
                               a: int, a1: int, e: int, i: int, j: int)
    requires MergedLevel(less, values, s, s1, s2, t, a, a1, e) && a1 <= i < j < e &&
             Equivalent(less, values, s1[i], s1[j])
    ensures Place(t, s1[j]) < Place(t, s1[i]) <==> Place(s2, s1[j]) < Place(s2, s1[i])
  {
    var p := Place(s2, s1[a1]);
    MidPlace(less, values, s, s1, s2, a, a1, e);
    RightSorted(less, values, s, s1, s2, a, a1, e, p);
    SamePlaces(values, s1, s2, e, i);
    SamePlaces(values, s1, s2, e, j);
    SecondLow(less, values, s1, s2, a1, e, i);
    SecondLow(less, values, s1, s2, a1, e, j);
    var x, y := s1[i], s1[j];
    hide Arranged, Place, Merged, SortedExcept, GreaterUpTo, Low, SameNodes;
    PairMerged(less, values, s2, p, e, x, y);
  }

  lemma SecondLow<P, K(!new)>(less: (K, K) -> bool, values: map<P, K>, s1: seq<P>, s2: seq<P>, a1: int, e: int, i: int)
    requires Arranged(less, values, s1, s2, a1, e) && 0 <= a1 <= i < e <= |s1|
    ensures a1 < i ==> Low(less, values, s2, s1[i])
    ensures i == a1 ==> s1[i] == s1[a1]
  {
    hide Low;
  }

  lemma PairMerged<P, K(!new)>(less: (K, K) -> bool, values: map<P, K>, s: seq<P>, p: int, e: int, x: P, y: P)
    requires StrictWeakOrder(less) && Held(values, s) && 0 <= p <= e <= |s| && Distinct(s) && x in s && y in s
    requires SortedExcept(less, values, s[p..e], {}) && 0 <= Place(s, x) < e && 0 <= Place(s, y) < e && x != y
    requires Equivalent(less, values, x, y)
    requires Place(s, x) < p ==> Low(less, values, s, x)
    requires Place(s, y) < p ==> Low(less, values, s, y)
    ensures var t := Merged(less, values, s, p, e); Place(t, y) < Place(t, x) <==> Place(s, y) < Place(s, x)
  {
    var t := Merged(less, values, s, p, e);
    if Place(s, x) < p && Place(s, y) >= p {
      MergedAcross(less, values, s, p, e, x, y);
      LowNotGreater(less, values, s, x, y);
    } else if Place(s, y) < p && Place(s, x) >= p {
      MergedAcross(less, values, s, p, e, y, x);
      LowNotGreater(less, values, s, y, x);
      DifferentPlaces(less, values, s, p, e, x, y);
    } else {
      MergedSameSide(less, values, s, p, e, y, x);
    }
  }

  lemma DifferentPlaces<P, K>(less: (K, K) -> bool, values: map<P, K>, s: seq<P>, p: int, e: int, x: P, y: P)
    requires Held(values, s) && 0 <= p <= e <= |s| && Distinct(s) && x in s && y in s && x != y
    ensures Place(Merged(less, values, s, p, e), x) != Place(Merged(less, values, s, p, e), y)
  {
    var t := Merged(less, values, s, p, e);
    MergedMembers(less, values, s, p, e);
    SameMembers(s, t);
    PlaceOf(t, x);
    PlaceOf(t, y);
  }

  /** Sorting the first half does not change what stands before a node of the second. */
  lemma SameGreaterBefore<P, K>(less: (K, K) -> bool, values: map<P, K>, s: seq<P>, s1: seq<P>, a1: int, i: int, y: P)
    requires SameNodes(values, s, s1, a1) && a1 <= i <= |s|
    ensures GreaterBefore(less, values, s1, i, y) <==> GreaterBefore(less, values, s, i, y)
  {
    if GreaterBefore(less, values, s, i, y) {
      var k :| 0 <= k < i && s[k] in values && y in values && less(values[y], values[s[k]]);
      SamePlaces(values, s, s1, a1, k);
      assert s1[Place(s1, s[k])] == s[k];
    }
    if GreaterBefore(less, values, s1, i, y) {
      var k :| 0 <= k < i && s1[k] in values && y in values && less(values[y], values[s1[k]]);
      var v := FromBefore(values, s, s1, a1, k);
      assert s[v] == s1[k];
    }
  }

  /**
   * Two equivalent nodes of the range are exchanged just when the recursion has a range that begins at the first
   * of them and holds the other, and some node before the first is greater.
   */
  lemma {:induction false} PairExchanged<P, K(!new)>(less: (K, K) -> bool, values: map<P, K>, s: seq<P>, a: int,
                                                     count: nat, i: int, j: int)
    requires StrictWeakOrder(less) && Distinct(s) && Held(values, s) && 0 <= a <= i < j < a + count <= |s|
    requires Equivalent(less, values, s[i], s[j])
    ensures var t := SortSeq(less, values, s, a, count);
      Place(t, s[j]) < Place(t, s[i]) <==> Begins(a, count, i, j) && GreaterBefore(less, values, s, i, s[j])
    decreases count
  {
    hide SortSeq, Place, GreaterBefore, Distinct, Held, StrictWeakOrder, Equivalent, MergedLevel, Arranged, Level;
    var t := SortSeq(less, values, s, a, count);
    if i == a {
      SortArranges(less, values, s, a, count);
      FirstOfRange(less, values, s, t, a, a + count, j);
    } else {
      var a1, e := a + count / 2, a + count;
      var s1, s2 := SortLevel(less, values, s, a, count);
      LevelFacts(less, values, s, s1, s2, t, a, a1, e);
      if j < a1 {
        PairExchanged(less, values, s, a, count / 2, i, j);
        LevelFirst(less, values, s, s1, s2, t, a, a1, e, j, i);
      } else if i < a1 {
        LevelAcross(less, values, s, s1, s2, t, a, a1, e, i, j);
        FirstIsLow(less, values, s, s1, a, a1, i, s[j]);
      } else {
        SamePlaces(values, s, s1, a1, i);
        SamePlaces(values, s, s1, a1, j);
        PairExchanged(less, values, s1, a1, count - count / 2, i, j);
        SameGreaterBefore(less, values, s, s1, a1, i, s[j]);
        SecondPair(less, values, s, s1, s2, t, a, a1, e, i, j);
      }
    }
  }

  lemma FirstIsLow<P, K(!new)>(less: (K, K) -> bool, values: map<P, K>, s: seq<P>, s1: seq<P>, a: int, a1: int, i: int,
                               y: P)
    requires StrictWeakOrder(less) && SameNodes(values, s, s1, a1) && AllLow(less, values, s, s1, a, a1)
    requires 0 <= a < i < a1 <= |s| && Equivalent(less, values, s[i], y)
    ensures !GreaterUpTo(less, values, s1, s[i], y)
  {
    SamePlaces(values, s, s1, a1, i);
    LowNotGreater(less, values, s1, s[i], y);
  }

  ghost predicate KeepsOrder<P, K>(less: (K, K) -> bool, values: map<P, K>, s: seq<P>, t: seq<P>, i: int, j: int) {
    0 <= i < j < |s| && Equivalent(less, values, s[i], s[j]) ==> Place(t, s[i]) < Place(t, s[j])
  }

  /** What it takes to lose the order of an equivalent pair. */
  ghost predicate Exchanges<P, K>(less: (K, K) -> bool, values: map<P, K>, s: seq<P>, i: int, j: int) {
    && 0 <= i < j < |s| && Equivalent(less, values, s[i], s[j])
    && Begins(0, |s|, i, j) && GreaterBefore(less, values, s, i, s[j])
  }

  lemma PlacesDiffer<P, K>(values: map<P, K>, s: seq<P>, t: seq<P>, e: int, i: int, j: int)
    requires SameNodes(values, s, t, e) && 0 <= i < j < |s|
    ensures Place(t, s[i]) != Place(t, s[j])
  {
    SamePlaces(values, s, t, e, i);
    SamePlaces(values, s, t, e, j);
  }

  lemma ArrangedNodes<P, K>(less: (K, K) -> bool, values: map<P, K>, s: seq<P>, t: seq<P>, a: int, e: int)
    requires Arranged(less, values, s, t, a, e)
    ensures SameNodes(values, s, t, e)
  {
    hide SameNodes, OldOrder, Jumps, AllLow, LowKept;
  }

  lemma PairKept<P, K(!new)>(less: (K, K) -> bool, values: map<P, K>, s: seq<P>, t: seq<P>, i: int, j: int)
    requires StrictWeakOrder(less) && Distinct(s) && Held(values, s) && t == SortSeq(less, values, s, 0, |s|)
    ensures KeepsOrder(less, values, s, t, i, j) <==> !Exchanges(less, values, s, i, j)
  {
    hide SortSeq, Place, GreaterBefore, Begins, Arranged, SameNodes, Equivalent, StrictWeakOrder, Distinct, Held;
    if 0 <= i < j < |s| && Equivalent(less, values, s[i], s[j]) {
      PairExchanged(less, values, s, 0, |s|, i, j);
      SortArranges(less, values, s, 0, |s|);
      ArrangedNodes(less, values, s, t, 0, |s|);
      PlacesDiffer(values, s, t, |s|, i, j);
    }
  }

  /** Equivalent nodes keep their order. */
  ghost predicate StablySorted<P, K>(less: (K, K) -> bool, values: map<P, K>, s: seq<P>, t: seq<P>) {
    forall i, j :: KeepsOrder(less, values, s, t, i, j)
  }

  /**
   * `list::sort` is stable on a list if and only if no range of its recursion begins behind a greater node with
   * equivalent ones.
   */
  lemma SortIsStableIff<P, K(!new)>(less: (K, K) -> bool, values: map<P, K>, s: seq<P>, t: seq<P>)
    requires StrictWeakOrder(less) && Distinct(s) && Held(values, s) && t == SortSeq(less, values, s, 0, |s|)
    ensures StablySorted(less, values, s, t) <==> forall i, j :: !Exchanges(less, values, s, i, j)
  {
    hide SortSeq, KeepsOrder, Exchanges;
    forall i, j ensures KeepsOrder(less, values, s, t, i, j) <==> !Exchanges(less, values, s, i, j) {
      PairKept(less, values, s, t, i, j);
    }
  }
}
