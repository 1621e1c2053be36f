/** Merging and sorting sequences of list nodes by their values, without any memory. */
module Merging {
  import opened Sequences

  /** A strict weak order: `less` is transitive and irreflexive, and so is its incomparability transitive. */
  ghost predicate StrictWeakOrder<K(!new)>(less: (K, K) -> bool) {
    && (forall x :: !less(x, x))
    && (forall x, y, z :: less(x, y) && less(y, z) ==> less(x, z))
    && (forall x, y, z :: !less(y, x) && !less(z, y) ==> !less(z, x))
  }

  /** y may follow x: its value is not less. */
  ghost predicate InOrder<P, K>(less: (K, K) -> bool, values: map<P, K>, x: P, y: P) {
    x in values && y in values && !less(values[y], values[x])
  }

  /** Each node but those in heads may follow the node before it. */
  ghost predicate SortedExcept<P, K>(less: (K, K) -> bool, values: map<P, K>, s: seq<P>, heads: set<P>) {
    forall i :: 0 < i < |s| ==> s[i] in heads || InOrder(less, values, s[i - 1], s[i])
  }

  /** The textbook merge: the right sequence yields the next node only if it is less than the left one. */
  ghost function Interleave<P, K>(less: (K, K) -> bool, values: map<P, K>, l: seq<P>, r: seq<P>): (s: seq<P>)
    requires Held(values, l) && Held(values, r)
    decreases |l| + |r|
  {
    if l == [] then r
    else if r == [] then l
    else if less(values[r[0]], values[l[0]]) then [r[0]] + Interleave(less, values, l, r[1..])
    else [l[0]] + Interleave(less, values, l[1..], r)
  }

  lemma {:induction false} InterleaveKeeps<P, K>(less: (K, K) -> bool, values: map<P, K>, l: seq<P>, r: seq<P>)
    requires Held(values, l) && Held(values, r)
    ensures multiset(Interleave(less, values, l, r)) == multiset(l) + multiset(r)
    ensures |Interleave(less, values, l, r)| == |l| + |r|
    decreases |l| + |r|
  {
    if l != [] && r != [] {
      if less(values[r[0]], values[l[0]]) {
        InterleaveKeeps(less, values, l, r[1..]);
        assert r == [r[0]] + r[1..];
      } else {
        InterleaveKeeps(less, values, l[1..], r);
        assert l == [l[0]] + l[1..];
      }
    }
  }

  /** A whole run of the right sequence that is less than the left head comes first. */
  lemma {:induction false} InterleaveRun<P, K>(less: (K, K) -> bool, values: map<P, K>, l: seq<P>, r: seq<P>, k: nat)
    requires Held(values, l) && Held(values, r) && k <= |r| && l != []
    requires forall i :: 0 <= i < k ==> less(values[r[i]], values[l[0]])
    ensures Held(values, r[k..]) && Interleave(less, values, l, r) == r[..k] + Interleave(less, values, l, r[k..])
    decreases k
  {
    if k > 0 {
      assert Interleave(less, values, l, r) == [r[0]] + Interleave(less, values, l, r[1..]);
      hide Interleave;
      FirstAndRest(r, k);
      forall i | 0 <= i < k - 1 ensures less(values[r[1..][i]], values[l[0]]) {
        assert r[1..][i] == r[i + 1];
      }
      InterleaveRun(less, values, l, r[1..], k - 1);
      Regrouped([r[0]], r[1..][..k - 1], Interleave(less, values, l, r[k..]));
    } else {
      assert r[..0] == [] && r[0..] == r;
    }
  }

  lemma FirstAndRest<P>(s: seq<P>, k: nat)
    requires 0 < k <= |s|
    ensures s[1..][k - 1..] == s[k..] && [s[0]] + s[1..][..k - 1] == s[..k]
  {
  }

  /** Left nodes that the right head is not less than come first. */
  lemma {:induction false} InterleaveSkip<P, K>(less: (K, K) -> bool, values: map<P, K>, l: seq<P>, r: seq<P>, k: nat)
    requires Held(values, l) && Held(values, r) && k <= |l| && r != []
    requires forall i :: 0 <= i < k ==> !less(values[r[0]], values[l[i]])
    ensures Held(values, l[k..]) && Interleave(less, values, l, r) == l[..k] + Interleave(less, values, l[k..], r)
    decreases k
  {
    if k > 0 {
      InterleaveSkip(less, values, l[1..], r, k - 1);
      assert l[1..][k - 1..] == l[k..];
      assert [l[0]] + l[1..][..k - 1] == l[..k];
    } else {
      assert l[..0] == [] && l[0..] == l;
    }
  }

  /**
   * Merging a sorted run into any sequence keeps that sequence's sorted blocks sorted, each still starting at
   * its own head, and needs no new block for the run.
   */
  lemma {:induction false} InterleaveSorted<P, K(!new)>(less: (K, K) -> bool, values: map<P, K>, l: seq<P>, r: seq<P>,
                                                        heads: set<P>)
    requires Held(values, l) && Held(values, r) && StrictWeakOrder(less)
    requires SortedExcept(less, values, l, heads) && SortedExcept(less, values, r, {})
    ensures SortedExcept(less, values, Interleave(less, values, l, r), heads)
    ensures Interleave(less, values, l, r) != [] ==> var h := Interleave(less, values, l, r)[0];
      (l != [] && h == l[0]) || (r != [] && h == r[0] && (l != [] ==> less(values[r[0]], values[l[0]])))
    decreases |l| + |r|
  {
    if l != [] && r != [] {
      if less(values[r[0]], values[l[0]]) {
        InterleaveSorted(less, values, l, r[1..], heads);
        var rest := Interleave(less, values, l, r[1..]);
        InterleaveKeeps(less, values, l, r[1..]);
        assert rest[0] == l[0] || rest[0] == r[1];
        assert InOrder(less, values, r[0], rest[0]);
      } else {
        InterleaveSorted(less, values, l[1..], r, heads);
        var rest := Interleave(less, values, l[1..], r);
        InterleaveKeeps(less, values, l[1..], r);
        assert rest[0] in heads || InOrder(less, values, l[0], rest[0]);
      }
    }
  }

  /** The nodes of s that are in keep, in their order. */
  ghost function Kept<P>(s: seq<P>, keep: set<P>): seq<P> {
    if s == [] then [] else Kept(s[..|s| - 1], keep) + if s[|s| - 1] in keep then [s[|s| - 1]] else []
  }

  lemma {:induction false} KeptConcat<P>(s: seq<P>, t: seq<P>, keep: set<P>)
    ensures Kept(s + t, keep) == Kept(s, keep) + Kept(t, keep)
    decreases |t|
  {
    if t == [] {
      assert s + t == s;
    } else {
      KeptConcat(s, t[..|t| - 1], keep);
      assert (s + t)[..|s + t| - 1] == s + t[..|t| - 1];
    }
  }

  lemma {:induction false} KeptNone<P>(s: seq<P>, keep: set<P>)
    requires forall x :: x in s ==> x !in keep
    ensures Kept(s, keep) == []
  {
    if s != [] { KeptNone(s[..|s| - 1], keep); }
  }

  lemma {:induction false} KeptAll<P>(s: seq<P>, keep: set<P>)
    requires forall x :: x in s ==> x in keep
    ensures Kept(s, keep) == s
  {
    if s != [] {
      KeptAll(s[..|s| - 1], keep);
      assert s == s[..|s| - 1] + [s[|s| - 1]];
    }
  }

  lemma {:induction false} KeptTwice<P>(s: seq<P>, keep: set<P>, wide: set<P>)
    requires keep <= wide
    ensures Kept(Kept(s, wide), keep) == Kept(s, keep)
  {
    if s != [] {
      KeptTwice(s[..|s| - 1], keep, wide);
      var x := s[|s| - 1];
      if x in wide {
        KeptConcat(Kept(s[..|s| - 1], wide), [x], keep);
        assert Kept([x][..0], keep) == [];
      } else {
        assert Kept(s, wide) == Kept(s[..|s| - 1], wide);
      }
    }
  }

  /** If x is the last node kept, no kept node comes after it. */
  lemma {:induction false} NothingAfterLast<P>(s: seq<P>, keep: set<P>, t: seq<P>, x: P, p: int)
    requires Kept(s, keep) == t + [x] && 0 <= p < |s| && s[p] == x
    requires forall i, j :: 0 <= i < j < |s| ==> s[i] != s[j]
    ensures forall i :: p < i < |s| ==> s[i] !in keep
  {
    var y := s[|s| - 1];
    if y in keep {
      assert Kept(s, keep)[|t|] == y;
    } else if p < |s| - 1 {
      NothingAfterLast(s[..|s| - 1], keep, t, x, p);
    }
  }

  /** Merging leaves the relative order of the left nodes as it was. */
  lemma {:induction false} InterleaveKeepsLeft<P, K>(less: (K, K) -> bool, values: map<P, K>, l: seq<P>, r: seq<P>,
                                                     keep: set<P>)
    requires Held(values, l) && Held(values, r) && (forall x :: x in r ==> x !in keep)
    ensures Kept(Interleave(less, values, l, r), keep) == Kept(l, keep)
    decreases |l| + |r|
  {
    if l == [] || r == [] {
      KeptNone(r, keep);
    } else if less(values[r[0]], values[l[0]]) {
      InterleaveKeepsLeft(less, values, l, r[1..], keep);
      KeptConcat([r[0]], Interleave(less, values, l, r[1..]), keep);
      KeptNone([r[0]], keep);
    } else {
      InterleaveKeepsLeft(less, values, l[1..], r, keep);
      KeptConcat([l[0]], Interleave(less, values, l[1..], r), keep);
      KeptConcat([l[0]], l[1..], keep);
      assert l == [l[0]] + l[1..];
    }
  }

  lemma {:induction false} InterleaveKeepsRight<P, K>(less: (K, K) -> bool, values: map<P, K>, l: seq<P>, r: seq<P>,
                                                      keep: set<P>)
    requires Held(values, l) && Held(values, r) && (forall x :: x in l ==> x !in keep)
    ensures Kept(Interleave(less, values, l, r), keep) == Kept(r, keep)
    decreases |l| + |r|
  {
    if l == [] || r == [] {
      KeptNone(l, keep);
    } else if less(values[r[0]], values[l[0]]) {
      InterleaveKeepsRight(less, values, l, r[1..], keep);
      KeptConcat([r[0]], Interleave(less, values, l, r[1..]), keep);
      KeptConcat([r[0]], r[1..], keep);
      assert r == [r[0]] + r[1..];
    } else {
      InterleaveKeepsRight(less, values, l[1..], r, keep);
      KeptConcat([l[0]], Interleave(less, values, l[1..], r), keep);
      KeptNone([l[0]], keep);
    }
  }

  lemma InterleaveMembers<P, K>(less: (K, K) -> bool, values: map<P, K>, l: seq<P>, r: seq<P>)
    requires Held(values, l) && Held(values, r)
    ensures forall x :: x in Interleave(less, values, l, r) <==> x in l || x in r
  {
    InterleaveKeeps(less, values, l, r);
    forall x ensures x in Interleave(less, values, l, r) <==> x in l || x in r {
      assert x in Interleave(less, values, l, r) <==> x in multiset(Interleave(less, values, l, r));
    }
  }

  /** A right node comes before a left node only if it is strictly less. */
  ghost predicate Stable<P, K>(less: (K, K) -> bool, values: map<P, K>, s: seq<P>, l: seq<P>, r: seq<P>) {
    forall i, j :: 0 <= i < j < |s| && s[i] in r && s[j] in l ==>
      s[i] in values && s[j] in values && less(values[s[i]], values[s[j]])
  }

  lemma {:induction false} SortedAll<P, K(!new)>(less: (K, K) -> bool, values: map<P, K>, s: seq<P>, i: int, j: int)
    requires StrictWeakOrder(less) && Held(values, s) && SortedExcept(less, values, s, {}) && 0 <= i < j < |s|
    ensures !less(values[s[j]], values[s[i]])
    decreases j
  {
    assert InOrder(less, values, s[j - 1], s[j]);
    if i < j - 1 { SortedAll(less, values, s, i, j - 1); }
  }

  lemma {:induction false} InterleaveStable<P, K(!new)>(less: (K, K) -> bool, values: map<P, K>, l: seq<P>, r: seq<P>)
    requires Held(values, l) && Held(values, r) && StrictWeakOrder(less) && SortedExcept(less, values, l, {})
    requires forall x :: x in l ==> x !in r
    ensures Stable(less, values, Interleave(less, values, l, r), l, r)
    decreases |l| + |r|
  {
    if l == [] || r == [] {
      OneSideStable(less, values, l, r);
    } else if less(values[r[0]], values[l[0]]) {
      InterleaveStable(less, values, l, r[1..]);
      var rest := Interleave(less, values, l, r[1..]);
      assert Interleave(less, values, l, r) == [r[0]] + rest;
      hide Interleave, Stable;
      RestMembers(less, values, l, r[1..], rest);
      LeftAllGreater(less, values, l, r[0]);
      StableRight(less, values, rest, l, r);
    } else {
      InterleaveStable(less, values, l[1..], r);
      var rest := Interleave(less, values, l[1..], r);
      assert Interleave(less, values, l, r) == [l[0]] + rest;
      hide Interleave, Stable;
      RestMembers(less, values, l[1..], r, rest);
      StableLeft(less, values, rest, l, r);
    }
  }

  lemma RestMembers<P, K>(less: (K, K) -> bool, values: map<P, K>, l: seq<P>, r: seq<P>, rest: seq<P>)
    requires Held(values, l) && Held(values, r) && rest == Interleave(less, values, l, r)
    ensures forall x :: x in rest ==> x in l || x in r
  {
    InterleaveMembers(less, values, l, r);
    hide Interleave;
    forall x | x in rest ensures x in l || x in r {
      assert x in Interleave(less, values, l, r);
    }
  }

  lemma OneSideStable<P, K>(less: (K, K) -> bool, values: map<P, K>, l: seq<P>, r: seq<P>)
    requires (l == [] || r == []) && Held(values, l) && Held(values, r)
    ensures Stable(less, values, Interleave(less, values, l, r), l, r)
  {
  }

  lemma LeftAllGreater<P, K(!new)>(less: (K, K) -> bool, values: map<P, K>, l: seq<P>, y: P)
    requires Held(values, l) && StrictWeakOrder(less) && SortedExcept(less, values, l, {}) && l != [] && y in values
    requires less(values[y], values[l[0]])
    ensures forall x :: x in l ==> x in values && less(values[y], values[x])
  {
    forall k | 0 <= k < |l| ensures less(values[y], values[l[k]]) {
      if k > 0 { SortedAll(less, values, l, 0, k); }
    }
  }

  /** Putting the first left node in front keeps the rest stable, and so does a right node less than all left ones. */
  lemma StableLeft<P, K>(less: (K, K) -> bool, values: map<P, K>, rest: seq<P>, l: seq<P>, r: seq<P>)
    requires l != [] && Stable(less, values, rest, l[1..], r) && forall x :: x in l ==> x !in r
    requires forall x :: x in rest ==> x in l[1..] || x in r
    ensures Stable(less, values, [l[0]] + rest, l, r)
  {
    var s := [l[0]] + rest;
    forall i, j | 0 <= i < j < |s| && s[i] in r && s[j] in l
      ensures s[i] in values && s[j] in values && less(values[s[i]], values[s[j]])
    {
      assert i > 0 && s[i] == rest[i - 1] && s[j] == rest[j - 1] && rest[j - 1] in rest;
    }
  }

  lemma StableRight<P, K>(less: (K, K) -> bool, values: map<P, K>, rest: seq<P>, l: seq<P>, r: seq<P>)
    requires r != [] && Stable(less, values, rest, l, r[1..]) && forall x :: x in l ==> x !in r
    requires forall x :: x in rest ==> x in l || x in r[1..]
    requires r[0] in values && forall x :: x in l ==> x in values && less(values[r[0]], values[x])
    ensures Stable(less, values, [r[0]] + rest, l, r)
  {
    var s := [r[0]] + rest;
    forall i, j | 0 <= i < j < |s| && s[i] in r && s[j] in l
      ensures s[i] in values && s[j] in values && less(values[s[i]], values[s[j]])
    {
      if i > 0 {
        assert s[i] == rest[i - 1] && s[j] == rest[j - 1] && rest[i - 1] in rest;
      }
    }
  }

  ghost function Members<P>(s: seq<P>): set<P> {
    set x | x in s
  }

  /** What `_sort` establishes for a sequence s after it has dealt with the nodes behind old[..a]. */
  ghost predicate SortedBehind<P, K>(less: (K, K) -> bool, values: map<P, K>, old': seq<P>, s: seq<P>, a: int,
                                     heads: set<P>) {
    && 0 <= a < |old'| == |s|
    && multiset(s) == multiset(old') && Held(values, s)
    && SortedExcept(less, values, s, heads)
    && Kept(s, Members(old'[..a + 1])) == old'[..a + 1]
  }

  /** Where the pending node mid now is: behind the nodes sorted before it, at the head of a sorted block. */
  lemma MidBlock<P, K>(less: (K, K) -> bool, values: map<P, K>, s1: seq<P>, mid: P, s2: seq<P>, a1: int, heads: set<P>,
                       p: int)
    requires 0 < a1 < |s1| && s1[a1] == mid && SortedBehind(less, values, s1, s2, a1, heads + {mid}) && Distinct(s1) &&
             Distinct(s2)
    requires forall i :: a1 <= i < |s1| ==> s1[i] !in heads
    requires 0 <= p < |s2| && s2[p] == mid
    ensures 0 < p
    ensures forall i :: p < i < |s2| ==> s2[i] !in Members(s1[..a1 + 1])
    ensures SortedExcept(less, values, s2[..p], heads) && SortedExcept(less, values, s2[p..], {})
  {
    assert s1[..a1 + 1] == s1[..a1] + [mid];
    NothingAfterLast(s2, Members(s1[..a1 + 1]), s1[..a1], mid, p);
    SameMembers(s1, s2);
    assert p == 0 ==> Kept(s2, Members(s1[..a1 + 1]))[0] == mid by {
      if p == 0 { FirstKept(s2, Members(s1[..a1 + 1])); }
    }
    forall i | p < i < |s2| ensures s2[i] !in heads + {mid} {
      assert s2[i] in s2 && s2[i] in s1;
      var j :| 0 <= j < |s1| && s1[j] == s2[i];
      assert s1[j] in s1[..a1 + 1] || a1 < j;
    }
  }

  lemma {:induction false} FirstKept<P>(s: seq<P>, keep: set<P>)
    requires s != [] && s[0] in keep
    ensures Kept(s, keep) != [] && Kept(s, keep)[0] == s[0]
  {
    if |s| > 1 { FirstKept(s[..|s| - 1], keep); } else { assert Kept(s[..0], keep) == []; }
  }

  lemma SameMembers<P>(s: seq<P>, t: seq<P>)
    requires multiset(s) == multiset(t)
    ensures forall x :: x in s <==> x in t
  {
    forall x ensures x in s <==> x in t { assert x in multiset(s) <==> x in multiset(t); }
  }

  /** Merging the block of mid into everything before it completes one level of the sort. */
  lemma SortCombine<P, K(!new)>(less: (K, K) -> bool, values: map<P, K>, s0: seq<P>, a: int, s1: seq<P>, a1: int,
                                mid: P, s2: seq<P>, heads: set<P>, p: int)
    requires StrictWeakOrder(less) && 0 <= a < a1 < |s0| && Distinct(s0) && Distinct(s1) && Distinct(s2)
    requires |s1| == |s0| && SortedBehind(less, values, s0[..a1], s1[..a1], a, heads) && s1[a1..] == s0[a1..] &&
             s1[a1] == mid
    requires SortedBehind(less, values, s1, s2, a1, heads + {mid})
    requires forall i :: a < i < |s0| ==> s0[i] !in heads
    requires 0 <= p < |s2| && s2[p] == mid
    ensures 0 < p && Held(values, s2[..p]) && Held(values, s2[p..])
    ensures SortedBehind(less, values, s0, Interleave(less, values, s2[..p], s2[p..]), a, heads)
  {
    hide Kept, Interleave, SortedExcept;
    SameTail(s0, s1, a1, heads, a);
    MidBlock(less, values, s1, mid, s2, a1, heads, p);
    var l, r := s2[..p], s2[p..];
    assert s2 == l + r;
    var keep := Members(s0[..a + 1]);
    var s := Interleave(less, values, l, r);
    InterleaveKeeps(less, values, l, r);
    InterleaveSorted(less, values, l, r, heads);
    KeptChain(s0, a, s1, a1, mid, s2, p);
    InterleaveKeepsLeft(less, values, l, r, keep);
    hide Distinct;
    HeldMembers(values, s2, s);
  }

  lemma SameTail<P>(s0: seq<P>, s1: seq<P>, a1: int, heads: set<P>, a: int)
    requires 0 <= a < a1 < |s0| == |s1| && s1[a1..] == s0[a1..] && multiset(s1[..a1]) == multiset(s0[..a1])
    requires forall i :: a < i < |s0| ==> s0[i] !in heads
    ensures multiset(s1) == multiset(s0) && s1[a1] == s0[a1]
    ensures forall i :: a1 <= i < |s1| ==> s1[i] !in heads
  {
    assert s1 == s1[..a1] + s1[a1..] && s0 == s0[..a1] + s0[a1..];
    assert forall i :: a1 <= i < |s1| ==> s1[i] == s1[a1..][i - a1] == s0[a1..][i - a1] == s0[i];
  }

  // The whole sort as a function

  function IndexOf<P(==)>(s: seq<P>, x: P): (i: int)
    requires x in s
    ensures 0 <= i < |s| && s[i] == x
  {
    if s[0] == x then 0 else 1 + IndexOf(s[1..], x)
  }

  /** One merge of `_sort`: the block headed by mid is merged into everything before it, up to position e. */
  ghost function MergeAt<P, K>(less: (K, K) -> bool, values: map<P, K>, s: seq<P>, mid: P, e: int): seq<P> {
    if 0 <= e <= |s| && mid in s[..e] && Held(values, s) then
      var p := IndexOf(s[..e], mid);
      Interleave(less, values, s[..p], s[p..e]) + s[e..]
    else s
  }

  /** The node order `_sort` leaves after sorting count nodes from position a on. */
  ghost function SortSeq<P, K>(less: (K, K) -> bool, values: map<P, K>, s: seq<P>, a: int, count: nat): seq<P>
    decreases count
  {
    if count <= 1 || !(0 <= a && a + count <= |s|) then s
    else
      var a1 := a + count / 2;
      var s1 := SortSeq(less, values, s, a, count / 2);
      if a1 < |s1| then
        MergeAt(less, values, SortSeq(less, values, s1, a1, count - count / 2), s1[a1], a + count)
      else s
  }

  lemma SortSeqShort<P, K>(less: (K, K) -> bool, values: map<P, K>, s: seq<P>, a: int, count: nat)
    requires count <= 1
    ensures SortSeq(less, values, s, a, count) == s
  {
  }

  lemma SortSeqUnfolds<P, K>(less: (K, K) -> bool, values: map<P, K>, s: seq<P>, s1: seq<P>, s2: seq<P>, a: int,
                             count: nat)
    requires 0 <= a && 1 < count && a + count <= |s| && a + count / 2 < |s1|
    requires s1 == SortSeq(less, values, s, a, count / 2)
    requires s2 == SortSeq(less, values, s1, a + count / 2, count - count / 2)
    ensures SortSeq(less, values, s, a, count) == MergeAt(less, values, s2, s1[a + count / 2], a + count)
  {
    hide MergeAt;
  }

  lemma MergeAtPosition<P, K>(less: (K, K) -> bool, values: map<P, K>, s: seq<P>, mid: P, p: int, e: int)
    requires Held(values, s) && Distinct(s) && 0 <= p < e <= |s| && s[p] == mid
    ensures Held(values, s[..p]) && Held(values, s[p..e])
    ensures MergeAt(less, values, s, mid, e) == Interleave(less, values, s[..p], s[p..e]) + s[e..]
  {
    hide Interleave;
    var t := s[..e];
    assert t[p] == mid;
    var i := IndexOf(t, mid);
    assert t[i] == s[i];
    assert i == p by { assert i < p || p < i || i == p; }
  }

  lemma UnstableFirst(less: (int, int) -> bool, values: map<int, int>)
    requires values == map[0 := 2, 1 := 1, 2 := 1] && less(1, 2)
    ensures MergeAt(less, values, [0, 1, 2], 2, 3) == [2, 0, 1]
  {
    var s := [0, 1, 2];
    MergeAtPosition(less, values, s, 2, 2, 3);
    assert s[..2] == [0, 1] && s[2..3] == [2] && s[3..] == [];
    hide MergeAt;
    assert Interleave(less, values, [0, 1], []) == [0, 1];
    assert Interleave(less, values, [0, 1], [2]) == [2] + [0, 1];
  }

  lemma UnstableSecond(less: (int, int) -> bool, values: map<int, int>)
    requires values == map[0 := 2, 1 := 1, 2 := 1] && less(1, 2) && !less(1, 1)
    ensures MergeAt(less, values, [2, 0, 1], 1, 3) == [2, 1, 0]
  {
    var s := [2, 0, 1];
    MergeAtPosition(less, values, s, 1, 2, 3);
    assert s[..2] == [2, 0] && s[2..3] == [1] && s[3..] == [];
    hide MergeAt;
    assert Interleave(less, values, [0], [1]) == [1] + [0];
    assert Interleave(less, values, [2, 0], [1]) == [2] + [1, 0];
  }

  /** Three nodes, the last two of equal value: sorting exchanges the equal ones, so the sort is not stable. */
  lemma SortIsNotStable()
    ensures var values: map<int, int> := map[0 := 2, 1 := 1, 2 := 1];
      SortSeq((x: int, y: int) => x < y, values, [0, 1, 2], 0, 3) == [2, 1, 0]
  {
    var values: map<int, int> := map[0 := 2, 1 := 1, 2 := 1];
    var less := (x: int, y: int) => x < y;
    var s := [0, 1, 2];
    UnstableFirst(less, values);
    UnstableSecond(less, values);
    hide MergeAt;
    assert SortSeq(less, values, s, 0, 1) == s;
    assert SortSeq(less, values, s, 1, 1) == s && SortSeq(less, values, s, 2, 1) == s;
    assert SortSeq(less, values, s, 1, 2) == [2, 0, 1];
  }

  lemma HeldMembers<P, K>(values: map<P, K>, s: seq<P>, t: seq<P>)
    requires Held(values, s) && multiset(s) == multiset(t)
    ensures Held(values, t)
  {
    SameMembers(s, t);
    forall i | 0 <= i < |t| ensures t[i] in values { assert t[i] in s; }
  }

  lemma KeptChain<P>(s0: seq<P>, a: int, s1: seq<P>, a1: int, mid: P, s2: seq<P>, p: int)
    requires 0 <= a < a1 < |s0| == |s1| && Distinct(s0) && s1[a1] == mid == s0[a1]
    requires Kept(s1[..a1], Members(s0[..a1][..a + 1])) == s0[..a1][..a + 1] && multiset(s1[..a1]) == multiset(s0[..a1])
    requires Kept(s2, Members(s1[..a1 + 1])) == s1[..a1 + 1]
    requires 0 <= p < |s2| && s2[p] == mid && forall i :: p < i < |s2| ==> s2[i] !in Members(s1[..a1 + 1])
    ensures Kept(s2[..p], Members(s0[..a + 1])) == s0[..a + 1]
    ensures forall x :: x in s2[p..] ==> x !in Members(s0[..a + 1])
  {
    KeepInWide(s0, a, s1, a1, mid);
    hide *;
    var keep, wide := Members(s0[..a + 1]), Members(s1[..a1 + 1]);
    assert s0[..a1][..a + 1] == s0[..a + 1];
    assert s1[..a1 + 1] == s1[..a1] + [mid];
    KeptNarrow(s1[..a1], mid, s2, keep, wide, p);
  }

  lemma KeepInWide<P>(s0: seq<P>, a: int, s1: seq<P>, a1: int, mid: P)
    requires 0 <= a < a1 < |s0| == |s1| && Distinct(s0) && s1[a1] == mid == s0[a1]
    requires multiset(s1[..a1]) == multiset(s0[..a1])
    ensures mid !in Members(s0[..a + 1]) && Members(s0[..a + 1]) <= Members(s1[..a1 + 1])
  {
    SameMembers(s1[..a1], s0[..a1]);
    var t0, t1 := s0[..a + 1], s1[..a1 + 1];
    forall x | x in t0 ensures x in t1 {
      assert x in s0[..a1] && x in s1[..a1];
    }
  }

  lemma KeptNarrow<P>(t: seq<P>, mid: P, s2: seq<P>, keep: set<P>, wide: set<P>, p: int)
    requires keep <= wide && mid !in keep && Kept(s2, wide) == t + [mid]
    requires 0 <= p < |s2| && s2[p] == mid && forall i :: p < i < |s2| ==> s2[i] !in wide
    ensures Kept(s2[..p], keep) == Kept(t, keep)
    ensures forall x :: x in s2[p..] ==> x !in keep
  {
    hide Kept;
    KeptTwice(s2, keep, wide);
    KeptConcat(t, [mid], keep);
    KeptNone([mid], keep);
    forall x | x in s2[p..] ensures x !in keep {
      var i :| 0 <= i < |s2[p..]| && s2[p..][i] == x;
      assert s2[p + i] == x;
    }
    KeptNone(s2[p..], keep);
    KeptConcat(s2[..p], s2[p..], keep);
    assert s2 == s2[..p] + s2[p..];
    assert Kept(s2[..p], keep) + [] == Kept(s2[..p], keep) && Kept(t, keep) + [] == Kept(t, keep);
  }
}
