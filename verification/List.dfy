/** `list`: operations on doubly linked rings that rewire links in place. */
module List {
  import opened ListMemory
  import opened Merging
  import opened Filtering
  import opened Sequences

  /** The memory all lists of one element type share: their nodes' links and values. */
  class NodeMemory<P(==), K> {
    var links: Links<P>
    var values: map<P, K>

    /** The null pointer. */
    const nil: P

    constructor (nil: P)
      ensures links == map[] && values == map[] && this.nil == nil
    {
      links, values, this.nil := map[], map[], nil;
    }
  }

  lemma RingStep<P>(m: Links<P>, head: P, nodes: seq<P>, i: int)
    requires Ring(m, head, nodes) && 0 <= i <= |nodes|
    ensures Elem(head, nodes, i) in m && m[Elem(head, nodes, i)].next == Elem(head, nodes, i + 1)
    ensures Elem(head, nodes, i + 1) in m && m[Elem(head, nodes, i + 1)].prev == Elem(head, nodes, i)
    ensures NoDup(head, nodes)
  {
    assert JoinedAt(m, head, nodes, i);
  }

  lemma RingDistinct<P>(m: Links<P>, head: P, nodes: seq<P>, j: int)
    requires Ring(m, head, nodes) && 0 <= j <= |nodes|
    ensures forall i :: 0 <= i < |nodes| && i != j ==> nodes[i] != Elem(head, nodes, j + 1)
  {
  }

  lemma MovedFront<T>(s: seq<T>, p: int, q: int, t: int)
    requires 0 <= p < q <= t <= |s|
    ensures Moved(s, p, q, t)[..p + t - q] == s[..p] + s[q..t] && Moved(s, p, q, t)[p + t - q..t] == s[p..q]
    ensures Moved(s, p, q, t)[p + t - q] == s[p] && (q == t ==> Moved(s, p, q, t) == s)
  {
  }

  lemma MovedPieces<T>(s: seq<T>, p: int, q: int, t: int, li: int)
    requires 0 <= p < q <= t <= li <= |s|
    ensures var s' := Moved(s, p, q, t);
      && |s'| == |s| && s'[..p + t - q] == s[..p] + s[q..t] && s'[p + t - q..t] == s[p..q] && s'[t..li] == s[t..li]
      && s'[li..] == s[li..] && s'[p + t - q] == s[p] && (t < |s| ==> s'[t] == s[t])
      && (li < |s| ==> s'[li] == s[li]) && (q == t ==> s' == s)
  {
    MovedFront(s, p, q, t);
  }

  lemma RunPieces<T>(s: seq<T>, q: int, t: int, li: int)
    requires 0 <= q <= t <= li <= |s|
    ensures s[q..li][t - q..] == s[t..li] && s[q..li][..t - q] == s[q..t]
  {
  }

  lemma MovedNothing<T>(s: seq<T>, p: int, q: int)
    requires 0 <= p <= q <= |s|
    ensures Moved(s, p, q, q) == s
  {
  }

  lemma MovedHeld<P, K>(values: map<P, K>, s: seq<P>, p: int, q: int, t: int)
    requires 0 <= p < q <= t <= |s| && Held(values, s)
    ensures Held(values, Moved(s, p, q, t))
  {
  }

  /** One round of the merge loop moves a run of the right range in front of the left one. */
  lemma MergeRun<P, K>(less: (K, K) -> bool, values: map<P, K>, s: seq<P>, p: int, q: int, t: int, li: int)
    requires 0 <= p < q <= t <= li <= |s| && Held(values, s)
    requires forall i :: q <= i < t ==> less(values[s[i]], values[s[p]])
    ensures Held(values, Moved(s, p, q, t)) && |Moved(s, p, q, t)| == |s|
    ensures var s' := Moved(s, p, q, t);
      && s'[li..] == s[li..] && s'[p + t - q] == s[p] && (t < |s| ==> s'[t] == s[t]) && (q == t ==> s' == s)
      && (li < |s| ==> s'[li] == s[li])
      && s'[..p + t - q] + Interleave(less, values, s'[p + t - q..t], s'[t..li])
        == s[..p] + Interleave(less, values, s[p..q], s[q..li])
  {
    hide Interleave, Moved;
    MovedPieces(s, p, q, t, li);
    RunPieces(s, q, t, li);
    MovedHeld(values, s, p, q, t);
    RunFirst(less, values, s, p, q, t, li);
    Regrouped(s[..p], s[q..t], Interleave(less, values, s[p..q], s[t..li]));
  }

  /** The run goes first: its nodes are less than the first of the left range. */
  lemma RunFirst<P, K>(less: (K, K) -> bool, values: map<P, K>, s: seq<P>, p: int, q: int, t: int, li: int)
    requires 0 <= p < q <= t <= li <= |s| && Held(values, s)
    requires forall i :: q <= i < t ==> less(values[s[i]], values[s[p]])
    ensures Held(values, s[p..q]) && Held(values, s[q..li]) && Held(values, s[t..li])
    ensures Interleave(less, values, s[p..q], s[q..li]) == s[q..t] + Interleave(less, values, s[p..q], s[t..li])
  {
    hide Interleave;
    RunPieces(s, q, t, li);
    var l, r := s[p..q], s[q..li];
    assert l[0] == s[p];
    forall i | 0 <= i < t - q ensures less(values[r[i]], values[l[0]]) {
      assert r[i] == s[q + i];
    }
    InterleaveRun(less, values, l, r, t - q);
  }

  /** Stepping over left nodes that the right head is not less than leaves them where they are. */
  lemma MergeSkip<P, K>(less: (K, K) -> bool, values: map<P, K>, s: seq<P>, p: int, q: int, u: int, li: int)
    requires 0 <= p <= u <= q < li <= |s| && Held(values, s)
    requires forall i :: p <= i < u ==> !less(values[s[q]], values[s[i]])
    ensures s[..u] + Interleave(less, values, s[u..q], s[q..li]) == s[..p] + Interleave(less, values, s[p..q], s[q..li])
  {
    InterleaveSkip(less, values, s[p..q], s[q..li], u - p);
    assert s[p..q][u - p..] == s[u..q] && s[p..q][..u - p] == s[p..u];
    assert s[..u] == s[..p] + s[p..u];
  }

  /** What is left to merge, [p, q) with [q, li), will complete the merge of the original ranges. */
  ghost predicate MergeInv<P, K>(less: (K, K) -> bool, values: map<P, K>, s: seq<P>, s0: seq<P>, mi: int, p: int,
                                 q: int, li: int) {
    && 0 <= p <= q <= li <= |s| == |s0| && 0 <= mi <= li && Held(values, s) && Held(values, s0)
    && s[li..] == s0[li..]
    && s[..p] + Interleave(less, values, s[p..q], s[q..li]) == Interleave(less, values, s0[..mi], s0[mi..li])
  }

  lemma MergeStart<P, K>(less: (K, K) -> bool, values: map<P, K>, s: seq<P>, mi: int, li: int)
    requires 0 <= mi <= li <= |s| && Held(values, s)
    ensures MergeInv(less, values, s, s, mi, 0, mi, li)
  {
    assert s[0..mi] == s[..mi];
  }

  lemma MergeRunInv<P, K>(less: (K, K) -> bool, values: map<P, K>, s: seq<P>, s0: seq<P>, mi: int, p: int, q: int,
                          t: int, li: int)
    requires MergeInv(less, values, s, s0, mi, p, q, li) && p < q <= t <= li
    requires forall i :: q <= i < t ==> less(values[s[i]], values[s[p]])
    ensures MergeInv(less, values, Moved(s, p, q, t), s0, mi, p + t - q, t, li)
    ensures Moved(s, p, q, t)[p + t - q] == s[p] && (t < |s| ==> Moved(s, p, q, t)[t] == s[t])
    ensures q == t ==> Moved(s, p, q, t) == s
    ensures li < |s| ==> Moved(s, p, q, t)[li] == s[li]
  {
    MergeRun(less, values, s, p, q, t, li);
  }

  lemma MergeEnd<P, K>(less: (K, K) -> bool, values: map<P, K>, s: seq<P>, s0: seq<P>, mi: int, p: int, q: int, li: int)
    requires MergeInv(less, values, s, s0, mi, p, q, li) && (p == q || q == li)
    ensures Held(values, s0[..mi]) && Held(values, s0[mi..li])
    ensures s == Interleave(less, values, s0[..mi], s0[mi..li]) + s0[li..]
  {
    assert s == s[..li] + s[li..];
    assert s[..li] == s[..p] + s[p..li];
  }

  lemma MergeSkipInv<P, K>(less: (K, K) -> bool, values: map<P, K>, s: seq<P>, s0: seq<P>, mi: int, p: int, q: int,
                           u: int, li: int)
    requires MergeInv(less, values, s, s0, mi, p, q, li) && p <= u <= q < li
    requires forall i :: p <= i < u ==> !less(values[s[q]], values[s[i]])
    ensures MergeInv(less, values, s, s0, mi, u, q, li)
  {
    MergeSkip(less, values, s, p, q, u, li);
  }

  /** The precondition of `_splice` for moving nodes [q, t) in front of node p, and what it does to the ring. */
  lemma SpliceReady<P>(m: Links<P>, head: P, nodes: seq<P>, p: int, q: int, t: int)
    requires Ring(m, head, nodes) && 0 <= p < q < t <= |nodes|
    ensures var tf, of, ol := Elem(head, nodes, p), nodes[q], nodes[t - 1];
      && nodes[p] in m && m[nodes[p]].prev == tf && tf in m && m[tf].next == nodes[p] && of in m && ol in m
      && Elem(head, nodes, t + 1) in m && m[Elem(head, nodes, t + 1)].prev == ol
      && m[of].prev == nodes[q - 1] && nodes[q - 1] in m && m[ol].next == Elem(head, nodes, t + 1)
      && tf != nodes[q - 1] && tf != ol && nodes[q - 1] != ol
      && nodes[p] != Elem(head, nodes, t + 1) && nodes[p] != of && of != Elem(head, nodes, t + 1)
      && Ring(Spliced(m, tf, of, ol), head, Moved(nodes, p, q, t))
      && SameOutside(m, Spliced(m, tf, of, ol), Cells(head, nodes))
  {
    RingStep(m, head, nodes, p);
    RingStep(m, head, nodes, q);
    RingStep(m, head, nodes, t);
    hide JoinedAt;
    SpliceRing(m, head, nodes, p, q, t);
    InCells(head, nodes, p);
    InCells(head, nodes, p + 1);
    InCells(head, nodes, q);
    InCells(head, nodes, q + 1);
    InCells(head, nodes, t);
    InCells(head, nodes, t + 1);
    hide Cells, Ring;
    SplicedOutside(m, Elem(head, nodes, p), nodes[q], nodes[t - 1], Cells(head, nodes));
  }

  lemma ErasedTrims<P, K>(m: Links<P>, v: map<P, K>, m1: Links<P>, head: P, nodes: seq<P>, k: int)
    requires 0 <= k < |nodes| && SameOutside(m, m1, Cells(head, nodes))
    ensures Trimmed(m, v, m1 - {nodes[k]}, v - {nodes[k]}, head, nodes, nodes[..k] + nodes[k + 1..])
  {
    var left := nodes[..k] + nodes[k + 1..];
    forall x | x in nodes && x != nodes[k] ensures x in left {
      var i :| 0 <= i < |nodes| && nodes[i] == x;
      assert left[if i < k then i else i - 1] == x;
    }
  }

  lemma BothCells<P>(h1: P, xs: seq<P>, h2: P, ys: seq<P>)
    ensures Cells(h1, xs + ys) <= Cells(h1, xs) + Cells(h2, ys)
  {
  }

  lemma MovedCells<P>(head: P, nodes: seq<P>, a: int, b: int, c: int)
    requires 0 <= a <= b <= c <= |nodes|
    ensures Cells(head, Moved(nodes, a, b, c)) == Cells(head, nodes)
  {
    assert nodes == nodes[..a] + nodes[a..b] + nodes[b..c] + nodes[c..];
    assert forall x :: x in nodes <==> x in Moved(nodes, a, b, c);
  }

  lemma RunMoved<P, K>(m: Links<P>, values: map<P, K>, head: P, nodes: seq<P>, p: int, q: int, t: int)
    requires Ring(m, head, nodes) && 0 <= p <= q <= t <= |nodes| && q < |nodes| && Held(values, nodes)
    ensures |Moved(nodes, p, q, t)| == |nodes| && Held(values, Moved(nodes, p, q, t))
    ensures Elem(head, nodes, t + 1) == nodes[q] <==> t == q
  {
    RingDistinct(m, head, nodes, t);
    hide Ring;
  }

  // The pure part of `_sort`

  lemma SortOne<P, K(!new)>(less: (K, K) -> bool, values: map<P, K>, head: P, s: seq<P>, a: int, heads: set<P>)
    requires 0 <= a < |s| && NoDup(head, s) && Held(values, s)
    requires SortedExcept(less, values, s[..a], heads) && (0 < a ==> s[a] in heads)
    ensures SortedBehind(less, values, s[..a + 1], s[..a + 1], a, heads)
  {
    var t := s[..a + 1];
    assert t[..a + 1] == t;
    forall i | 0 < i < |t| ensures t[i] in heads || InOrder(less, values, t[i - 1], t[i]) {
      if i < a { assert s[..a][i] == t[i] && s[..a][i - 1] == t[i - 1]; }
    }
    KeptAll(t, Members(t));
  }

  /** The second half starts a block of its own. */
  lemma SecondHalf<P, K(!new)>(less: (K, K) -> bool, values: map<P, K>, head: P, s0: seq<P>, s1: seq<P>, a: int,
                               a1: int, heads: set<P>)
    requires 0 <= a < a1 < |s0| == |s1| && NoDup(head, s1) && s1[a1..] == s0[a1..]
    requires SortedBehind(less, values, s0[..a1], s1[..a1], a, heads) && forall i :: a < i < |s0| ==> s0[i] !in heads
    ensures SortedExcept(less, values, s1[..a1], heads + {s1[a1]})
    ensures forall i :: a1 < i < |s1| ==> s1[i] !in heads + {s1[a1]}
    ensures Elem(head, s1, a1 + 1) == s1[a1]
  {
    forall i | a1 < i < |s1| ensures s1[i] !in heads + {s1[a1]} {
      assert s1[i] == s1[a1..][i - a1] == s0[a1..][i - a1] == s0[i];
    }
  }

  lemma MidPosition<P, K(!new)>(less: (K, K) -> bool, values: map<P, K>, head: P, s0: seq<P>, s1: seq<P>, s2: seq<P>,
                                a: int, a1: int, e: int, heads: set<P>) returns (p: int)
    requires 0 <= a < a1 < e <= |s0| == |s1| == |s2| && NoDup(head, s1) && NoDup(head, s2) && s1[a1..] == s0[a1..]
    requires SortedBehind(less, values, s1[..e], s2[..e], a1, heads + {s1[a1]})
    requires forall i :: a < i < |s0| ==> s0[i] !in heads
    ensures 0 < p < e && s2[p] == s1[a1]
  {
    SameMembers(s1[..e], s2[..e]);
    assert s1[a1] == s1[..e][a1];
    assert s1[a1] in s2[..e];
    p :| 0 <= p < e && s2[..e][p] == s1[a1];
    assert forall i :: a1 <= i < |s1| ==> s1[i] == s1[a1..][i - a1] == s0[a1..][i - a1] == s0[i];
    hide SortedBehind;
    MidBlock(less, values, s1[..e], s1[a1], s2[..e], a1, heads, p);
  }

  lemma LevelSorted<P, K(!new)>(less: (K, K) -> bool, values: map<P, K>, head: P, s0: seq<P>, s1: seq<P>, s2: seq<P>,
                                s: seq<P>, a: int, a1: int, e: int, heads: set<P>, p: int)
    requires StrictWeakOrder(less) && 0 <= a < a1 < e <= |s0| == |s1| == |s2| == |s|
    requires NoDup(head, s0) && NoDup(head, s1) && NoDup(head, s2) && s1[a1..] == s0[a1..] && s2[e..] == s1[e..]
    requires SortedBehind(less, values, s0[..a1], s1[..a1], a, heads)
    requires SortedBehind(less, values, s1[..e], s2[..e], a1, heads + {s1[a1]})
    requires forall i :: a < i < |s0| ==> s0[i] !in heads
    requires 0 < p < e && s2[p] == s1[a1] && Held(values, s2[..p]) && Held(values, s2[p..e])
    requires s == Interleave(less, values, s2[..p], s2[p..e]) + s2[e..]
    ensures SortedBehind(less, values, s0[..e], s[..e], a, heads) && s[e..] == s0[e..]
  {
    hide SortedBehind, Interleave;
    assert s0[..e][..a1] == s0[..a1] && s1[..e][..a1] == s1[..a1];
    assert s1[..e][a1..] == s1[a1..][..e - a1] && s0[..e][a1..] == s0[a1..][..e - a1];
    assert s2[..e][..p] == s2[..p] && s2[..e][p..] == s2[p..e];
    SortCombine(less, values, s0[..e], a, s1[..e], a1, s1[a1], s2[..e], heads, p);
    InterleaveKeeps(less, values, s2[..p], s2[p..e]);
    assert s[..e] == Interleave(less, values, s2[..p], s2[p..e]);
    assert s[e..] == s2[e..];
    assert s1[e..] == s1[a1..][e - a1..] && s0[e..] == s0[a1..][e - a1..];
  }

  lemma DistinctNodes<P>(head: P, s: seq<P>)
    requires NoDup(head, s)
    ensures Distinct(s)
  {
  }

  lemma SortSeqStep<P, K>(less: (K, K) -> bool, values: map<P, K>, head: P, s: seq<P>, s1: seq<P>, s2: seq<P>, a: int,
                          a1: int, e: int, p: int)
    requires Held(values, s2) && 0 <= a < a1 < e <= |s| == |s1| == |s2| && a1 == a + (e - a) / 2
    requires s1 == SortSeq(less, values, s, a, (e - a) / 2)
    requires s2 == SortSeq(less, values, s1, a1, (e - a) - (e - a) / 2) && NoDup(head, s2)
    requires 0 <= p < e && s2[p] == s1[a1]
    ensures Held(values, s2[..p]) && Held(values, s2[p..e])
    ensures SortSeq(less, values, s, a, e - a) == Interleave(less, values, s2[..p], s2[p..e]) + s2[e..]
  {
    hide *;
    DistinctNodes(head, s2);
    SortSeqUnfolds(less, values, s, s1, s2, a, e - a);
    MergeAtPosition(less, values, s2, s1[a1], p, e);
  }

  lemma WholeRange<P, K>(less: (K, K) -> bool, values: map<P, K>, s0: seq<P>, s: seq<P>)
    requires |s| == |s0| && (|s| > 0 ==> SortedBehind(less, values, s0[..|s|], s[..|s|], 0, {})) &&
             (|s| == 0 ==> s == s0)
    ensures multiset(s) == multiset(s0) && SortedExcept(less, values, s, {})
  {
    assert s[..|s|] == s && s0[..|s|] == s0;
    hide Kept;
  }

  // Merging two lists

  lemma TransferReady<P>(m: Links<P>, h1: P, xs: seq<P>, h2: P, ys: seq<P>, a: int, b: int, c: int)
    requires Ring(m, h1, xs) && Ring(m, h2, ys) && Apart(h1, xs, h2, ys) && 0 <= a <= |xs| && 0 <= b < c <= |ys|
    ensures var tf, of, ol := Elem(h1, xs, a), ys[b], ys[c - 1];
      && tf in m && of in m && ol in m && m[tf].next == Elem(h1, xs, a + 1) && Elem(h1, xs, a + 1) in m
      && m[Elem(h1, xs, a + 1)].prev == tf
      && m[of].prev == Elem(h2, ys, b) && Elem(h2, ys, b) in m && m[ol].next == Elem(h2, ys, c + 1) &&
         Elem(h2, ys, c + 1) in m
      && m[Elem(h2, ys, c + 1)].prev == ol
      && tf != Elem(h2, ys, b) && tf != ol && Elem(h2, ys, b) != ol
      && Elem(h1, xs, a + 1) != Elem(h2, ys, c + 1) && Elem(h1, xs, a + 1) != of && of != Elem(h2, ys, c + 1)
      && Ring(Spliced(m, tf, of, ol), h1, xs[..a] + ys[b..c] + xs[a..])
      && Ring(Spliced(m, tf, of, ol), h2, ys[..b] + ys[c..])
      && SameOutside(m, Spliced(m, tf, of, ol), Cells(h1, xs) + Cells(h2, ys))
    ensures Apart(h1, xs[..a] + ys[b..c] + xs[a..], h2, ys[..b] + ys[c..])
  {
    RingStep(m, h1, xs, a);
    RingStep(m, h2, ys, b);
    RingStep(m, h2, ys, c);
    hide JoinedAt;
    TransferRings(m, h1, xs, h2, ys, a, b, c);
    InCells(h1, xs, a);
    InCells(h1, xs, a + 1);
    InCells(h2, ys, b);
    InCells(h2, ys, b + 1);
    InCells(h2, ys, c);
    InCells(h2, ys, c + 1);
    hide Cells, Ring, Apart;
    SplicedOutside(m, Elem(h1, xs, a), ys[b], ys[c - 1], Cells(h1, xs) + Cells(h2, ys));
  }

  /** A list none of whose nodes an operation owned is as good after it as before. */
  lemma OtherListKept<P, K>(m: Links<P>, v: map<P, K>, m': Links<P>, v': map<P, K>, head: P, nodes: seq<P>, other: P,
                            others: seq<P>)
    requires SameOutside(m, m', Cells(head, nodes)) && SameOutside(v, v', Cells(head, nodes))
    requires Apart(head, nodes, other, others) && Ring(m, other, others) && Held(v, others)
    ensures Ring(m', other, others) && Held(v', others)
    ensures forall i :: 0 <= i < |others| ==> v'[others[i]] == v[others[i]]
  {
    hide Ring;
    RingElsewhere(m, m', Cells(head, nodes), other, others);
  }

  class List<P(==), K(!new)> {
    const heap: NodeMemory<P, K>
    const head: P
    var size: nat
    ghost var nodes: seq<P>

    ghost predicate Valid()
      reads this, heap
    {
      Ring(heap.links, head, nodes) && Held(heap.values, nodes) && size == |nodes|
    }

    /** `_create_head`. */
    constructor (heap: NodeMemory<P, K>, h: P)
      requires h !in heap.links
      modifies heap`links
      ensures Valid() && nodes == [] && this.heap == heap && head == h
      ensures heap.links == old(heap.links)[h := Link(h, h)]
    {
      this.heap := heap;
      head := h;
      size := 0;
      nodes := [];
      new;
      heap.links := heap.links[h := Link(h, h)];
    }

    method Splice(thisFirst: P, otherFirst: P, otherLast: P)
      requires thisFirst in heap.links && otherFirst in heap.links && otherLast in heap.links
      requires heap.links[thisFirst].next in heap.links && heap.links[otherFirst].prev in heap.links
      requires heap.links[otherLast].next in heap.links
      requires var tl, op, on := heap.links[thisFirst].next, heap.links[otherFirst].prev, heap.links[otherLast].next;
        && thisFirst != op && thisFirst != otherLast && op != otherLast
        && tl != on && tl != otherFirst && on != otherFirst
      modifies heap`links
      ensures heap.links == Spliced(old(heap.links), thisFirst, otherFirst, otherLast)
    {
      var m := heap.links;
      var thisLast := m[thisFirst].next;
      m := m[thisFirst := m[thisFirst].(next := otherFirst)];
      m := m[thisLast := m[thisLast].(prev := otherLast)];
      m := m[m[otherFirst].prev := m[m[otherFirst].prev].(next := m[otherLast].next)];
      m := m[m[otherLast].next := m[m[otherLast].next].(prev := m[otherFirst].prev)];
      m := m[otherFirst := m[otherFirst].(prev := thisFirst)];
      m := m[otherLast := m[otherLast].(next := thisLast)];
      heap.links := m;
    }

    /** The end of the run of [mid, last) that is less than first. */
    method RunEnd(first: P, mid: P, last: P, less: (K, K) -> bool, ghost p: int, ghost q: int, ghost li: int)
      returns (end: P, ghost t: int)
      requires Valid() && 0 <= p < q < li <= |nodes|
      requires first == nodes[p] && mid == nodes[q] && last == Elem(head, nodes, li + 1)
      ensures Held(heap.values, nodes) && q <= t <= li && end == Elem(head, nodes, t + 1) && (end == last <==> t == li)
      ensures forall i :: q <= i < t ==> less(heap.values[nodes[i]], heap.values[first])
      ensures t < li ==> !less(heap.values[nodes[t]], heap.values[first])
    {
      end, t := mid, q;
      RingDistinct(heap.links, head, nodes, li);
      while end != last && less(heap.values[end], heap.values[first])
        invariant q <= t <= li && end == Elem(head, nodes, t + 1)
        invariant forall i :: q <= i < t ==> less(heap.values[nodes[i]], heap.values[first])
        decreases li - t
      {
        RingStep(heap.links, head, nodes, t + 1);
        end := heap.links[end].next;
        t := t + 1;
      }
    }

    /** The first node after first, before mid, that mid is less than; or mid itself. */
    method SkipLeft(first: P, mid: P, less: (K, K) -> bool, ghost p: int, ghost q: int) returns (next: P, ghost t: int)
      requires Valid() && 0 <= p < q < |nodes|
      requires first == nodes[p] && mid == nodes[q] && Held(heap.values, nodes) &&
               !less(heap.values[mid], heap.values[first])
      ensures Held(heap.values, nodes) && p < t <= q && next == nodes[t]
      ensures forall i :: p <= i < t ==> !less(heap.values[mid], heap.values[nodes[i]])
      ensures next != mid <==> t < q
      ensures t < q ==> less(heap.values[mid], heap.values[nodes[t]])
    {
      RingStep(heap.links, head, nodes, p + 1);
      next, t := heap.links[first].next, p + 1;
      RingDistinct(heap.links, head, nodes, q);
      while next != mid && !less(heap.values[mid], heap.values[next])
        invariant p < t <= q && next == nodes[t]
        invariant forall i :: p <= i < t ==> !less(heap.values[mid], heap.values[nodes[i]])
        decreases q - t
      {
        RingStep(heap.links, head, nodes, t + 1);
        next := heap.links[next].next;
        t := t + 1;
      }
    }

    /** Splices the run [runStart, end), if there is one, in front of first. */
    method MoveRun(first: P, runStart: P, end: P, ghost p: int, ghost q: int, ghost t: int)
      requires Valid() && 0 <= p < q <= t <= |nodes| && q < |nodes|
      requires first == nodes[p] && runStart == nodes[q] && end == Elem(head, nodes, t + 1)
      modifies heap`links, this`nodes
      ensures Valid() && nodes == Moved(old(nodes), p, q, t) && Cells(head, nodes) == Cells(head, old(nodes))
      ensures SameOutside(old(heap.links), heap.links, Cells(head, old(nodes)))
    {
      hide Ring, Cells, SameOutside, Spliced, Moved;
      RunMoved(heap.links, heap.values, head, nodes, p, q, t);
      NothingChanged(heap.links, Cells(head, nodes));
      MovedCells(head, nodes, p, q, t);
      if runStart != end {
        SpliceReady(heap.links, head, nodes, p, q, t);
        Splice(heap.links[first].prev, runStart, heap.links[end].prev);
      } else {
        MovedNothing(nodes, p, q);
      }
      nodes := Moved(nodes, p, q, t);
    }

    /**
     * `_merge_internal`: merges the ranges [first, mid) and [mid, last), first being the first node of the
     * list. The result is the textbook merge of the two ranges, whether or not they are sorted.
     */
    method MergeInternal(first: P, mid: P, last: P, less: (K, K) -> bool, ghost mi: int, ghost li: int)
      requires Valid() && 0 < mi < li <= |nodes|
      requires first == nodes[0] && mid == nodes[mi] && last == Elem(head, nodes, li + 1)
      modifies heap`links, this`nodes
      ensures Valid() && |nodes| == |old(nodes)|
      ensures Held(heap.values, old(nodes)[..mi]) && Held(heap.values, old(nodes)[mi..li])
      ensures nodes == Interleave(less, heap.values, old(nodes)[..mi], old(nodes)[mi..li]) + old(nodes)[li..]
      ensures Cells(head, nodes) == Cells(head, old(nodes))
      ensures SameOutside(old(heap.links), heap.links, Cells(head, old(nodes)))
    {
      hide Ring, Cells, SameOutside, MergeInv, Moved, Interleave;
      var f, m := first, mid;
      ghost var p, q := 0, mi;
      MergeStart(less, heap.values, nodes, mi, li);
      NothingChanged(heap.links, Cells(head, nodes));
      while true
        invariant 0 <= p < q < li <= |nodes| && |nodes| == |old(nodes)|
        invariant Valid() && f == nodes[p] && m == nodes[q] && last == Elem(head, nodes, li + 1)
        invariant MergeInv(less, heap.values, nodes, old(nodes), mi, p, q, li)
        invariant Cells(head, nodes) == Cells(head, old(nodes))
        invariant SameOutside(old(heap.links), heap.links, Cells(head, old(nodes)))
        decreases li - p
      {
        var runStart := m;
        ghost var t, u;
        m, t := RunEnd(f, m, last, less, p, q, li);
        MergeRunInv(less, heap.values, nodes, old(nodes), mi, p, q, t, li);
        RunMoved(heap.links, heap.values, head, nodes, p, q, t);
        ghost var links, before := heap.links, nodes;
        MoveRun(f, runStart, m, p, q, t);
        OutsideTwice(old(heap.links), links, heap.links, Cells(head, old(nodes)), Cells(head, before));
        p, q := p + (t - q), t;
        if m == last {
          MergeEnd(less, heap.values, nodes, old(nodes), mi, p, q, li);
          return;
        }
        f, u := SkipLeft(f, m, less, p, q);
        MergeSkipInv(less, heap.values, nodes, old(nodes), mi, p, q, u, li);
        p := u;
        if f == m {
          MergeEnd(less, heap.values, nodes, old(nodes), mi, p, q, li);
          return;
        }
      }
    }

    /**
     * `_sort`: orders the count nodes from first on, position a of the list. Everything before first may have
     * been moved into by earlier merges and consists of sorted blocks whose first nodes are in heads, except
     * for the block at the start of the list.
     */
    method SortRange(first: P, count: nat, less: (K, K) -> bool, ghost a: int, ghost heads: set<P>) returns (next: P)
      requires Valid() && StrictWeakOrder(less) && 0 <= a && a + count <= |nodes| && first == Elem(head, nodes, a + 1)
      requires SortedExcept(less, heap.values, nodes[..a], heads) && (0 < a < |nodes| ==> first in heads)
      requires forall i :: a < i < |nodes| ==> nodes[i] !in heads
      modifies heap`links, this`nodes
      ensures Valid() && |nodes| == |old(nodes)| && nodes[a + count..] == old(nodes)[a + count..]
      ensures next == Elem(head, nodes, a + count + 1)
      ensures count == 0 ==> nodes == old(nodes)
      ensures count > 0 ==> SortedBehind(less, heap.values, old(nodes)[..a + count], nodes[..a + count], a, heads)
      ensures nodes == SortSeq(less, heap.values, old(nodes), a, count)
      ensures Cells(head, nodes) == Cells(head, old(nodes))
      ensures SameOutside(old(heap.links), heap.links, Cells(head, old(nodes)))
      decreases count
    {
      hide Ring, SortedBehind, SortedExcept, NoDup, Kept, Interleave, SortSeq, Cells, SameOutside, Held,
        StrictWeakOrder;
      NothingChanged(heap.links, Cells(head, nodes));
      if count <= 1 {
        SortSeqShort(less, heap.values, nodes, a, count);
      }
      if count == 0 {
        return first;
      }
      RingStep(heap.links, head, nodes, a + 1);
      if count == 1 {
        SortOne(less, heap.values, head, nodes, a, heads);
        return heap.links[first].next;
      }
      ghost var s0, a1, e, cells := nodes, a + count / 2, a + count, Cells(head, nodes);
      var mid := SortRange(first, count / 2, less, a, heads);
      ghost var s1, m1 := nodes, heap.links;
      RingStep(heap.links, head, nodes, 0);
      SecondHalf(less, heap.values, head, s0, s1, a, a1, heads);
      var last := SortRange(mid, count - count / 2, less, a1, heads + {mid});
      ghost var s2, m2 := nodes, heap.links;
      RingStep(heap.links, head, nodes, 0);
      ghost var p := MidPosition(less, heap.values, head, s0, s1, s2, a, a1, e, heads);
      MergeInternal(heap.links[head].next, mid, last, less, p, e);
      OutsideThrice(old(heap.links), m1, m2, heap.links, cells);
      LevelSorted(less, heap.values, head, s0, s1, s2, nodes, a, a1, e, heads, p);
      SortSeqStep(less, heap.values, head, s0, s1, s2, a, a1, e, p);
      return last;
    }

    /** `sort`: the same nodes, ordered; size is unchanged. */
    method Sort(less: (K, K) -> bool)
      requires Valid() && StrictWeakOrder(less)
      modifies heap`links, this`nodes
      ensures Valid() && multiset(nodes) == multiset(old(nodes))
      ensures SortedExcept(less, heap.values, nodes, {})
      ensures nodes == SortSeq(less, heap.values, old(nodes), 0, old(size))
      ensures SameOutside(old(heap.links), heap.links, Cells(head, old(nodes)))
    {
      hide Ring, SortedBehind, SortSeq, Kept, Cells, SameOutside;
      RingStep(heap.links, head, nodes, 0);
      var _ := SortRange(heap.links[head].next, size, less, 0, {});
      WholeRange(less, heap.values, old(nodes), nodes);
    }

    /**
     * `splice`: moves [otherFirst, otherLast) of the other list in front of where. Lists with the same head
     * are refused.
     */
    method SpliceRange(where: P, other: List<P, K>, otherFirst: P, otherLast: P, ghost a: int, ghost b: int,
                       ghost c: int) returns (ok: bool)
      requires Valid() && other.Valid() && other.heap == heap
      requires head != other.head ==> Apart(head, nodes, other.head, other.nodes)
      requires 0 <= a <= |nodes| && where == Elem(head, nodes, a + 1) && 0 <= b <= c <= |other.nodes|
      requires otherFirst == Elem(other.head, other.nodes, b + 1) && otherLast == Elem(other.head, other.nodes, c + 1)
      modifies this`size, this`nodes, other`size, other`nodes, heap`links
      ensures ok <==> head != other.head
      ensures !ok ==> heap.links == old(heap.links) && nodes == old(nodes) && other.nodes == old(other.nodes)
      ensures !ok ==> size == old(size) && other.size == old(other.size)
      ensures ok ==> Valid() && other.Valid() && Apart(head, nodes, other.head, other.nodes)
      ensures ok ==> nodes == old(nodes)[..a] + old(other.nodes)[b..c] + old(nodes)[a..]
      ensures ok ==> other.nodes == old(other.nodes)[..b] + old(other.nodes)[c..]
      ensures SameOutside(old(heap.links), heap.links, Cells(head, old(nodes)) + Cells(other.head, old(other.nodes)))
    {
      hide Cells, SameOutside, Ring;
      NothingChanged(heap.links, Cells(head, nodes) + Cells(other.head, other.nodes));
      if head == other.head {
        return false;
      }
      ok := true;
      var count := other.Distance(otherFirst, otherLast, b, c);
      if count != 0 {
        size := size + count;
        other.size := other.size - count;
        TransferReady(heap.links, head, nodes, other.head, other.nodes, a, b, c);
        var thisFirst := heap.links[where].prev;
        var oLast := heap.links[otherLast].prev;
        Splice(thisFirst, otherFirst, oLast);
        nodes, other.nodes := nodes[..a] + other.nodes[b..c] + nodes[a..], other.nodes[..b] + other.nodes[c..];
      } else {
        assert nodes == nodes[..a] + nodes[a..] && other.nodes == other.nodes[..b] + other.nodes[b..];
      }
    }

    method Distance(first: P, last: P, ghost b: int, ghost c: int) returns (count: nat)
      requires Valid() && 0 <= b <= c <= |nodes| && first == Elem(head, nodes, b + 1) &&
               last == Elem(head, nodes, c + 1)
      ensures count == c - b
    {
      var at := first;
      count := 0;
      RingDistinct(heap.links, head, nodes, c);
      while at != last
        invariant 0 <= count <= c - b && at == Elem(head, nodes, b + count + 1)
        decreases c - b - count
      {
        RingStep(heap.links, head, nodes, b + count + 1);
        at := heap.links[at].next;
        count := count + 1;
      }
    }

    /** `merge`: the textbook merge of the two node sequences; the other list ends up empty. */
    method Merge(other: List<P, K>, less: (K, K) -> bool)
      requires Valid() && other.Valid() && other.heap == heap
      requires head != other.head ==> Apart(head, nodes, other.head, other.nodes)
      requires head != other.head && other.size > 0 ==> size > 0
      modifies this`size, this`nodes, other`size, other`nodes, heap`links
      ensures head != other.head ==>
        && Valid() && other.Valid() && other.nodes == []
        && Held(heap.values, old(nodes)) && Held(heap.values, old(other.nodes))
        && nodes == Interleave(less, heap.values, old(nodes), old(other.nodes))
      ensures head == other.head ==>
        heap.links == old(heap.links) && nodes == old(nodes) && other.nodes == old(other.nodes)
      ensures SameOutside(old(heap.links), heap.links, Cells(head, old(nodes)) + Cells(other.head, old(other.nodes)))
    {
      if head != other.head && other.size > 0 {
        RingStep(other.heap.links, other.head, other.nodes, 0);
        ghost var l, r := nodes, other.nodes;
        var midNode := heap.links[other.head].next;
        var _ := SpliceRange(head, other, heap.links[other.head].next, other.head, |nodes|, 0, |other.nodes|);
        assert nodes == l + r;
        ghost var links := heap.links;
        RingStep(heap.links, head, nodes, 0);
        MergeInternal(heap.links[head].next, midNode, head, less, |l|, |l + r|);
        assert (l + r)[..|l|] == l && (l + r)[|l|..|l + r|] == r;
        RingElsewhere(links, heap.links, Cells(head, l + r), other.head, other.nodes);
        BothCells(head, l, other.head, r);
        OutsideTwice(old(heap.links), links, heap.links, Cells(head, l) + Cells(other.head, r), Cells(head, l + r));
      }
    }

    method LinkNodeBefore(before: P, x: P, ghost k: int)
      requires Valid() && 0 <= k <= |nodes| && before == Elem(head, nodes, k + 1)
      requires x != head && x !in nodes && x in heap.values
      modifies this`size, this`nodes, heap`links
      ensures Valid() && nodes == old(nodes)[..k] + [x] + old(nodes)[k..]
      ensures SameOutside(old(heap.links), heap.links, Cells(head, old(nodes)) + {x})
    {
      LinkRing(heap.links, head, nodes, k, x);
      RingStep(heap.links, head, nodes, k);
      InCells(head, nodes, k);
      InCells(head, nodes, k + 1);
      LinkedOutside(heap.links, before, x, Cells(head, nodes));
      hide Ring, Cells, SameOutside;
      var m := heap.links;
      m := m[x := Link(m[before].prev, before)];
      m := m[m[before].prev := m[m[before].prev].(next := x)];
      m := m[before := m[before].(prev := x)];
      assert m == LinkedBefore(heap.links, before, x);
      heap.links := m;
      size := size + 1;
      nodes := nodes[..k] + [x] + nodes[k..];
    }

    method UnlinkNode(x: P, ghost k: int)
      requires Valid() && 0 <= k < |nodes| && x == nodes[k]
      modifies this`size, this`nodes, heap`links
      ensures Valid() && nodes == old(nodes)[..k] + old(nodes)[k + 1..] && x !in nodes
      ensures SameOutside(old(heap.links), heap.links, Cells(head, old(nodes)))
    {
      UnlinkRing(heap.links, head, nodes, k, heap.nil);
      RingStep(heap.links, head, nodes, k);
      RingStep(heap.links, head, nodes, k + 1);
      InCells(head, nodes, k);
      InCells(head, nodes, k + 1);
      InCells(head, nodes, k + 2);
      UnlinkedOutside(heap.links, x, heap.nil, Cells(head, nodes));
      hide Ring, Cells, SameOutside;
      var m := heap.links;
      m := m[m[x].prev := m[m[x].prev].(next := m[x].next)];
      m := m[m[x].next := m[m[x].next].(prev := m[x].prev)];
      m := m[x := Link(heap.nil, heap.nil)];
      assert m == Unlinked(heap.links, x, heap.nil);
      heap.links := m;
      size := size - 1;
      nodes := nodes[..k] + nodes[k + 1..];
    }

    /** `erase` returns the position before the erased one; the node is freed. */
    method Erase(x: P, ghost k: int) returns (previous: P)
      requires Valid() && 0 <= k < |nodes| && x == nodes[k]
      modifies this`size, this`nodes, heap`links, heap`values
      ensures Valid() && nodes == old(nodes)[..k] + old(nodes)[k + 1..]
      ensures previous == Elem(head, old(nodes), k)
      ensures x !in heap.links && heap.values == old(heap.values) - {x}
      ensures Trimmed(old(heap.links), old(heap.values), heap.links, heap.values, head, old(nodes), nodes)
    {
      RingStep(heap.links, head, nodes, k);
      previous := heap.links[x].prev;
      UnlinkNode(x, k);
      ghost var links := heap.links;
      heap.links := heap.links - {x};
      heap.values := heap.values - {x};
      RingElsewhere(links, heap.links, {x}, head, nodes);
      ErasedTrims(old(heap.links), old(heap.values), links, head, old(nodes), k);
    }

    // Reversing, and removing by a predicate

    /** `reverse` turns every cell round, the head first, going backwards. */
    method Reverse()
      requires Valid()
      modifies heap`links, this`nodes
      ensures Valid() && nodes == Reversed(old(nodes)) && size == old(size)
      ensures SameOutside(old(heap.links), heap.links, Cells(head, old(nodes)))
    {
      ghost var links, cells := heap.links, Cells(head, nodes);
      InCells(head, nodes, 0);
      NothingChanged(links, cells);
      hide Cells, SameOutside;
      if size > 1 {
        ghost var at := |nodes|;
        RingStep(links, head, nodes, |nodes|);
        TurnedHead(links, head, nodes);
        TurnedOutside(links, links, head, cells);
        hide Ring, TurnedFrom;
        var current := Turn(head);
        while current != head
          invariant nodes == old(nodes) && 0 <= at <= |nodes| && current == Elem(head, nodes, at)
          invariant TurnedFrom(links, heap.links, head, nodes, at) && SameOutside(links, heap.links, cells)
          decreases at
        {
          TurnedNext(links, heap.links, head, nodes, at);
          InCells(head, nodes, at);
          TurnedOutside(links, heap.links, current, cells);
          current := Turn(current);
          at := at - 1;
        }
        TurnedAll(links, heap.links, head, nodes, at);
        nodes := Reversed(nodes);
      } else {
        assert Reversed(nodes) == nodes;
      }
    }

    /** Swaps the links of one node and moves on by the new forward link. */
    method Turn(x: P) returns (next: P)
      requires x in heap.links
      modifies heap`links
      ensures heap.links == old(heap.links)[x := Link(old(heap.links)[x].next, old(heap.links)[x].prev)]
      ensures next == old(heap.links)[x].prev
    {
      heap.links := heap.links[x := Link(heap.links[x].next, heap.links[x].prev)];
      next := heap.links[x].next;
    }

    /** `remove_if`: the matching nodes are freed, the others keep their order. */
    method RemoveIf(pred: K -> bool) returns (removed: int)
      requires Valid()
      modifies this`size, this`nodes, heap`links, heap`values
      ensures Valid() && Held(old(heap.values), old(nodes))
      ensures nodes == Unmatched(old(heap.values), pred, old(nodes)) && removed == |old(nodes)| - |nodes|
      ensures Trimmed(old(heap.links), old(heap.values), heap.links, heap.values, head, old(nodes), nodes)
    {
      hide Ring, RemovedTo, Unmatched, NoDup, Held, Trimmed;
      ghost var all, links, values, k, j := nodes, heap.links, heap.values, 0, 0;
      var oldSize := size;
      RingStep(heap.links, head, nodes, 0);
      var current := heap.links[head].next;
      RemovedStart(values, pred, all);
      NothingTrimmed(links, values, head, all);
      while current != head
        invariant Valid() && current == Elem(head, nodes, k + 1) && 0 <= k <= |nodes| && 0 <= j
        invariant RemovedTo(values, heap.values, pred, all, nodes, j, k)
        invariant Trimmed(links, values, heap.links, heap.values, head, all, nodes)
        decreases |all| - j
      {
        ghost var m, v, before := heap.links, heap.values, nodes;
        RingStep(heap.links, head, nodes, 0);
        RemovedNext(values, heap.values, pred, head, all, nodes, j, k);
        current, k := KeepOrRemove(current, pred, values, all, j, k);
        TrimmedOnce(links, values, m, v, heap.links, heap.values, head, all, before, nodes);
        j := j + 1;
      }
      RingStep(heap.links, head, nodes, 0);
      RemovedEnd(values, heap.values, pred, head, all, nodes, j, k);
      removed := oldSize - size;
    }

    method KeepOrRemove(current: P, pred: K -> bool, ghost values: map<P, K>, ghost all: seq<P>, ghost j: int,
                        ghost k: int) returns (next: P, ghost k': int)
      requires Valid() && current != head && current == Elem(head, nodes, k + 1) && 0 <= k <= |nodes|
      requires RemovedTo(values, heap.values, pred, all, nodes, j, k)
      modifies this`size, this`nodes, heap`links, heap`values
      ensures Valid() && 0 <= k' <= |nodes| && next == Elem(head, nodes, k' + 1)
      ensures RemovedTo(values, heap.values, pred, all, nodes, j + 1, k')
      ensures Trimmed(old(heap.links), old(heap.values), heap.links, heap.values, head, old(nodes), nodes)
    {
      hide Ring, RemovedTo, Unmatched, NoDup, Held, Trimmed;
      RingStep(heap.links, head, nodes, k + 1);
      NothingTrimmed(heap.links, heap.values, head, nodes);
      RemovedNext(values, heap.values, pred, head, all, nodes, j, k);
      next, k' := heap.links[current].next, k;
      if pred(heap.values[current]) {
        var _ := Erase(current, k);
      } else {
        k' := k + 1;
      }
    }

    /** `unique`: a node that matches the one kept before it is freed. */
    method Unique(pred: (K, K) -> bool) returns (removed: int)
      requires Valid()
      modifies this`size, this`nodes, heap`links, heap`values
      ensures Valid() && Held(old(heap.values), old(nodes))
      ensures nodes == Unrepeated(old(heap.values), pred, old(nodes)) && removed == |old(nodes)| - |nodes|
      ensures Trimmed(old(heap.links), old(heap.values), heap.links, heap.values, head, old(nodes), nodes)
    {
      hide Ring, UniqueTo, Unrepeated, NoDup, Held, Trimmed;
      ghost var all, links, values, k, j := nodes, heap.links, heap.values, 0, 1;
      var oldSize := size;
      RingStep(heap.links, head, nodes, 0);
      var current := heap.links[head].next;
      UniqueStart(values, pred, all);
      RingStep(heap.links, head, nodes, if size > 0 then 1 else 0);
      var next := heap.links[current].next;
      NothingTrimmed(links, values, head, all);
      while next != head
        invariant Valid() && 0 <= k && current == Elem(head, nodes, k + 1) && next == Elem(head, nodes, k + 2)
        invariant UniqueTo(values, heap.values, pred, all, nodes, j, k)
        invariant Trimmed(links, values, heap.links, heap.values, head, all, nodes)
        decreases |all| - j
      {
        ghost var m, v, before := heap.links, heap.values, nodes;
        RingStep(heap.links, head, nodes, 0);
        UniqueNext(values, heap.values, pred, head, all, nodes, j, k);
        current, next, k := KeepOrErase(current, next, pred, values, all, j, k);
        TrimmedOnce(links, values, m, v, heap.links, heap.values, head, all, before, nodes);
        j := j + 1;
      }
      RingStep(heap.links, head, nodes, 0);
      UniqueEnd(values, heap.values, pred, head, all, nodes, j, k);
      removed := oldSize - size;
    }

    method KeepOrErase(current: P, next: P, pred: (K, K) -> bool, ghost values: map<P, K>, ghost all: seq<P>,
                       ghost j: int, ghost k: int) returns (current': P, next': P, ghost k': int)
      requires Valid() && 0 <= k && current == Elem(head, nodes, k + 1) && next == Elem(head, nodes, k + 2) &&
               next != head
      requires UniqueTo(values, heap.values, pred, all, nodes, j, k)
      modifies this`size, this`nodes, heap`links, heap`values
      ensures Valid() && 0 <= k' && current' == Elem(head, nodes, k' + 1) && next' == Elem(head, nodes, k' + 2)
      ensures UniqueTo(values, heap.values, pred, all, nodes, j + 1, k')
      ensures Trimmed(old(heap.links), old(heap.values), heap.links, heap.values, head, old(nodes), nodes)
    {
      hide Ring, UniqueTo, Unrepeated, NoDup, Held, Trimmed;
      NothingTrimmed(heap.links, heap.values, head, nodes);
      RingStep(heap.links, head, nodes, 0);
      UniqueNext(values, heap.values, pred, head, all, nodes, j, k);
      current', k' := current, k;
      if pred(heap.values[current], heap.values[next]) {
        var _ := Erase(next, k + 1);
      } else {
        current', k' := next, k + 1;
      }
      RingStep(heap.links, head, nodes, k' + 1);
      next' := heap.links[current'].next;
    }

    method PopBack()
      requires Valid()
      modifies this`size, this`nodes, heap`links, heap`values
      ensures Valid() && nodes == if old(nodes) == [] then [] else old(nodes)[..|old(nodes)| - 1]
      ensures Trimmed(old(heap.links), old(heap.values), heap.links, heap.values, head, old(nodes), nodes)
    {
      NothingTrimmed(heap.links, heap.values, head, nodes);
      hide Trimmed;
      if size > 0 {
        RingStep(heap.links, head, nodes, |nodes|);
        var _ := Erase(heap.links[head].prev, |nodes| - 1);
      }
    }

    method Clear()
      requires Valid()
      modifies this`size, this`nodes, heap`links, heap`values
      ensures Valid() && nodes == [] && size == 0
      ensures Trimmed(old(heap.links), old(heap.values), heap.links, heap.values, head, old(nodes), [])
    {
      ghost var links, values, all := heap.links, heap.values, nodes;
      NothingTrimmed(links, values, head, all);
      RingStep(links, head, all, 0);
      hide Trimmed, Ring;
      while size > 0
        invariant Valid() && Trimmed(links, values, heap.links, heap.values, head, all, nodes)
        decreases size
      {
        ghost var m, v, before := heap.links, heap.values, nodes;
        PopBack();
        TrimmedOnce(links, values, m, v, heap.links, heap.values, head, all, before, nodes);
      }
    }
  }
}
