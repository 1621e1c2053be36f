/**
 * `merge` step by step, with reads that may fail, so that it can be followed where its method may not be called:
 * merging into an empty list, where both ranges start at the same node.
 */
module MergeSteps {
  import opened ListMemory
  import opened Merging
  import opened List
  import opened Sequences

  /** Run passes the nodes of [mid, last) that are less than first; Skip moves first on, at least once. */
  datatype Phase = Run | Skip

  datatype State<P> = State(links: Links<P>, first: P, mid: P, runStart: P, phase: Phase)

  /** Fault is a read of the value or a link of a node that has none. */
  datatype Outcome<P> = Going(state: State<P>) | Done(links: Links<P>) | Fault(at: P, links: Links<P>)

  /** `_splice` write by write, without the assumption that its arguments lie apart. */
  ghost function SpliceSteps<P>(m: Links<P>, tf: P, of: P, ol: P): Links<P>
    requires tf in m && of in m && ol in m && m[tf].next in m && m[of].prev in m && m[ol].next in m
  {
    var tl := m[tf].next;
    var m1 := m[tf := m[tf].(next := of)];
    var m2 := m1[tl := m1[tl].(prev := ol)];
    var m3 := m2[m2[of].prev := m2[m2[of].prev].(next := m2[ol].next)];
    var m4 := if m3[ol].next in m3 then m3[m3[ol].next := m3[m3[ol].next].(prev := m3[of].prev)] else m3;
    var m5 := m4[of := m4[of].(prev := tf)];
    m5[ol := m5[ol].(next := tl)]
  }

  ghost predicate CanSplice<P>(m: Links<P>, tf: P, of: P, ol: P) {
    tf in m && of in m && ol in m && m[tf].next in m && m[of].prev in m && m[ol].next in m
  }

  /** After the first loop: the run goes before first, and the merge ends if it was the last. */
  ghost function RunOver<P>(last: P, s: State<P>): Outcome<P> {
    if s.runStart == s.mid then
      if s.mid == last then Done(s.links) else Going(s.(phase := Skip))
    else if s.first !in s.links then Fault(s.first, s.links)
    else if s.mid !in s.links then Fault(s.mid, s.links)
    else if !CanSplice(s.links, s.links[s.first].prev, s.runStart, s.links[s.mid].prev) then Fault(s.runStart, s.links)
    else
      var m := SpliceSteps(s.links, s.links[s.first].prev, s.runStart, s.links[s.mid].prev);
      if s.mid == last then Done(m) else Going(s.(links := m, phase := Skip))
  }

  /** One test of either loop, with what follows it. */
  ghost function Step<P, K>(less: (K, K) -> bool, values: map<P, K>, last: P, s: State<P>): Outcome<P> {
    match s.phase
    case Run =>
      if s.mid == last then RunOver(last, s)
      else if s.mid !in values then Fault(s.mid, s.links)
      else if s.first !in values then Fault(s.first, s.links)
      else if !less(values[s.mid], values[s.first]) then RunOver(last, s)
      else if s.mid !in s.links then Fault(s.mid, s.links)
      else Going(s.(mid := s.links[s.mid].next))
    case Skip =>
      if s.first !in s.links then Fault(s.first, s.links)
      else
        var first := s.links[s.first].next;
        if first == s.mid then Done(s.links)
        else if s.mid !in values then Fault(s.mid, s.links)
        else if first !in values then Fault(first, s.links)
        else if less(values[s.mid], values[first]) then Going(s.(first := first, runStart := s.mid, phase := Run))
        else Going(s.(first := first))
  }

  ghost function After<P, K>(less: (K, K) -> bool, values: map<P, K>, last: P, s: State<P>, n: nat): Outcome<P>
    decreases n
  {
    if n == 0 then Going(s)
    else
      match Step(less, values, last, s)
      case Going(s') => After(less, values, last, s', n - 1)
      case over => over
  }

  lemma {:induction false} AfterAfter<P, K>(less: (K, K) -> bool, values: map<P, K>, last: P, s: State<P>, a: nat,
                                            t: State<P>, b: nat)
    requires After(less, values, last, s, a) == Going(t)
    ensures After(less, values, last, s, a + b) == After(less, values, last, t, b)
    decreases a
  {
    hide Step;
    if a > 0 {
      AfterAfter(less, values, last, Step(less, values, last, s).state, a - 1, t, b);
    }
  }

  // The links the loops follow: every forward link of the ring, and the backward links from node a on.

  ghost predicate NextAt<P>(m: Links<P>, head: P, nodes: seq<P>, i: int) {
    Elem(head, nodes, i) in m && m[Elem(head, nodes, i)].next == Elem(head, nodes, i + 1)
  }

  ghost predicate PrevAt<P>(m: Links<P>, head: P, nodes: seq<P>, i: int) {
    Elem(head, nodes, i + 1) in m && m[Elem(head, nodes, i + 1)].prev == Elem(head, nodes, i)
  }

  ghost predicate ForwardKept<P>(m: Links<P>, head: P, nodes: seq<P>, a: int) {
    && NoDup(head, nodes)
    && (forall i :: 0 <= i <= |nodes| ==> NextAt(m, head, nodes, i))
    && (forall i :: a <= i < |nodes| ==> PrevAt(m, head, nodes, i))
  }

  lemma RingForward<P>(m: Links<P>, head: P, nodes: seq<P>)
    requires Ring(m, head, nodes)
    ensures ForwardKept(m, head, nodes, 0)
  {
    forall i | 0 <= i <= |nodes| ensures NextAt(m, head, nodes, i) && PrevAt(m, head, nodes, i) {
      assert JoinedAt(m, head, nodes, i);
    }
  }

  /** A run spliced behind its own last node: its first node links back to the last, and nothing else changes. */
  lemma SplicedBehindItself<P>(m: Links<P>, of: P, ol: P)
    requires CanSplice(m, ol, of, ol) && m[m[ol].next].prev == ol && m[m[of].prev].next == of
    requires m[ol].next != of && m[of].prev != ol
    ensures SpliceSteps(m, ol, of, ol) == m[of := m[of].(prev := ol)]
  {
  }

  lemma SpliceForward<P>(m: Links<P>, head: P, nodes: seq<P>, a: int, u: int)
    requires ForwardKept(m, head, nodes, a) && 0 <= a < u < |nodes|
    ensures nodes[u] in m && m[nodes[u]].prev == nodes[u - 1] && CanSplice(m, nodes[u - 1], nodes[a], nodes[u - 1])
    ensures SpliceSteps(m, nodes[u - 1], nodes[a], nodes[u - 1]) == m[nodes[a] := m[nodes[a]].(prev := nodes[u - 1])]
    ensures ForwardKept(SpliceSteps(m, nodes[u - 1], nodes[a], nodes[u - 1]), head, nodes, u)
  {
    assert NextAt(m, head, nodes, u) && PrevAt(m, head, nodes, u) && NextAt(m, head, nodes, a);
    assert NextAt(m, head, nodes, a + 1) && PrevAt(m, head, nodes, a);
    SplicedBehindItself(m, nodes[a], nodes[u - 1]);
    var m' := SpliceSteps(m, nodes[u - 1], nodes[a], nodes[u - 1]);
    hide SpliceSteps;
    forall i | 0 <= i <= |nodes| ensures NextAt(m', head, nodes, i) {
      assert NextAt(m, head, nodes, i);
    }
    forall i | u <= i < |nodes| ensures PrevAt(m', head, nodes, i) {
      assert PrevAt(m, head, nodes, i);
    }
  }

  // Both ranges start at node a

  /** Skip goes on from first to the first node greater than mid, or reads the value of the head, which has none. */
  lemma {:induction false} SkipScans<P, K>(less: (K, K) -> bool, values: map<P, K>, m: Links<P>, head: P, nodes: seq<P>,
                                           a: int, i: int, runStart: P) returns (n: nat, u: int)
    requires ForwardKept(m, head, nodes, a) && Held(values, nodes) && head !in values && 0 <= a <= i < |nodes|
    requires forall j :: a < j <= i ==> !less(values[nodes[a]], values[nodes[j]])
    ensures i < u <= |nodes| && forall j :: a < j < u ==> !less(values[nodes[a]], values[nodes[j]])
    ensures var s := State(m, nodes[i], nodes[a], runStart, Skip);
      After(less, values, head, s, n) ==
      if u == |nodes| then Fault(head, m) else Going(State(m, nodes[u], nodes[a], nodes[a], Run))
    ensures u < |nodes| ==> less(values[nodes[a]], values[nodes[u]])
    decreases |nodes| - i
  {
    var s := State(m, nodes[i], nodes[a], runStart, Skip);
    assert NextAt(m, head, nodes, i + 1);
    u := i + 1;
    n := 1;
    if u == |nodes| {
      assert Step(less, values, head, s) == Fault(head, m);
    } else if less(values[nodes[a]], values[nodes[u]]) {
      assert Step(less, values, head, s) == Going(State(m, nodes[u], nodes[a], nodes[a], Run));
    } else {
      var s' := State(m, nodes[u], nodes[a], runStart, Skip);
      assert Step(less, values, head, s) == Going(s');
      n, u := SkipScans(less, values, m, head, nodes, a, i + 1, runStart);
      n := n + 1;
    }
  }

  /** Run passes every node before node u, all of which are less than it, and stops there. */
  lemma {:induction false} RunPasses<P, K>(less: (K, K) -> bool, values: map<P, K>, m: Links<P>, head: P, nodes: seq<P>,
                                           a: int, i: int, u: int)
    requires ForwardKept(m, head, nodes, a) && Held(values, nodes) && 0 <= a <= i <= u < |nodes|
    requires forall j :: a <= j < u ==> less(values[nodes[j]], values[nodes[u]])
    ensures After(less, values, head, State(m, nodes[u], nodes[i], nodes[a], Run), u - i)
         == Going(State(m, nodes[u], nodes[u], nodes[a], Run))
    decreases u - i
  {
    if i < u {
      assert NextAt(m, head, nodes, i + 1);
      RunPasses(less, values, m, head, nodes, a, i + 1, u);
    }
  }

  lemma AllLess<P, K(!new)>(less: (K, K) -> bool, values: map<P, K>, nodes: seq<P>, a: int, u: int)
    requires StrictWeakOrder(less) && Held(values, nodes) && 0 <= a < u < |nodes|
    requires less(values[nodes[a]], values[nodes[u]])
    requires forall j :: a < j < u ==> !less(values[nodes[a]], values[nodes[j]])
    ensures forall j :: a <= j < u ==> less(values[nodes[j]], values[nodes[u]])
    ensures !less(values[nodes[u]], values[nodes[u]])
  {
  }

  /** At node u the run from node a on is spliced behind its own last node, and both ranges start at u. */
  lemma RunEnds<P, K(!new)>(less: (K, K) -> bool, values: map<P, K>, m: Links<P>, head: P, nodes: seq<P>, a: int,
                            u: int) returns (m': Links<P>)
    requires ForwardKept(m, head, nodes, a) && Held(values, nodes) && 0 <= a < u < |nodes|
    requires !less(values[nodes[u]], values[nodes[u]])
    ensures Step(less, values, head, State(m, nodes[u], nodes[u], nodes[a], Run))
         == Going(State(m', nodes[u], nodes[u], nodes[a], Skip))
    ensures ForwardKept(m', head, nodes, u)
    ensures nodes[a] in m && m' == m[nodes[a] := m[nodes[a]].(prev := nodes[u - 1])]
  {
    SpliceForward(m, head, nodes, a, u);
    m' := SpliceSteps(m, nodes[u - 1], nodes[a], nodes[u - 1]);
    hide SpliceSteps, ForwardKept;
  }

  /** The head still links to the first node, which no longer links back: no ring, whatever the order. */
  ghost predicate BrokenAtFront<P>(m: Links<P>, head: P, first: P) {
    head in m && first in m && m[head].next == first && m[first].prev != head
  }

  lemma BrokenIsNoRing<P>(m: Links<P>, head: P, first: P, ns: seq<P>)
    requires BrokenAtFront(m, head, first)
    ensures !Ring(m, head, ns)
  {
    assert !JoinedAt(m, head, ns, 0);
  }

  lemma {:induction false} GoesOn<P, K(!new)>(less: (K, K) -> bool, values: map<P, K>, m: Links<P>, head: P,
                                              nodes: seq<P>, a: int, runStart: P) returns (n: nat, end: Links<P>)
    requires StrictWeakOrder(less) && ForwardKept(m, head, nodes, a) && Held(values, nodes) && head !in values
    requires 0 <= a < |nodes| && (a > 0 ==> BrokenAtFront(m, head, nodes[0]))
    ensures After(less, values, head, State(m, nodes[a], nodes[a], runStart, Skip), n) == Fault(head, end)
    ensures a > 0 || (exists i :: a < i < |nodes| && less(values[nodes[a]], values[nodes[i]])) ==>
      BrokenAtFront(end, head, nodes[0])
    ensures a == 0 && (forall i :: a < i < |nodes| ==> !less(values[nodes[a]], values[nodes[i]])) ==> end == m
    decreases |nodes| - a
  {
    hide After, Step, ForwardKept, StrictWeakOrder;
    var u;
    var s := State(m, nodes[a], nodes[a], runStart, Skip);
    n, u := SkipScans(less, values, m, head, nodes, a, a, runStart);
    end := m;
    if u < |nodes| {
      AllLess(less, values, nodes, a, u);
      RunPasses(less, values, m, head, nodes, a, a, u);
      AfterAfter(less, values, head, s, n, State(m, nodes[u], nodes[a], nodes[a], Run), u - a);
      var m' := RunEnds(less, values, m, head, nodes, a, u);
      FrontBroken(m, head, nodes, a, u, m');
      var n', r := 0, State(m, nodes[u], nodes[u], nodes[a], Run);
      n', end := GoesOn(less, values, m', head, nodes, u, nodes[a]);
      OneMore(less, values, head, r, State(m', nodes[u], nodes[u], nodes[a], Skip), n');
      AfterAfter(less, values, head, s, n + (u - a), r, n' + 1);
      n := n + (u - a) + (n' + 1);
    }
  }

  lemma OneMore<P, K>(less: (K, K) -> bool, values: map<P, K>, last: P, s: State<P>, t: State<P>, n: nat)
    requires Step(less, values, last, s) == Going(t)
    ensures After(less, values, last, s, n + 1) == After(less, values, last, t, n)
  {
  }

  lemma FrontBroken<P>(m: Links<P>, head: P, nodes: seq<P>, a: int, u: int, m': Links<P>)
    requires ForwardKept(m, head, nodes, a) && 0 <= a < u < |nodes| && nodes[a] in m
    requires m' == m[nodes[a] := m[nodes[a]].(prev := nodes[u - 1])]
    requires a > 0 ==> BrokenAtFront(m, head, nodes[0])
    ensures BrokenAtFront(m', head, nodes[0])
  {
    assert NextAt(m, head, nodes, 0);
  }

  /**
   * Merging any non-empty list, sorted or not, into an empty one ends by reading the value of the head, which has
   * none. By then the ring is destroyed if some node is greater than the first, and untouched if none is.
   */
  lemma MergeIntoEmptyFails<P, K(!new)>(less: (K, K) -> bool, values: map<P, K>, m: Links<P>, head: P, nodes: seq<P>,
                                        ns: seq<P>) returns (n: nat, end: Links<P>)
    requires StrictWeakOrder(less) && Ring(m, head, nodes) && Held(values, nodes) && head !in values && nodes != []
    ensures After(less, values, head, State(m, nodes[0], nodes[0], nodes[0], Run), n) == Fault(head, end)
    ensures (exists i :: 0 <= i < |nodes| && less(values[nodes[0]], values[nodes[i]])) ==> !Ring(end, head, ns)
    ensures (forall i :: 0 <= i < |nodes| ==> !less(values[nodes[0]], values[nodes[i]])) ==> end == m
  {
    hide After, Ring;
    RingForward(m, head, nodes);
    n, end := GoesOn(less, values, m, head, nodes, 0, nodes[0]);
    var s := State(m, nodes[0], nodes[0], nodes[0], Run);
    assert Step(less, values, head, s) == Going(s.(phase := Skip));
    OneMore(less, values, head, s, s.(phase := Skip), n);
    n := n + 1;
    if i :| 0 <= i < |nodes| && less(values[nodes[0]], values[nodes[i]]) {
      assert 0 < i;
      BrokenIsNoRing(end, head, nodes[0], ns);
    }
  }

  // The ranges are apart, as they are when the receiver is not empty

  lemma StepsAreSpliced<P>(m: Links<P>, tf: P, of: P, ol: P)
    requires CanSplice(m, tf, of, ol) && tf != m[of].prev && tf != ol && m[of].prev != ol
    requires m[tf].next != m[ol].next && m[tf].next != of && m[ol].next != of
    ensures SpliceSteps(m, tf, of, ol) == Spliced(m, tf, of, ol)
  {
  }

  /** Run passes the nodes that are less than first; then the run is spliced in, if there is one. */
  lemma {:induction false} RunGoes<P, K>(less: (K, K) -> bool, values: map<P, K>, m: Links<P>, head: P, nodes: seq<P>,
                                         p: int, q: int, i: int) returns (n: nat, t: int)
    requires Ring(m, head, nodes) && Held(values, nodes) && 0 <= p < q <= i <= |nodes| && q < |nodes|
    requires forall j :: q <= j < i ==> less(values[nodes[j]], values[nodes[p]])
    ensures i <= t <= |nodes| && forall j :: q <= j < t ==> less(values[nodes[j]], values[nodes[p]])
    ensures t < |nodes| ==> !less(values[nodes[t]], values[nodes[p]])
    ensures After(less, values, head, State(m, nodes[p], Elem(head, nodes, i + 1), nodes[q], Run), n)
         == RunOver(head, State(m, nodes[p], Elem(head, nodes, t + 1), nodes[q], Run))
    decreases |nodes| - i
  {
    var s := State(m, nodes[p], Elem(head, nodes, i + 1), nodes[q], Run);
    n, t := 1, i;
    if i < |nodes| {
      assert JoinedAt(m, head, nodes, i + 1) && nodes[i] != head;
      if less(values[nodes[i]], values[nodes[p]]) {
        n, t := RunGoes(less, values, m, head, nodes, p, q, i + 1);
        OneMore(less, values, head, s, s.(mid := Elem(head, nodes, i + 2)), n);
        n := n + 1;
      }
    }
    hide Ring;
  }

  /** Skip moves first on to the first node that mid is less than, or to mid. */
  lemma {:induction false} SkipGoes<P, K>(less: (K, K) -> bool, values: map<P, K>, m: Links<P>, head: P, nodes: seq<P>,
                                          p: int, q: int, i: int, runStart: P) returns (n: nat, u: int)
    requires Ring(m, head, nodes) && Held(values, nodes) && 0 <= p <= i < q < |nodes|
    requires forall j :: p <= j <= i ==> !less(values[nodes[q]], values[nodes[j]])
    ensures i < u <= q && forall j :: p <= j < u ==> !less(values[nodes[q]], values[nodes[j]])
    ensures After(less, values, head, State(m, nodes[i], nodes[q], runStart, Skip), n)
         == if u == q then Done(m) else Going(State(m, nodes[u], nodes[q], nodes[q], Run))
    decreases q - i
  {
    var s := State(m, nodes[i], nodes[q], runStart, Skip);
    assert JoinedAt(m, head, nodes, i + 1);
    n, u := 1, i + 1;
    if u < q {
      assert nodes[u] != nodes[q];
      if !less(values[nodes[q]], values[nodes[u]]) {
        n, u := SkipGoes(less, values, m, head, nodes, p, q, i + 1, runStart);
        OneMore(less, values, head, s, s.(first := nodes[i + 1]), n);
        n := n + 1;
      }
    }
    hide Ring;
  }

  /** What follows the first loop: the run [q, t) is in front of node p. */
  lemma RunMoves<P>(m: Links<P>, head: P, nodes: seq<P>, p: int, q: int, t: int) returns (m': Links<P>)
    requires Ring(m, head, nodes) && 0 <= p < q <= t <= |nodes| && q < |nodes|
    ensures Ring(m', head, Moved(nodes, p, q, t))
    ensures RunOver(head, State(m, nodes[p], Elem(head, nodes, t + 1), nodes[q], Run))
         == if t == |nodes| then Done(m') else Going(State(m', nodes[p], nodes[t], nodes[q], Skip))
  {
    RingDistinct(m, head, nodes, t);
    RingStep(m, head, nodes, t);
    m' := m;
    if t == q {
      assert Moved(nodes, p, q, t) == nodes;
    } else {
      SpliceReady(m, head, nodes, p, q, t);
      m' := Spliced(m, Elem(head, nodes, p), nodes[q], nodes[t - 1]);
      StepsAreSpliced(m, Elem(head, nodes, p), nodes[q], nodes[t - 1]);
    }
    hide Ring, Spliced, SpliceSteps, Moved;
  }

  lemma {:induction false} MergeGoes<P, K>(less: (K, K) -> bool, values: map<P, K>, m: Links<P>, head: P, nodes: seq<P>,
                                           s0: seq<P>, mi: int, p: int, q: int) returns (n: nat, end: Links<P>)
    requires Ring(m, head, nodes) && 0 <= p < q < |nodes| && MergeInv(less, values, nodes, s0, mi, p, q, |nodes|)
    ensures After(less, values, head, State(m, nodes[p], nodes[q], nodes[q], Run), n) == Done(end)
    ensures Held(values, s0[..mi]) && Held(values, s0[mi..])
    ensures Ring(end, head, Interleave(less, values, s0[..mi], s0[mi..]))
    decreases |nodes| - p
  {
    hide After, Ring, MergeInv, Moved, Interleave, RunOver, Held;
    MergeHeld(less, values, nodes, s0, mi, p, q);
    var s := State(m, nodes[p], nodes[q], nodes[q], Run);
    var t;
    n, t := RunGoes(less, values, m, head, nodes, p, q, q);
    var m' := RunMoves(m, head, nodes, p, q, t);
    end := m';
    MergeRunInv(less, values, nodes, s0, mi, p, q, t, |nodes|);
    RunMoved(m, values, head, nodes, p, q, t);
    var nodes', p' := Moved(nodes, p, q, t), p + t - q;
    if t == |nodes| {
      MergeEnd(less, values, nodes', s0, mi, p', t, |nodes|);
      WholeMerge(less, values, nodes', s0, mi);
    } else {
      var s' := State(m', nodes'[p'], nodes'[t], nodes[q], Skip);
      var n2, u := SkipGoes(less, values, m', head, nodes', p', t, p', nodes[q]);
      AfterAfter(less, values, head, s, n, s', n2);
      n := n + n2;
      MergeSkipInv(less, values, nodes', s0, mi, p', t, u, |nodes|);
      if u == t {
        MergeEnd(less, values, nodes', s0, mi, u, t, |nodes|);
        WholeMerge(less, values, nodes', s0, mi);
      } else {
        var n3;
        n3, end := MergeGoes(less, values, m', head, nodes', s0, mi, u, t);
        AfterAfter(less, values, head, s, n, State(m', nodes'[u], nodes'[t], nodes'[t], Run), n3);
        n := n + n3;
      }
    }
  }

  lemma MergeHeld<P, K>(less: (K, K) -> bool, values: map<P, K>, nodes: seq<P>, s0: seq<P>, mi: int, p: int, q: int)
    requires MergeInv(less, values, nodes, s0, mi, p, q, |nodes|)
    ensures Held(values, nodes) && |nodes| == |s0| && 0 <= mi <= |s0|
    ensures Held(values, s0[..mi]) && Held(values, s0[mi..])
    ensures s0[mi..|nodes|] == s0[mi..] && s0[|nodes|..] == []
  {
  }

  lemma WholeMerge<P, K>(less: (K, K) -> bool, values: map<P, K>, nodes: seq<P>, s0: seq<P>, mi: int)
    requires |nodes| == |s0| && 0 <= mi <= |s0| && Held(values, s0[..mi]) && Held(values, s0[mi..|nodes|])
    requires nodes == Interleave(less, values, s0[..mi], s0[mi..|nodes|]) + s0[|nodes|..]
    ensures Held(values, s0[mi..]) && nodes == Interleave(less, values, s0[..mi], s0[mi..])
  {
    assert s0[mi..|nodes|] == s0[mi..] && s0[|nodes|..] == [];
  }

  /**
   * Once the nodes of the other list are behind those of the receiver, merging ends, having read only nodes with
   * values, if and only if there were nodes on both sides: from a receiver that was not empty with the textbook merge,
   * from an empty one with a read of the head's value.
   */
  lemma MergeEndsIff<P, K(!new)>(less: (K, K) -> bool, values: map<P, K>, m: Links<P>, head: P, l: seq<P>, r: seq<P>)
    returns (n: nat, end: Links<P>)
    requires StrictWeakOrder(less) && Ring(m, head, l + r) && Held(values, l) && Held(values, r) && head !in values
    requires r != []
    ensures After(less, values, head, State(m, (l + r)[0], r[0], r[0], Run), n)
         == if l != [] then Done(end) else Fault(head, end)
    ensures l != [] ==> Ring(end, head, Interleave(less, values, l, r))
  {
    hide After, Ring, MergeInv, Interleave, StrictWeakOrder;
    var nodes := l + r;
    assert nodes[..|l|] == l && nodes[|l|..] == r;
    if l == [] {
      assert nodes == r;
      n, end := MergeIntoEmptyFails(less, values, m, head, nodes, []);
    } else {
      MergeStart(less, values, nodes, |l|, |nodes|);
      n, end := MergeGoes(less, values, m, head, nodes, nodes, |l|, 0, |l|);
    }
  }
}
