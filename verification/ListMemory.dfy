/** Doubly linked rings: the node memory of `list`, a head node and the nodes it links. */
module ListMemory {
  datatype Link<P> = Link(prev: P, next: P)

  type Links<P(==)> = map<P, Link<P>>

  /** Node i of the ring, the head being node 0 and again node |nodes| + 1. */
  function Elem<P>(head: P, nodes: seq<P>, i: int): P {
    if 1 <= i <= |nodes| then nodes[i - 1] else head
  }

  ghost predicate JoinedAt<P>(m: Links<P>, head: P, nodes: seq<P>, i: int) {
    var x, y := Elem(head, nodes, i), Elem(head, nodes, i + 1);
    x in m && y in m && m[x].next == y && m[y].prev == x
  }

  ghost predicate NoDup<P>(head: P, nodes: seq<P>) {
    && (forall i :: 0 <= i < |nodes| ==> nodes[i] != head)
    && (forall i, j :: 0 <= i < j < |nodes| ==> nodes[i] != nodes[j])
  }

  /** head and nodes, in this order, form one well-linked ring of distinct nodes. */
  ghost predicate Ring<P>(m: Links<P>, head: P, nodes: seq<P>) {
    && NoDup(head, nodes)
    && forall i :: 0 <= i <= |nodes| ==> JoinedAt(m, head, nodes, i)
  }

  // Splicing

  /** What `_splice(tf, of, ol)` leaves in memory: the run of..ol now follows tf. */
  ghost function Spliced<P>(m: Links<P>, tf: P, of: P, ol: P): Links<P>
    requires tf in m && of in m && ol in m
  {
    var tl, op, on := m[tf].next, m[of].prev, m[ol].next;
    map n | n in m :: Link(
      if n == of then tf else if n == on then op else if n == tl then ol else m[n].prev,
      if n == ol then tl else if n == op then on else if n == tf then of else m[n].next)
  }

  // What a list leaves alone

  /** The addresses a list owns. */
  ghost function Cells<P>(head: P, nodes: seq<P>): set<P> {
    {head} + set x | x in nodes
  }

  /** The cells outside s are as they were, and there are no new ones. */
  ghost predicate SameOutside<P, V>(m: map<P, V>, m': map<P, V>, s: set<P>) {
    && (forall n :: n in m && n !in s ==> n in m' && m'[n] == m[n])
    && (forall n :: n in m' && n !in s ==> n in m)
  }

  lemma NothingChanged<P, V>(m: map<P, V>, s: set<P>)
    ensures SameOutside(m, m, s)
  {
  }

  lemma OutsideTwice<P, V>(m: map<P, V>, m1: map<P, V>, m2: map<P, V>, s: set<P>, t: set<P>)
    requires SameOutside(m, m1, s) && SameOutside(m1, m2, t) && t <= s
    ensures SameOutside(m, m2, s)
  {
  }

  lemma OutsideThrice<P, V>(m: map<P, V>, m1: map<P, V>, m2: map<P, V>, m3: map<P, V>, s: set<P>)
    requires SameOutside(m, m1, s) && SameOutside(m1, m2, s) && SameOutside(m2, m3, s)
    ensures SameOutside(m, m3, s)
  {
    OutsideTwice(m, m1, m2, s, s);
    OutsideTwice(m, m2, m3, s, s);
  }

  lemma InCells<P>(head: P, nodes: seq<P>, i: int)
    ensures Elem(head, nodes, i) in Cells(head, nodes)
  {
  }

  lemma SameCells<P>(head: P, nodes: seq<P>, nodes': seq<P>)
    requires multiset(nodes) == multiset(nodes')
    ensures Cells(head, nodes) == Cells(head, nodes')
  {
    assert forall x :: x in nodes <==> x in multiset(nodes);
    assert forall x :: x in nodes' <==> x in multiset(nodes');
  }

  lemma PartOfCells<P>(head: P, nodes: seq<P>, all: seq<P>)
    requires forall x :: x in nodes ==> x in all
    ensures Cells(head, nodes) <= Cells(head, all)
  {
  }

  /** A ring none of whose cells has changed is still a ring. */
  lemma RingElsewhere<P>(m: Links<P>, m': Links<P>, s: set<P>, head: P, nodes: seq<P>)
    requires Ring(m, head, nodes) && SameOutside(m, m', s)
    requires head !in s && forall i :: 0 <= i < |nodes| ==> nodes[i] !in s
    ensures Ring(m', head, nodes)
  {
    forall i | 0 <= i <= |nodes| ensures JoinedAt(m', head, nodes, i) {
      assert JoinedAt(m, head, nodes, i);
    }
  }

  /**
   * Of the list's nodes all, nodes are left. Those taken out are freed, and no cell that the list did not own
   * has changed: m and v are the links and values before, m' and v' after.
   */
  ghost predicate Trimmed<P, K>(m: Links<P>, v: map<P, K>, m': Links<P>, v': map<P, K>, head: P, all: seq<P>,
                                nodes: seq<P>) {
    && (forall x :: x in nodes ==> x in all)
    && (forall x :: x in all && x !in nodes ==> x !in m' && x !in v')
    && SameOutside(m, m', Cells(head, all)) && SameOutside(v, v', Cells(head, all))
  }

  lemma NothingTrimmed<P, K>(m: Links<P>, v: map<P, K>, head: P, all: seq<P>)
    ensures Trimmed(m, v, m, v, head, all, all)
  {
  }

  /** Taking out one more node, as `erase` does. */
  lemma TrimmedOnce<P, K>(m: Links<P>, v: map<P, K>, m1: Links<P>, v1: map<P, K>, m2: Links<P>, v2: map<P, K>, head: P,
                          all: seq<P>, nodes: seq<P>, left: seq<P>)
    requires Trimmed(m, v, m1, v1, head, all, nodes) && Trimmed(m1, v1, m2, v2, head, nodes, left)
    requires head !in all
    ensures Trimmed(m, v, m2, v2, head, all, left)
  {
    PartOfCells(head, nodes, all);
    OutsideTwice(m, m1, m2, Cells(head, all), Cells(head, nodes));
    OutsideTwice(v, v1, v2, Cells(head, all), Cells(head, nodes));
    forall x | x in all && x !in left ensures x !in m2 && x !in v2 {
      if x !in nodes { assert x !in Cells(head, nodes); }
    }
  }

  lemma SplicedOutside<P>(m: Links<P>, tf: P, of: P, ol: P, s: set<P>)
    requires tf in m && of in m && ol in m && tf in s && of in s && ol in s
    requires m[tf].next in s && m[of].prev in s && m[ol].next in s
    ensures SameOutside(m, Spliced(m, tf, of, ol), s)
  {
  }

  /** nodes with the run [b, c) moved in front of position a. */
  function Moved<T>(s: seq<T>, a: int, b: int, c: int): seq<T>
    requires 0 <= a <= b <= c <= |s|
  {
    s[..a] + s[b..c] + s[a..b] + s[c..]
  }

  lemma MovedNoDup<P>(head: P, nodes: seq<P>, a: int, b: int, c: int)
    requires NoDup(head, nodes) && 0 <= a <= b <= c <= |nodes|
    ensures NoDup(head, Moved(nodes, a, b, c))
  {
    var t := Moved(nodes, a, b, c);
    forall i, j | 0 <= i < j < |t| ensures t[i] != t[j] {
      assert t[i] == nodes[Source(a, b, c, i)] && t[j] == nodes[Source(a, b, c, j)];
    }
  }

  /** The old position of what Moved puts at position i. */
  function Source(a: int, b: int, c: int, i: int): int {
    if i < a then i else if i < a + c - b then i - a + b else if i < c then i - (c - b) else i
  }

  lemma SpliceSeam<P>(m: Links<P>, head: P, nodes: seq<P>, a: int, b: int, c: int, i: int)
    requires NoDup(head, nodes) && 0 <= a < b < c <= |nodes| && 0 <= i <= |nodes|
    requires JoinedAt(m, head, nodes, a) && JoinedAt(m, head, nodes, b) && JoinedAt(m, head, nodes, c)
    requires i == a || i == a + c - b || i == c
    ensures var tf, of, ol := Elem(head, nodes, a), Elem(head, nodes, b + 1), Elem(head, nodes, c);
      tf in m && of in m && ol in m && JoinedAt(Spliced(m, tf, of, ol), head, Moved(nodes, a, b, c), i)
  {
  }

  lemma SpliceRest<P>(m: Links<P>, head: P, nodes: seq<P>, a: int, b: int, c: int, i: int, j: int)
    requires NoDup(head, nodes) && 0 <= a < b < c <= |nodes| && 0 <= i <= |nodes|
    requires JoinedAt(m, head, nodes, a) && JoinedAt(m, head, nodes, b) && JoinedAt(m, head, nodes, c)
    requires i != a && i != a + c - b && i != c
    requires j == Source(a, b, c, i)
    requires JoinedAt(m, head, nodes, j)
    ensures var tf, of, ol := Elem(head, nodes, a), Elem(head, nodes, b + 1), Elem(head, nodes, c);
      tf in m && of in m && ol in m && JoinedAt(Spliced(m, tf, of, ol), head, Moved(nodes, a, b, c), i)
  {
  }

  /** Splicing a run of a ring in front of an earlier node of the same ring moves exactly that run. */
  lemma SpliceRing<P>(m: Links<P>, head: P, nodes: seq<P>, a: int, b: int, c: int)
    requires Ring(m, head, nodes) && 0 <= a < b < c <= |nodes|
    ensures var tf, of, ol := Elem(head, nodes, a), Elem(head, nodes, b + 1), Elem(head, nodes, c);
      tf in m && of in m && ol in m && Ring(Spliced(m, tf, of, ol), head, Moved(nodes, a, b, c))
  {
    hide JoinedAt, NoDup;
    MovedNoDup(head, nodes, a, b, c);
    SpliceSeam(m, head, nodes, a, b, c, a);
    var tf, of, ol := Elem(head, nodes, a), Elem(head, nodes, b + 1), Elem(head, nodes, c);
    forall i | 0 <= i <= |nodes| ensures JoinedAt(Spliced(m, tf, of, ol), head, Moved(nodes, a, b, c), i) {
      if i == a || i == a + c - b || i == c {
        SpliceSeam(m, head, nodes, a, b, c, i);
      } else {
        SpliceRest(m, head, nodes, a, b, c, i, Source(a, b, c, i));
      }
    }
  }

  // Splicing between two rings

  ghost predicate Apart<P>(h1: P, xs: seq<P>, h2: P, ys: seq<P>) {
    && h1 != h2
    && (forall i :: 0 <= i < |xs| ==> xs[i] != h2)
    && (forall j :: 0 <= j < |ys| ==> ys[j] != h1)
    && (forall i, j :: 0 <= i < |xs| && 0 <= j < |ys| ==> xs[i] != ys[j])
  }

  lemma TransferNoDup<P>(h1: P, xs: seq<P>, h2: P, ys: seq<P>, a: int, b: int, c: int)
    requires NoDup(h1, xs) && NoDup(h2, ys) && Apart(h1, xs, h2, ys) && 0 <= a <= |xs| && 0 <= b < c <= |ys|
    ensures NoDup(h1, xs[..a] + ys[b..c] + xs[a..]) && NoDup(h2, ys[..b] + ys[c..])
    ensures Apart(h1, xs[..a] + ys[b..c] + xs[a..], h2, ys[..b] + ys[c..])
  {
  }

  lemma TransferInto<P>(m: Links<P>, h1: P, xs: seq<P>, h2: P, ys: seq<P>, a: int, b: int, c: int, i: int)
    requires NoDup(h1, xs) && NoDup(h2, ys) && Apart(h1, xs, h2, ys) && 0 <= a <= |xs| && 0 <= b < c <= |ys|
    requires JoinedAt(m, h1, xs, a) && JoinedAt(m, h2, ys, b) && JoinedAt(m, h2, ys, c)
    requires 0 <= i <= |xs| + c - b
    requires i < a ==> JoinedAt(m, h1, xs, i)
    requires a < i < a + c - b ==> JoinedAt(m, h2, ys, i - a + b)
    requires a + c - b < i ==> JoinedAt(m, h1, xs, i - (c - b))
    ensures var tf, of, ol := Elem(h1, xs, a), Elem(h2, ys, b + 1), Elem(h2, ys, c);
      && tf in m && of in m && ol in m
      && JoinedAt(Spliced(m, tf, of, ol), h1, xs[..a] + ys[b..c] + xs[a..], i)
  {
  }

  lemma TransferFrom<P>(m: Links<P>, h1: P, xs: seq<P>, h2: P, ys: seq<P>, a: int, b: int, c: int, i: int)
    requires NoDup(h1, xs) && NoDup(h2, ys) && Apart(h1, xs, h2, ys) && 0 <= a <= |xs| && 0 <= b < c <= |ys|
    requires JoinedAt(m, h1, xs, a) && JoinedAt(m, h2, ys, b) && JoinedAt(m, h2, ys, c)
    requires 0 <= i <= |ys| - (c - b)
    requires i < b ==> JoinedAt(m, h2, ys, i)
    requires b < i ==> JoinedAt(m, h2, ys, i + c - b)
    ensures var tf, of, ol := Elem(h1, xs, a), Elem(h2, ys, b + 1), Elem(h2, ys, c);
      && tf in m && of in m && ol in m
      && JoinedAt(Spliced(m, tf, of, ol), h2, ys[..b] + ys[c..], i)
  {
  }

  /** Splicing a run of one ring into another moves exactly that run and leaves two well-linked rings. */
  lemma TransferRings<P>(m: Links<P>, h1: P, xs: seq<P>, h2: P, ys: seq<P>, a: int, b: int, c: int)
    requires Ring(m, h1, xs) && Ring(m, h2, ys) && Apart(h1, xs, h2, ys) && 0 <= a <= |xs| && 0 <= b < c <= |ys|
    ensures var tf, of, ol := Elem(h1, xs, a), Elem(h2, ys, b + 1), Elem(h2, ys, c);
      && tf in m && of in m && ol in m
      && Ring(Spliced(m, tf, of, ol), h1, xs[..a] + ys[b..c] + xs[a..])
      && Ring(Spliced(m, tf, of, ol), h2, ys[..b] + ys[c..])
    ensures Apart(h1, xs[..a] + ys[b..c] + xs[a..], h2, ys[..b] + ys[c..])
  {
    hide JoinedAt, NoDup, Apart;
    TransferNoDup(h1, xs, h2, ys, a, b, c);
    TransferInto(m, h1, xs, h2, ys, a, b, c, a);
    var tf, of, ol := Elem(h1, xs, a), Elem(h2, ys, b + 1), Elem(h2, ys, c);
    forall i | 0 <= i <= |xs| + c - b
      ensures JoinedAt(Spliced(m, tf, of, ol), h1, xs[..a] + ys[b..c] + xs[a..], i)
    {
      TransferInto(m, h1, xs, h2, ys, a, b, c, i);
    }
    forall i | 0 <= i <= |ys| - (c - b) ensures JoinedAt(Spliced(m, tf, of, ol), h2, ys[..b] + ys[c..], i) {
      TransferFrom(m, h1, xs, h2, ys, a, b, c, i);
    }
  }

  // Linking and unlinking one node

  /** What `_link_node_before(before, x)` leaves in memory. */
  ghost function LinkedBefore<P>(m: Links<P>, before: P, x: P): Links<P>
    requires before in m
  {
    var pr := m[before].prev;
    map n | n in m.Keys + {x} ::
      if n == x then Link(pr, before)
      else Link(if n == before then x else m[n].prev, if n == pr then x else m[n].next)
  }

  /** What `_unlink_node(x)` leaves in memory; nil stands for the null pointer. */
  ghost function Unlinked<P>(m: Links<P>, x: P, nil: P): Links<P>
    requires x in m
  {
    map n | n in m ::
      if n == x then Link(nil, nil)
      else Link(if n == m[x].next then m[x].prev else m[n].prev, if n == m[x].prev then m[x].next else m[n].next)
  }

  lemma LinkedOutside<P>(m: Links<P>, before: P, x: P, s: set<P>)
    requires before in m && before in s && m[before].prev in s
    ensures SameOutside(m, LinkedBefore(m, before, x), s + {x})
  {
  }

  lemma UnlinkedOutside<P>(m: Links<P>, x: P, nil: P, s: set<P>)
    requires x in m && x in s && m[x].prev in s && m[x].next in s
    ensures SameOutside(m, Unlinked(m, x, nil), s)
  {
  }

  lemma LinkJoined<P>(m: Links<P>, head: P, nodes: seq<P>, k: int, x: P, i: int)
    requires NoDup(head, nodes) && 0 <= k <= |nodes| && x != head && (forall j :: 0 <= j < |nodes| ==> nodes[j] != x)
    requires 0 <= i <= |nodes| + 1 && JoinedAt(m, head, nodes, k)
    requires i < k ==> JoinedAt(m, head, nodes, i)
    requires k + 1 < i ==> JoinedAt(m, head, nodes, i - 1)
    ensures var before := Elem(head, nodes, k + 1);
      before in m && JoinedAt(LinkedBefore(m, before, x), head, nodes[..k] + [x] + nodes[k..], i)
  {
  }

  lemma LinkRing<P>(m: Links<P>, head: P, nodes: seq<P>, k: int, x: P)
    requires Ring(m, head, nodes) && 0 <= k <= |nodes| && x != head && (forall j :: 0 <= j < |nodes| ==> nodes[j] != x)
    ensures var before := Elem(head, nodes, k + 1);
      before in m && Ring(LinkedBefore(m, before, x), head, nodes[..k] + [x] + nodes[k..])
  {
    hide JoinedAt;
    var nodes' := nodes[..k] + [x] + nodes[k..];
    assert NoDup(head, nodes');
    LinkJoined(m, head, nodes, k, x, k);
    var m' := LinkedBefore(m, Elem(head, nodes, k + 1), x);
    forall i | 0 <= i <= |nodes'| ensures JoinedAt(m', head, nodes', i) {
      LinkJoined(m, head, nodes, k, x, i);
    }
  }

  lemma UnlinkJoined<P>(m: Links<P>, head: P, nodes: seq<P>, k: int, nil: P, i: int)
    requires NoDup(head, nodes) && 0 <= k < |nodes| && 0 <= i < |nodes|
    requires JoinedAt(m, head, nodes, k) && JoinedAt(m, head, nodes, k + 1)
    requires i < k ==> JoinedAt(m, head, nodes, i)
    requires k < i ==> JoinedAt(m, head, nodes, i + 1)
    ensures nodes[k] in m && JoinedAt(Unlinked(m, nodes[k], nil), head, nodes[..k] + nodes[k + 1..], i)
  {
  }

  lemma UnlinkRing<P>(m: Links<P>, head: P, nodes: seq<P>, k: int, nil: P)
    requires Ring(m, head, nodes) && 0 <= k < |nodes|
    ensures nodes[k] in m && Ring(Unlinked(m, nodes[k], nil), head, nodes[..k] + nodes[k + 1..])
  {
    hide JoinedAt;
    var nodes' := nodes[..k] + nodes[k + 1..];
    assert NoDup(head, nodes');
    UnlinkJoined(m, head, nodes, k, nil, k);
    forall i | 0 <= i < |nodes| ensures JoinedAt(Unlinked(m, nodes[k], nil), head, nodes', i) {
      UnlinkJoined(m, head, nodes, k, nil, i);
    }
  }
}
