/** Reversing a ring, and what removing by a predicate leaves of a sequence of nodes. */
module Filtering {
  import opened ListMemory
  import opened Sequences

  function Reversed<P>(s: seq<P>): (t: seq<P>)
    ensures |t| == |s|
    ensures forall i :: 0 <= i < |s| ==> t[i] == s[|s| - 1 - i]
  {
    seq(|s|, i requires 0 <= i < |s| => s[|s| - 1 - i])
  }

  lemma ReversedElem<P>(head: P, nodes: seq<P>, i: int)
    requires 0 <= i <= |nodes| + 1
    ensures Elem(head, Reversed(nodes), i) == Elem(head, nodes, |nodes| + 1 - i)
  {
  }

  /** A ring whose cells have all been turned round is the ring of the reversed sequence. */
  lemma ReversedRing<P>(m: Links<P>, m': Links<P>, head: P, nodes: seq<P>)
    requires Ring(m, head, nodes)
    requires forall i :: 0 <= i <= |nodes| ==> TurnedAt(m, m', Elem(head, nodes, i))
    ensures Ring(m', head, Reversed(nodes))
  {
    var r := Reversed(nodes);
    forall i | 0 <= i <= |r| ensures JoinedAt(m', head, r, i) {
      ReversedElem(head, nodes, i);
      ReversedElem(head, nodes, i + 1);
      var j := |nodes| - i;
      assert JoinedAt(m, head, nodes, j);
      assert TurnedAt(m, m', Elem(head, nodes, j));
      assert TurnedAt(m, m', Elem(head, nodes, if j == |nodes| then 0 else j + 1));
    }
  }

  ghost predicate TurnedAt<P>(m: Links<P>, m': Links<P>, x: P) {
    x in m && x in m' && m'[x] == Link(m[x].next, m[x].prev)
  }

  ghost predicate UnturnedAt<P>(m: Links<P>, m': Links<P>, x: P) {
    x in m && x in m' && m'[x] == m[x]
  }

  /** The head and the nodes after the first `at` are turned round, the others are as they were. */
  ghost predicate TurnedFrom<P>(m: Links<P>, m': Links<P>, head: P, nodes: seq<P>, at: int) {
    && TurnedAt(m, m', head)
    && (forall i :: at < i <= |nodes| ==> TurnedAt(m, m', Elem(head, nodes, i)))
    && (forall i :: 1 <= i <= at ==> UnturnedAt(m, m', Elem(head, nodes, i)))
  }

  function Turned<P>(m: Links<P>, x: P): Links<P>
    requires x in m
  {
    m[x := Link(m[x].next, m[x].prev)]
  }

  lemma TurnedOutside<P>(m: Links<P>, m': Links<P>, x: P, s: set<P>)
    requires x in m' && x in s && SameOutside(m, m', s)
    ensures SameOutside(m, Turned(m', x), s)
  {
  }

  lemma TurnedHead<P>(m: Links<P>, head: P, nodes: seq<P>)
    requires Ring(m, head, nodes)
    ensures head in m && TurnedFrom(m, Turned(m, head), head, nodes, |nodes|)
  {
    assert JoinedAt(m, head, nodes, 0);
    forall i | 1 <= i <= |nodes| ensures UnturnedAt(m, Turned(m, head), Elem(head, nodes, i)) {
      assert JoinedAt(m, head, nodes, i);
      assert nodes[i - 1] != head;
    }
  }

  /** Turning the next node round, and where that leads. */
  lemma TurnedNext<P>(m: Links<P>, m': Links<P>, head: P, nodes: seq<P>, at: int)
    requires Ring(m, head, nodes) && TurnedFrom(m, m', head, nodes, at) && 1 <= at <= |nodes|
    ensures var x := Elem(head, nodes, at);
      && x in m'
      && TurnedFrom(m, Turned(m', x), head, nodes, at - 1)
      && m'[x].prev == Elem(head, nodes, at - 1)
  {
    var x := Elem(head, nodes, at);
    assert UnturnedAt(m, m', x);
    assert JoinedAt(m, head, nodes, at - 1);
    var m'' := Turned(m', x);
    forall i | at - 1 < i <= |nodes| ensures TurnedAt(m, m'', Elem(head, nodes, i)) {
      assert i > at ==> TurnedAt(m, m', Elem(head, nodes, i)) && nodes[i - 1] != nodes[at - 1];
    }
    forall i | 1 <= i <= at - 1 ensures UnturnedAt(m, m'', Elem(head, nodes, i)) {
      assert UnturnedAt(m, m', Elem(head, nodes, i)) && nodes[i - 1] != nodes[at - 1];
    }
  }

  lemma TurnedAll<P>(m: Links<P>, m': Links<P>, head: P, nodes: seq<P>, at: int)
    requires Ring(m, head, nodes) && TurnedFrom(m, m', head, nodes, at) && 0 <= at <= |nodes|
    requires Elem(head, nodes, at) == head
    ensures Ring(m', head, Reversed(nodes))
  {
    forall i | 0 <= i <= |nodes| ensures TurnedAt(m, m', Elem(head, nodes, i)) {
      assert at == 0;
    }
    ReversedRing(m, m', head, nodes);
  }

  /** The nodes `remove_if` keeps. */
  ghost function Unmatched<P, K>(values: map<P, K>, pred: K -> bool, s: seq<P>): seq<P>
    requires Held(values, s)
  {
    if s == [] then []
    else
      var t, last := Unmatched(values, pred, s[..|s| - 1]), s[|s| - 1];
      if pred(values[last]) then t else t + [last]
  }

  /** None of them matches, and they are nodes of the list. */
  lemma {:induction false} UnmatchedAt<P, K>(values: map<P, K>, pred: K -> bool, s: seq<P>, x: P)
    requires Held(values, s)
    ensures x in Unmatched(values, pred, s) <==> x in s && !pred(values[x])
    decreases |s|
  {
    if s != [] {
      assert s == s[..|s| - 1] + [s[|s| - 1]];
      UnmatchedAt(values, pred, s[..|s| - 1], x);
    }
  }

  /** The nodes `unique` keeps: those that do not match the one kept before them. */
  ghost function Unrepeated<P, K>(values: map<P, K>, pred: (K, K) -> bool, s: seq<P>): (t: seq<P>)
    requires Held(values, s)
    ensures Held(values, t) && (s != [] ==> t != [])
  {
    if s == [] then []
    else
      var t, last := Unrepeated(values, pred, s[..|s| - 1]), s[|s| - 1];
      if t != [] && pred(values[t[|t| - 1]], values[last]) then t else t + [last]
  }

  /** No node kept matches the one before it. */
  lemma {:induction false} NoRepeats<P, K>(values: map<P, K>, pred: (K, K) -> bool, s: seq<P>, i: nat)
    requires Held(values, s) && i + 1 < |Unrepeated(values, pred, s)|
    ensures var t := Unrepeated(values, pred, s); !pred(values[t[i]], values[t[i + 1]])
    decreases |s|
  {
    if s != [] && i + 1 < |Unrepeated(values, pred, s[..|s| - 1])| {
      NoRepeats(values, pred, s[..|s| - 1], i);
    }
  }

  /** Every node has a kept node of the same value if matching is having the same value. */
  lemma {:induction false} EveryValueStays<P, K>(values: map<P, K>, pred: (K, K) -> bool, s: seq<P>, x: P)
    requires Held(values, s) && x in s && forall k, l :: pred(k, l) <==> k == l
    ensures exists y :: y in Unrepeated(values, pred, s) && values[y] == values[x]
    decreases |s|
  {
    var t, last := Unrepeated(values, pred, s[..|s| - 1]), s[|s| - 1];
    assert s == s[..|s| - 1] + [last];
    if x == last {
      if t != [] && pred(values[t[|t| - 1]], values[last]) {
        assert t[|t| - 1] in t;
      } else {
        assert last in t + [last];
      }
    } else {
      EveryValueStays(values, pred, s[..|s| - 1], x);
    }
  }

  // The loop of `remove_if`: the first j of the nodes have been looked at, and k of them kept.

  ghost predicate RemovedTo<P, K>(values: map<P, K>, now: map<P, K>, pred: K -> bool, all: seq<P>, nodes: seq<P>,
                                  j: int, k: int) {
    && Held(values, all)
    && 0 <= j <= |all|
    && k == |Unmatched(values, pred, all[..j])|
    && nodes == Unmatched(values, pred, all[..j]) + all[j..]
    && forall i :: j <= i < |all| ==> all[i] in now && now[all[i]] == values[all[i]]
  }

  lemma RemovedStart<P, K>(values: map<P, K>, pred: K -> bool, all: seq<P>)
    requires Held(values, all)
    ensures RemovedTo(values, values, pred, all, all, 0, 0)
  {
  }

  lemma RemovedNext<P, K>(values: map<P, K>, now: map<P, K>, pred: K -> bool, head: P, all: seq<P>, nodes: seq<P>,
                          j: int, k: int)
    requires RemovedTo(values, now, pred, all, nodes, j, k) && NoDup(head, nodes) && 0 <= k <= |nodes| &&
             Elem(head, nodes, k + 1) != head
    ensures k < |nodes| && j < |all| && nodes[k] in now
    ensures pred(now[nodes[k]]) ==>
      RemovedTo(values, now - {nodes[k]}, pred, all, nodes[..k] + nodes[k + 1..], j + 1, k)
    ensures !pred(now[nodes[k]]) ==> RemovedTo(values, now, pred, all, nodes, j + 1, k + 1)
  {
    assert nodes[k] == all[j] && all[..j + 1][..j] == all[..j];
    forall i | j < i < |all| ensures all[i] != all[j] {
      assert nodes[k + i - j] == all[i];
    }
  }

  lemma RemovedEnd<P, K>(values: map<P, K>, now: map<P, K>, pred: K -> bool, head: P, all: seq<P>, nodes: seq<P>,
                         j: int, k: int)
    requires RemovedTo(values, now, pred, all, nodes, j, k) && NoDup(head, nodes) && 0 <= k <= |nodes| &&
             Elem(head, nodes, k + 1) == head
    ensures nodes == Unmatched(values, pred, all)
  {
    assert k == |nodes|;
    assert all[..j] == all;
  }

  // The loop of `unique`: the first j of the nodes have been looked at, and k + 1 of them kept.

  ghost predicate UniqueTo<P, K>(values: map<P, K>, now: map<P, K>, pred: (K, K) -> bool, all: seq<P>, nodes: seq<P>,
                                 j: int, k: int) {
    && Held(values, all)
    && (all == [] ==> nodes == [])
    && (all != [] ==> 0 < j <= |all| && k + 1 == |Unrepeated(values, pred, all[..j])|
                      && nodes == Unrepeated(values, pred, all[..j]) + all[j..])
    && ValuesKept(values, now, nodes)
  }

  ghost predicate ValuesKept<P, K>(values: map<P, K>, now: map<P, K>, nodes: seq<P>) {
    forall x :: x in nodes ==> x in values && x in now && now[x] == values[x]
  }

  lemma UniqueStart<P, K>(values: map<P, K>, pred: (K, K) -> bool, all: seq<P>)
    requires Held(values, all)
    ensures UniqueTo(values, values, pred, all, all, 1, 0)
  {
    if all != [] {
      assert all[..1][..0] == [] && all == [all[0]] + all[1..];
    }
  }

  /** Removing one of distinct nodes removes it everywhere. */
  lemma OthersStay<P>(head: P, nodes: seq<P>, k: nat, x: P)
    requires NoDup(head, nodes) && k < |nodes| && x in nodes[..k] + nodes[k + 1..]
    ensures x in nodes && x != nodes[k]
  {
    var t := nodes[..k] + nodes[k + 1..];
    var i :| 0 <= i < |t| && t[i] == x;
    assert x == nodes[if i < k then i else i + 1];
  }

  /** Where the next node stands, and what `unique` keeps once it has been looked at. */
  lemma UniqueHere<P, K>(values: map<P, K>, now: map<P, K>, pred: (K, K) -> bool, head: P, all: seq<P>, nodes: seq<P>,
                         j: int, k: int)
    requires UniqueTo(values, now, pred, all, nodes, j, k) && 0 <= k && Elem(head, nodes, k + 2) != head
    ensures k + 1 < |nodes| && 0 < j < |all| && nodes[k] in now && nodes[k + 1] in now
    ensures nodes[k + 1] == all[j] && all[..j + 1][..j] == all[..j] && Held(values, all[..j + 1])
    ensures nodes[..k + 1] == Unrepeated(values, pred, all[..j]) && nodes[k + 2..] == all[j + 1..]
    ensures Unrepeated(values, pred, all[..j + 1]) ==
            if pred(now[nodes[k]], now[nodes[k + 1]]) then nodes[..k + 1] else nodes[..k + 1] + [nodes[k + 1]]
  {
    var u, rest := Unrepeated(values, pred, all[..j]), all[j..];
    NextOf(all, j);
    TakeDrop(u, rest, nodes);
    assert nodes[k] in nodes && nodes[k + 1] in nodes;
    assert u[|u| - 1] == nodes[k];
  }

  lemma NextOf<P>(s: seq<P>, j: nat)
    requires j < |s|
    ensures s[..j + 1][..j] == s[..j] && s[j..][0] == s[j] && s[j..][1..] == s[j + 1..]
  {
  }

  lemma TakeDrop<P>(u: seq<P>, rest: seq<P>, nodes: seq<P>)
    requires nodes == u + rest && rest != []
    ensures nodes[..|u|] == u && nodes[|u|] == rest[0] && nodes[|u| + 1..] == rest[1..]
    ensures forall i :: 0 <= i < |u| ==> u[i] == nodes[i]
  {
  }

  lemma UniqueNext<P, K>(values: map<P, K>, now: map<P, K>, pred: (K, K) -> bool, head: P, all: seq<P>, nodes: seq<P>,
                         j: int, k: int)
    requires UniqueTo(values, now, pred, all, nodes, j, k) && NoDup(head, nodes) && 0 <= k &&
             Elem(head, nodes, k + 2) != head
    ensures k + 1 < |nodes| && 0 < j < |all| && nodes[k] in now && nodes[k + 1] in now
    ensures pred(now[nodes[k]], now[nodes[k + 1]]) ==>
      UniqueTo(values, now - {nodes[k + 1]}, pred, all, nodes[..k + 1] + nodes[k + 2..], j + 1, k)
    ensures !pred(now[nodes[k]], now[nodes[k + 1]]) ==> UniqueTo(values, now, pred, all, nodes, j + 1, k + 1)
  {
    UniqueHere(values, now, pred, head, all, nodes, j, k);
    ValuesWithout(values, now, head, nodes, k + 1);
    SplitAround(nodes, k + 1);
    hide NoDup, Unrepeated, ValuesKept;
  }

  lemma ValuesWithout<P, K>(values: map<P, K>, now: map<P, K>, head: P, nodes: seq<P>, k: nat)
    requires ValuesKept(values, now, nodes) && NoDup(head, nodes) && k < |nodes|
    ensures ValuesKept(values, now - {nodes[k]}, nodes[..k] + nodes[k + 1..])
  {
    forall x | x in nodes[..k] + nodes[k + 1..] ensures x in nodes && x != nodes[k] {
      OthersStay(head, nodes, k, x);
    }
  }

  lemma SplitAround<P>(s: seq<P>, k: nat)
    requires k < |s|
    ensures s == (s[..k] + [s[k]]) + s[k + 1..]
  {
  }

  lemma UniqueEnd<P, K>(values: map<P, K>, now: map<P, K>, pred: (K, K) -> bool, head: P, all: seq<P>, nodes: seq<P>,
                        j: int, k: int)
    requires UniqueTo(values, now, pred, all, nodes, j, k) && NoDup(head, nodes) && 0 <= k &&
             Elem(head, nodes, k + 2) == head
    ensures nodes == Unrepeated(values, pred, all)
  {
    if all != [] {
      assert k + 1 == |nodes|;
      assert all[..j] == all;
    }
  }
}
