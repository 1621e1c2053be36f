/** `_Hash_Table`: one list of all nodes, and for each bucket the length and the first node of its run. */
module HashTable {
  import opened ListMemory
  import Merging
  import opened List
  import opened Buckets
  import opened Sequences

  ghost predicate UniqueKeys<P, K>(values: map<P, K>, nodes: seq<P>) {
    && Held(values, nodes)
    && forall i, j :: 0 <= i < j < |nodes| ==> values[nodes[i]] != values[nodes[j]]
  }

  /** The finite map a table stands for: each key's node, which holds its value. */
  ghost function ContentsOf<P, K>(values: map<P, K>, nodes: seq<P>): (c: map<K, P>)
    requires UniqueKeys(values, nodes)
  {
    map i | 0 <= i < |nodes| :: values[nodes[i]] := nodes[i]
  }

  /** The bucket every key-bearing node belongs to among n buckets. */
  ghost function Homes<P, K>(hash: K -> nat, values: map<P, K>, n: nat): map<P, int>
    requires n > 0
  {
    map x | x in values :: hash(values[x]) % n
  }

  lemma StillUnique<P, K>(values: map<P, K>, s: seq<P>, t: seq<P>)
    requires UniqueKeys(values, s) && multiset(s) == multiset(t) && (forall i, j :: 0 <= i < j < |t| ==> t[i] != t[j])
    ensures UniqueKeys(values, t)
  {
    Merging.SameMembers(s, t);
    Merging.HeldMembers(values, s, t);
    forall i, j | 0 <= i < j < |t| ensures values[t[i]] != values[t[j]] {
      assert t[i] in s && t[j] in s;
      var a :| 0 <= a < |s| && s[a] == t[i];
      var b :| 0 <= b < |s| && s[b] == t[j];
      assert a != b;
    }
  }

  lemma ContentsWithin<P, K>(values: map<P, K>, s: seq<P>, t: seq<P>)
    requires UniqueKeys(values, s) && UniqueKeys(values, t) && forall x :: x in s ==> x in t
    ensures forall k :: k in ContentsOf(values, s) ==>
      k in ContentsOf(values, t) && ContentsOf(values, t)[k] == ContentsOf(values, s)[k]
  {
    var c, d := ContentsOf(values, s), ContentsOf(values, t);
    forall k | k in c ensures k in d && d[k] == c[k] {
      var i :| 0 <= i < |s| && values[s[i]] == k;
      assert s[i] in t;
      var j :| 0 <= j < |t| && t[j] == s[i];
    }
  }

  /** Reordering the nodes does not change what the table holds. */
  lemma SameContents<P, K>(values: map<P, K>, s: seq<P>, t: seq<P>)
    requires UniqueKeys(values, s) && multiset(s) == multiset(t) && (forall i, j :: 0 <= i < j < |t| ==> t[i] != t[j])
    ensures UniqueKeys(values, t) && ContentsOf(values, t) == ContentsOf(values, s)
  {
    StillUnique(values, s, t);
    Merging.SameMembers(s, t);
    ContentsWithin(values, s, t);
    ContentsWithin(values, t, s);
    hide UniqueKeys, ContentsOf;
  }

  lemma UniqueInserted<P, K>(values: map<P, K>, nodes: seq<P>, k: int, x: P)
    requires UniqueKeys(values, nodes) && 0 <= k <= |nodes| && x in values && values[x] !in ContentsOf(values, nodes)
    ensures UniqueKeys(values, nodes[..k] + [x] + nodes[k..])
  {
    assert forall i :: 0 <= i < |nodes| ==> values[nodes[i]] in ContentsOf(values, nodes);
    hide ContentsOf;
  }

  lemma ContentsInserted<P, K>(values: map<P, K>, nodes: seq<P>, k: int, x: P)
    requires UniqueKeys(values, nodes) && 0 <= k <= |nodes| && x in values && values[x] !in ContentsOf(values, nodes)
    ensures UniqueKeys(values, nodes[..k] + [x] + nodes[k..])
    ensures ContentsOf(values, nodes[..k] + [x] + nodes[k..]) == ContentsOf(values, nodes)[values[x] := x]
  {
    UniqueInserted(values, nodes, k, x);
    var t := nodes[..k] + [x] + nodes[k..];
    var c, d := ContentsOf(values, nodes)[values[x] := x], ContentsOf(values, t);
    forall key | key in c ensures key in d && d[key] == c[key] {
      InsertedHas(values, nodes, k, x, key);
    }
    forall key | key in d ensures key in c {
      InsertedOnly(values, nodes, k, x, key);
    }
    hide ContentsOf, UniqueKeys;
  }

  lemma InsertedHas<P, K>(values: map<P, K>, nodes: seq<P>, k: int, x: P, key: K)
    requires 0 <= k <= |nodes| && x in values && UniqueKeys(values, nodes) &&
             UniqueKeys(values, nodes[..k] + [x] + nodes[k..])
    requires key == values[x] || key in ContentsOf(values, nodes)
    ensures var c, d := ContentsOf(values, nodes)[values[x] := x], ContentsOf(values, nodes[..k] + [x] + nodes[k..]);
      key in d && d[key] == c[key]
  {
    var t := nodes[..k] + [x] + nodes[k..];
    if key == values[x] {
      ContentsAt(values, t, k);
    } else {
      var i :| 0 <= i < |nodes| && values[nodes[i]] == key;
      ContentsAt(values, nodes, i);
      ContentsAt(values, t, if i < k then i else i + 1);
    }
    hide ContentsOf, UniqueKeys;
  }

  lemma InsertedOnly<P, K>(values: map<P, K>, nodes: seq<P>, k: int, x: P, key: K)
    requires 0 <= k <= |nodes| && x in values && UniqueKeys(values, nodes) &&
             UniqueKeys(values, nodes[..k] + [x] + nodes[k..])
    requires key in ContentsOf(values, nodes[..k] + [x] + nodes[k..])
    ensures key == values[x] || key in ContentsOf(values, nodes)
  {
    var t := nodes[..k] + [x] + nodes[k..];
    var i :| 0 <= i < |t| && values[t[i]] == key;
    if i != k {
      ContentsAt(values, nodes, if i < k then i else i - 1);
    }
    hide ContentsOf, UniqueKeys;
  }

  lemma UniqueRemoved<P, K>(values: map<P, K>, nodes: seq<P>, k: int)
    requires UniqueKeys(values, nodes) && 0 <= k < |nodes| &&
             (forall i, j :: 0 <= i < j < |nodes| ==> nodes[i] != nodes[j])
    ensures UniqueKeys(values - {nodes[k]}, nodes[..k] + nodes[k + 1..])
  {
  }

  lemma ContentsRemoved<P, K>(values: map<P, K>, nodes: seq<P>, k: int)
    requires UniqueKeys(values, nodes) && 0 <= k < |nodes| &&
             (forall i, j :: 0 <= i < j < |nodes| ==> nodes[i] != nodes[j])
    ensures UniqueKeys(values - {nodes[k]}, nodes[..k] + nodes[k + 1..])
    ensures ContentsOf(values - {nodes[k]}, nodes[..k] + nodes[k + 1..]) ==
      ContentsOf(values, nodes) - {values[nodes[k]]}
  {
    UniqueRemoved(values, nodes, k);
    var t, values' := nodes[..k] + nodes[k + 1..], values - {nodes[k]};
    var c, d := ContentsOf(values, nodes) - {values[nodes[k]]}, ContentsOf(values', t);
    forall key | key in c ensures key in d && d[key] == c[key] {
      RemovedHas(values, nodes, k, key);
    }
    forall key | key in d ensures key in c {
      RemovedOnly(values, nodes, k, key);
    }
    hide ContentsOf, UniqueKeys;
  }

  lemma RemovedHas<P, K>(values: map<P, K>, nodes: seq<P>, k: int, key: K)
    requires 0 <= k < |nodes| && UniqueKeys(values, nodes) &&
             UniqueKeys(values - {nodes[k]}, nodes[..k] + nodes[k + 1..])
    requires key in ContentsOf(values, nodes) && key != values[nodes[k]]
    ensures var d := ContentsOf(values - {nodes[k]}, nodes[..k] + nodes[k + 1..]);
      key in d && d[key] == ContentsOf(values, nodes)[key]
  {
    var t := nodes[..k] + nodes[k + 1..];
    var i :| 0 <= i < |nodes| && values[nodes[i]] == key;
    var j := if i < k then i else i - 1;
    assert t[j] == nodes[i];
    ContentsAt(values, nodes, i);
    ContentsAt(values - {nodes[k]}, t, j);
    hide ContentsOf, UniqueKeys;
  }

  lemma RemovedOnly<P, K>(values: map<P, K>, nodes: seq<P>, k: int, key: K)
    requires 0 <= k < |nodes| && UniqueKeys(values, nodes) &&
             UniqueKeys(values - {nodes[k]}, nodes[..k] + nodes[k + 1..])
    requires key in ContentsOf(values - {nodes[k]}, nodes[..k] + nodes[k + 1..])
    ensures key in ContentsOf(values, nodes) && key != values[nodes[k]]
  {
    var t := nodes[..k] + nodes[k + 1..];
    var j :| 0 <= j < |t| && (values - {nodes[k]})[t[j]] == key;
    var i := if j < k then j else j + 1;
    assert t[j] == nodes[i];
    ContentsAt(values, nodes, i);
    hide ContentsOf;
  }

  /** Every node with this key lies in the run of the key's bucket. */
  lemma KeyInRun<P, K>(hash: K -> nat, values: map<P, K>, nodes: seq<P>, bs: seq<Bucket<P>>, start: seq<int>, key: K,
                       i: int)
    requires |bs| > 0 && Held(values, nodes) && Grouped(nodes, |nodes|, Homes(hash, values, |bs|), bs, start)
    requires 0 <= i < |nodes| && values[nodes[i]] == key
    ensures var b := hash(key) % |bs|;
      start[b] <= i < start[b] + bs[b].count
  {
    assert Covered(nodes, Homes(hash, values, |bs|), bs, start, i);
  }

  /** So a key that the run does not hold is nowhere. */
  lemma AbsentIfNotInRun<P, K>(hash: K -> nat, values: map<P, K>, nodes: seq<P>, bs: seq<Bucket<P>>, start: seq<int>,
                               key: K)
    requires |bs| > 0 && UniqueKeys(values, nodes) && |start| == |bs|
    requires Grouped(nodes, |nodes|, Homes(hash, values, |bs|), bs, start)
    requires var b := hash(key) % |bs|;
      forall i :: start[b] <= i < start[b] + bs[b].count && 0 <= i < |nodes| ==> values[nodes[i]] != key
    ensures key !in ContentsOf(values, nodes)
  {
    hide Grouped;
    forall i | 0 <= i < |nodes| ensures values[nodes[i]] != key {
      if values[nodes[i]] == key { KeyInRun(hash, values, nodes, bs, start, key, i); }
    }
    NotInContents(values, nodes, key);
  }

  lemma RunBounds<P>(nodes: seq<P>, home: map<P, int>, bs: seq<Bucket<P>>, start: seq<int>, b: int)
    requires Grouped(nodes, |nodes|, home, bs, start) && 0 <= b < |bs|
    ensures |start| == |bs|
    ensures bs[b].count > 0 ==>
      0 <= start[b] && start[b] + bs[b].count <= |nodes| && bs[b].first == nodes[start[b]]
  {
    assert IsRun(nodes, |nodes|, home, bs, start, b);
  }

  lemma HeldNodes<P, K>(m: Links<P>, head: P, values: map<P, K>, nodes: seq<P>)
    requires Ring(m, head, nodes) && UniqueKeys(values, nodes)
    ensures forall i :: 0 <= i < |nodes| ==> nodes[i] in values && nodes[i] != head
  {
  }

  lemma ContentsAt<P, K>(values: map<P, K>, nodes: seq<P>, i: int)
    requires UniqueKeys(values, nodes) && 0 <= i < |nodes|
    ensures values[nodes[i]] in ContentsOf(values, nodes) && ContentsOf(values, nodes)[values[nodes[i]]] == nodes[i]
  {
  }

  lemma NotInContents<P, K>(values: map<P, K>, nodes: seq<P>, key: K)
    requires UniqueKeys(values, nodes)
    ensures key !in ContentsOf(values, nodes) <==> forall i :: 0 <= i < |nodes| ==> values[nodes[i]] != key
  {
  }

  lemma RingEnd<P>(m: Links<P>, head: P, nodes: seq<P>, t: int)
    requires Ring(m, head, nodes) && 0 <= t <= |nodes|
    ensures Elem(head, nodes, t + 1) == head <==> t == |nodes|
    ensures forall i, j :: 0 <= i < j < |nodes| ==> nodes[i] != nodes[j]
  {
  }

  lemma RunStart<P>(head: P, nodes: seq<P>, t: int, home: map<P, int>, bs: seq<Bucket<P>>, start: seq<int>, b: int)
    requires Grouped(nodes, t, home, bs, start) && 0 <= b < |bs|
    ensures |start| == |bs| && 0 <= FrontOf(bs, start, b, t) <= t <= |nodes|
    ensures bs[b].count > 0 ==> FrontOf(bs, start, b, t) < t && bs[b].first == nodes[FrontOf(bs, start, b, t)]
  {
    assert IsRun(nodes, t, home, bs, start, b);
  }

  /** The node order after node t has moved to position k. */
  ghost function ToFront<P>(nodes: seq<P>, k: int, t: int): seq<P>
    requires 0 <= k <= t < |nodes|
  {
    nodes[..k] + [nodes[t]] + nodes[k..t] + nodes[t + 1..]
  }

  lemma UnlinkThenLink<P>(nodes: seq<P>, k: int, t: int)
    requires 0 <= k < t < |nodes|
    ensures var u := nodes[..t] + nodes[t + 1..];
      ToFront(nodes, k, t) == u[..k] + [nodes[t]] + u[k..] && u[k] == nodes[k]
  {
  }

  lemma CellsWithout<P>(head: P, nodes: seq<P>, t: int)
    requires 0 <= t < |nodes|
    ensures Cells(head, nodes[..t] + nodes[t + 1..]) + {nodes[t]} <= Cells(head, nodes)
  {
  }

  lemma OutsideMore<P, V>(m: map<P, V>, m1: map<P, V>, m2: map<P, V>, s: set<P>, x: P)
    requires SameOutside(m, m1, s) && SameOutside(m1, m2, s + {x})
    ensures SameOutside(m, m2, s + {x})
  {
  }

  lemma MovedToFront<P>(nodes: seq<P>, k: int, t: int, x: P)
    requires 0 <= k <= t < |nodes| && nodes[t] == x
    ensures var s := ToFront(nodes, k, t);
      && multiset(s) == multiset(nodes) && |s| == |nodes| && s[t + 1..] == nodes[t + 1..]
      && (k == t ==> s == nodes)
  {
    assert nodes == nodes[..k] + nodes[k..t] + [x] + nodes[t + 1..];
  }

  /** Node t joins the run of bucket b: where its front is, and what moving the node there makes of the groups. */
  lemma RehomeReady<P>(nodes: seq<P>, t: int, home: map<P, int>, bs: seq<Bucket<P>>, start: seq<int>, x: P, b: int)
    returns (k: int)
    requires Grouped(nodes, t, home, bs, start) && 0 <= t < |nodes| && nodes[t] == x && x in home && home[x] == b
    requires 0 <= b < |bs|
    ensures |start| == |bs| && 0 <= k <= t && (bs[b].count == 0 ==> k == t)
    ensures bs[b].count > 0 ==> k < t && bs[b].first == nodes[k]
    ensures |Pushed(bs, b, x)| == |StartsAfterInsert(bs, start, b, t)| == |bs| &&
      Total(Pushed(bs, b, x)) == Total(bs) + 1
    ensures var s := ToFront(nodes, k, t);
      && multiset(s) == multiset(nodes) && |s| == |nodes| && s[t + 1..] == nodes[t + 1..]
      && (k == t ==> s == nodes)
      && Grouped(s, t + 1, home, Pushed(bs, b, x), StartsAfterInsert(bs, start, b, t))
  {
    RunStart(x, nodes, t, home, bs, start, b);
    k := FrontOf(bs, start, b, t);
    assert bs[b].count == 0 ==> k == t;
    InsertGrouped(nodes, t, home, bs, start, x, b, nodes[t + 1..]);
    MovedToFront(nodes, k, t, x);
    TotalUpdate(bs, b, bs[b].count + 1, x);
    assert |StartsAfterInsert(bs, start, b, t)| == |bs|;
    hide Grouped, FrontOf, Total, StartsAfterInsert;
    assert ToFront(nodes, k, t) == nodes[..k] + [x] + nodes[k..t] + nodes[t + 1..];
  }

  /** The same for a node that is not in the list yet, and what its key adds to the map. */
  lemma MapReady<P, K>(hash: K -> nat, values: map<P, K>, nodes: seq<P>, bs: seq<Bucket<P>>, start: seq<int>, x: P)
    returns (k: int)
    requires |bs| > 0 && UniqueKeys(values, nodes) && x in values && values[x] !in ContentsOf(values, nodes)
    requires Grouped(nodes, |nodes|, Homes(hash, values, |bs|), bs, start)
    ensures var b := hash(values[x]) % |bs|;
      && |start| == |bs| && 0 <= k <= |nodes| && (bs[b].count == 0 ==> k == |nodes|)
      && (bs[b].count > 0 ==> k < |nodes| && bs[b].first == nodes[k])
      && |Pushed(bs, b, x)| == |StartsAfterInsert(bs, start, b, |nodes|)| == |bs|
      && Total(Pushed(bs, b, x)) == Total(bs) + 1
    ensures var b, s := hash(values[x]) % |bs|, nodes[..k] + [x] + nodes[k..];
      && UniqueKeys(values, s) && ContentsOf(values, s) == ContentsOf(values, nodes)[values[x] := x]
      && Grouped(s, |s|, Homes(hash, values, |bs|), Pushed(bs, b, x), StartsAfterInsert(bs, start, b, |nodes|))
  {
    var b, t, home := hash(values[x]) % |bs|, |nodes|, Homes(hash, values, |bs|);
    RunStart(x, nodes, t, home, bs, start, b);
    k := FrontOf(bs, start, b, t);
    assert bs[b].count == 0 ==> k == t;
    InsertGrouped(nodes, t, home, bs, start, x, b, []);
    ContentsInserted(values, nodes, k, x);
    TotalUpdate(bs, b, bs[b].count + 1, x);
    assert |StartsAfterInsert(bs, start, b, t)| == |bs|;
    hide Grouped, FrontOf, Total, StartsAfterInsert, ContentsOf, UniqueKeys, Homes;
    assert nodes[..k] + [x] + nodes[k..t] + [] == nodes[..k] + [x] + nodes[k..];
  }

  lemma SizeKept<P>(s: seq<P>, t: seq<P>)
    requires multiset(s) == multiset(t)
    ensures |s| == |t|
  {
    assert |multiset(s)| == |s| && |multiset(t)| == |t|;
  }

  lemma NewNode<P, K>(m: Links<P>, head: P, nodes: seq<P>, values: map<P, K>, x: P, key: K)
    requires Ring(m, head, nodes) && x !in m && x !in values && UniqueKeys(values, nodes) &&
             key !in ContentsOf(values, nodes)
    ensures x != head && x !in nodes
    ensures UniqueKeys(values[x := key], nodes) && ContentsOf(values[x := key], nodes) == ContentsOf(values, nodes)
    ensures Held(values[x := key], nodes)
  {
    RingStep(m, head, nodes, 0);
    forall i | 0 <= i < |nodes| ensures nodes[i] != x { RingStep(m, head, nodes, i + 1); }
    hide Ring;
  }

  lemma NewHomes<P, K>(hash: K -> nat, values: map<P, K>, x: P, key: K, n: nat, nodes: seq<P>, bs: seq<Bucket<P>>,
                       start: seq<int>)
    requires n > 0 && x !in values && Grouped(nodes, |nodes|, Homes(hash, values, n), bs, start)
    ensures Grouped(nodes, |nodes|, Homes(hash, values[x := key], n), bs, start)
  {
    hide Grouped;
    GroupedElsewhere(nodes, |nodes|, Homes(hash, values, n), Homes(hash, values[x := key], n), bs, start);
  }

  lemma HomesRemoved<P, K>(hash: K -> nat, values: map<P, K>, x: P, n: nat, nodes: seq<P>, k: int, bs: seq<Bucket<P>>,
                           start: seq<int>)
    requires n > 0 && 0 <= k < |nodes| && nodes[k] == x &&
             (forall i, j :: 0 <= i < j < |nodes| ==> nodes[i] != nodes[j])
    requires Grouped(nodes[..k] + nodes[k + 1..], |nodes| - 1, Homes(hash, values, n), bs, start)
    ensures Grouped(nodes[..k] + nodes[k + 1..], |nodes| - 1, Homes(hash, values - {x}, n), bs, start)
  {
    hide Grouped;
    var t := nodes[..k] + nodes[k + 1..];
    assert forall i :: 0 <= i < |t| ==> t[i] != x;
    GroupedElsewhere(t, |nodes| - 1, Homes(hash, values, n), Homes(hash, values - {x}, n), bs, start);
  }

  lemma Located<P, K>(values: map<P, K>, nodes: seq<P>, key: K) returns (k: int)
    requires UniqueKeys(values, nodes) && key in ContentsOf(values, nodes)
    ensures 0 <= k < |nodes| && nodes[k] == ContentsOf(values, nodes)[key] && values[nodes[k]] == key
  {
    k :| 0 <= k < |nodes| && values[nodes[k]] == key;
  }

  lemma NothingToRemove<P, K>(values: map<P, K>, nodes: seq<P>, key: K)
    requires UniqueKeys(values, nodes) && key !in ContentsOf(values, nodes)
    ensures ContentsOf(values, nodes) - {key} == ContentsOf(values, nodes)
  {
  }

  /** What erasing node k leaves: the map without its key, and every other node in its bucket's run. */
  lemma EraseReady<P, K>(hash: K -> nat, m: Links<P>, head: P, values: map<P, K>, nodes: seq<P>, bs: seq<Bucket<P>>,
                         start: seq<int>, k: int, nil: P)
    requires Ring(m, head, nodes) && 0 <= k < |nodes| && |bs| > 0 && UniqueKeys(values, nodes)
    requires Grouped(nodes, |nodes|, Homes(hash, values, |bs|), bs, start)
    ensures var it, left, key := nodes[k], nodes[..k] + nodes[k + 1..], values[nodes[k]];
      && it in m && bs[hash(key) % |bs|].count > 0 && |StartsAfterRemove(start, k)| == |start| == |bs|
      && |Popped(bs, hash(key) % |bs|, it, m[it].next, nil)| == |bs|
      && UniqueKeys(values - {it}, left)
      && ContentsOf(values - {it}, left) == ContentsOf(values, nodes) - {key}
      && Grouped(left, |left|, Homes(hash, values - {it}, |bs|), Popped(bs, hash(key) % |bs|, it, m[it].next, nil),
         StartsAfterRemove(start, k))
  {
    RingStep(m, head, nodes, k + 1);
    RingEnd(m, head, nodes, k);
    ContentsRemoved(values, nodes, k);
    var next, home := m[nodes[k]].next, Homes(hash, values, |bs|);
    RemoveGrouped(nodes, home, bs, start, k, next, nil);
    var bs' := Popped(bs, hash(values[nodes[k]]) % |bs|, nodes[k], next, nil);
    assert |StartsAfterRemove(start, k)| == |start| == |bs|;
    hide Ring, Grouped, ContentsOf, UniqueKeys, NoDup, Held, StartsAfterRemove;
    HomesRemoved(hash, values, nodes[k], |bs|, nodes, k, bs', StartsAfterRemove(start, k));
  }

  /** A table none of whose nodes an operation owned holds what it held, in the same buckets. */
  lemma OtherTableKept<P, K>(hash: K -> nat, v: map<P, K>, v': map<P, K>, head: P, owned: seq<P>, other: P,
                             nodes: seq<P>, bs: seq<Bucket<P>>, start: seq<int>)
    requires Apart(head, owned, other, nodes) && SameOutside(v, v', Cells(head, owned)) && |bs| > 0
    requires UniqueKeys(v, nodes) && Grouped(nodes, |nodes|, Homes(hash, v, |bs|), bs, start)
    ensures UniqueKeys(v', nodes) && ContentsOf(v', nodes) == ContentsOf(v, nodes)
    ensures Grouped(nodes, |nodes|, Homes(hash, v', |bs|), bs, start)
  {
    hide Grouped, ContentsOf, Homes;
    forall i | 0 <= i < |nodes| ensures nodes[i] in v && nodes[i] in v' && v'[nodes[i]] == v[nodes[i]] {
      assert nodes[i] !in Cells(head, owned);
    }
    SameValues(v, v', nodes);
    SameHomes(hash, v, v', |bs|, nodes);
    GroupedElsewhere(nodes, |nodes|, Homes(hash, v, |bs|), Homes(hash, v', |bs|), bs, start);
  }

  lemma SameValues<P, K>(v: map<P, K>, v': map<P, K>, nodes: seq<P>)
    requires UniqueKeys(v, nodes) && forall i :: 0 <= i < |nodes| ==> nodes[i] in v' && v'[nodes[i]] == v[nodes[i]]
    ensures UniqueKeys(v', nodes) && ContentsOf(v', nodes) == ContentsOf(v, nodes)
  {
  }

  lemma SameHomes<P, K>(hash: K -> nat, v: map<P, K>, v': map<P, K>, n: nat, nodes: seq<P>)
    requires n > 0
    requires forall i :: 0 <= i < |nodes| ==> nodes[i] in v && nodes[i] in v' && v'[nodes[i]] == v[nodes[i]]
    ensures var home, home' := Homes(hash, v, n), Homes(hash, v', n);
      forall i :: 0 <= i < |nodes| && nodes[i] in home ==> nodes[i] in home' && home'[nodes[i]] == home[nodes[i]]
  {
  }

  lemma EmptyTable<P, K>(m: Links<P>, head: P, values: map<P, K>)
    ensures UniqueKeys(values, []) && ContentsOf(values, []) == map[]
    ensures Cells(head, []) == {head} && SameOutside(m, m[head := Link(head, head)], {head})
  {
  }

  class HashTable<P(==), K(==, !new)> {
    const DEFAULT_BUCKETS := 8
    const elems: List<P, K>
    const hash: K -> nat
    var buckets: seq<Bucket<P>>
    ghost var start: seq<int>

    constructor (heap: NodeMemory<P, K>, head: P, hash: K -> nat, noBuckets: nat)
      requires head !in heap.links
      modifies heap`links
      ensures Valid() && Contents() == map[] && |buckets| >= 8 && |buckets| >= noBuckets
      ensures elems.heap == heap && elems.head == head && this.hash == hash && fresh(elems)
      ensures SameOutside(old(heap.links), heap.links, {head})
    {
      elems := new List<P, K>(heap, head);
      this.hash := hash;
      buckets := [];
      start := [];
      new;
      hide Ring, Grouped, ContentsOf, Homes, NoDup, Total, UniqueKeys, Held, Cells, SameOutside;
      ghost var m := heap.links;
      EmptyTable(old(heap.links), head, heap.values);
      Rehash(if noBuckets < DEFAULT_BUCKETS then DEFAULT_BUCKETS else noBuckets);
      OutsideTwice(old(heap.links), m, heap.links, {head}, {head});
    }

    ghost predicate Linked()
      reads this, elems, elems.heap
    {
      && elems.Valid() && |buckets| >= 1 && |start| == |buckets|
      && UniqueKeys(elems.heap.values, elems.nodes)
      && Grouped(elems.nodes, |elems.nodes|, Homes(hash, elems.heap.values, |buckets|), buckets, start)
      && Total(buckets) == elems.size
    }

    /** Grouped, and at most three quarters full. */
    ghost predicate Valid()
      reads this, elems, elems.heap
    {
      Linked() && 4 * elems.size <= 3 * |buckets|
    }

    ghost function Contents(): map<K, P>
      reads this, elems, elems.heap
      requires UniqueKeys(elems.heap.values, elems.nodes)
    {
      ContentsOf(elems.heap.values, elems.nodes)
    }

    method Find(key: K) returns (found: P)
      requires Linked()
      ensures key !in Contents() ==> found == elems.head
      ensures key in Contents() ==> found == Contents()[key]
      ensures found == elems.head <==> key !in Contents()
    {
      hide Grouped, ContentsOf, Homes, UniqueKeys, Held, Ring, NoDup, Total;
      ghost var nodes, links, values := elems.nodes, elems.heap.links, elems.heap.values;
      var b := hash(key) % |buckets|;
      RunBounds(nodes, Homes(hash, values, |buckets|), buckets, start, b);
      var remaining, current := buckets[b].count, buckets[b].first;
      ghost var at, end := start[b], start[b] + remaining;
      HeldNodes(links, elems.head, values, nodes);
      while remaining > 0 && elems.heap.values[current] != key
        invariant 0 <= remaining <= buckets[b].count && at == end - remaining
        invariant remaining > 0 ==> 0 <= at < end <= |nodes| && current == nodes[at]
        invariant forall i :: start[b] <= i < at && 0 <= i < |nodes| ==> values[nodes[i]] != key
      {
        RingStep(links, elems.head, nodes, at + 1);
        current := elems.heap.links[current].next;
        remaining := remaining - 1;
        at := at + 1;
      }
      if remaining == 0 {
        AbsentIfNotInRun(hash, values, nodes, buckets, start, key);
        return elems.head;
      }
      ContentsAt(values, nodes, at);
      return current;
    }

    method ForceRehash(noBuckets: nat)
      requires elems.Valid() && UniqueKeys(elems.heap.values, elems.nodes) && noBuckets >= 1
      modifies this`buckets, this`start, elems`nodes, elems`size, elems.heap`links
      ensures Linked() && |buckets| == noBuckets && multiset(elems.nodes) == multiset(old(elems.nodes))
      ensures Contents() == old(Contents())
      ensures SameOutside(old(elems.heap.links), elems.heap.links, Cells(elems.head, old(elems.nodes)))
    {
      hide Ring, ContentsOf, Grouped, NoDup, Cells, SameOutside;
      ghost var links, cells := elems.heap.links, Cells(elems.head, elems.nodes);
      NothingChanged(links, cells);
      ghost var home := Homes(hash, elems.heap.values, noBuckets);
      buckets := seq(noBuckets, _ => Bucket(0, elems.heap.nil));
      start := seq(noBuckets, _ => 0);
      NothingGrouped(elems.nodes, home, buckets, start);
      TotalEmpty(buckets);
      RingStep(elems.heap.links, elems.head, elems.nodes, 0);
      ghost var t := 0;
      var it := elems.heap.links[elems.head].next;
      RingEnd(elems.heap.links, elems.head, elems.nodes, t);
      while it != elems.head
        invariant 0 <= t <= |elems.nodes| && elems.Valid() && it == Elem(elems.head, elems.nodes, t + 1)
        invariant it == elems.head <==> t == |elems.nodes|
        invariant |buckets| == |start| == noBuckets && Grouped(elems.nodes, t, home, buckets, start) &&
                  Total(buckets) == t
        invariant multiset(elems.nodes) == multiset(old(elems.nodes)) && |elems.nodes| == |old(elems.nodes)|
        invariant elems.nodes[t..] == old(elems.nodes)[t..]
        invariant SameOutside(links, elems.heap.links, cells)
        decreases |elems.nodes| - t
      {
        ghost var m := elems.heap.links;
        SameCells(elems.head, old(elems.nodes), elems.nodes);
        RingStep(elems.heap.links, elems.head, elems.nodes, t + 1);
        var nextIter := elems.heap.links[it].next;
        Rehome(it, t, home);
        OutsideTwice(links, m, elems.heap.links, cells, cells);
        t := t + 1;
        it := nextIter;
        RingEnd(elems.heap.links, elems.head, elems.nodes, t);
      }
      RingEnd(elems.heap.links, elems.head, elems.nodes, 0);
      SameContents(elems.heap.values, old(elems.nodes), elems.nodes);
    }

    method RelinkBefore(before: P, x: P, ghost k: int, ghost t: int)
      requires elems.Valid() && 0 <= k < t < |elems.nodes| && before == elems.nodes[k] && x == elems.nodes[t]
      modifies elems`nodes, elems`size, elems.heap`links
      ensures elems.Valid() && elems.nodes == ToFront(old(elems.nodes), k, t)
      ensures SameOutside(old(elems.heap.links), elems.heap.links, Cells(elems.head, old(elems.nodes)))
    {
      hide Ring;
      ghost var cells := Cells(elems.head, elems.nodes);
      RingEnd(elems.heap.links, elems.head, elems.nodes, t);
      UnlinkThenLink(elems.nodes, k, t);
      CellsWithout(elems.head, elems.nodes, t);
      hide ToFront, Cells, SameOutside;
      elems.UnlinkNode(x, t);
      ghost var m, left := elems.heap.links, Cells(elems.head, elems.nodes) + {x};
      elems.LinkNodeBefore(before, x, k);
      OutsideTwice(old(elems.heap.links), m, elems.heap.links, cells, left);
    }

    /** The body of the rehash loop: node x joins the front of its bucket's run. */
    method Rehome(x: P, ghost t: int, ghost home: map<P, int>)
      requires elems.Valid() && 0 <= t < |elems.nodes| && x == elems.nodes[t] && |buckets| >= 1
      requires home == Homes(hash, elems.heap.values, |buckets|) && Grouped(elems.nodes, t, home, buckets, start)
      modifies this`buckets, this`start, elems`nodes, elems`size, elems.heap`links
      ensures elems.Valid() && |buckets| == old(|buckets|) == |start| && Total(buckets) == old(Total(buckets)) + 1
      ensures multiset(elems.nodes) == multiset(old(elems.nodes)) && |elems.nodes| == |old(elems.nodes)|
      ensures elems.nodes[t + 1..] == old(elems.nodes)[t + 1..]
      ensures Grouped(elems.nodes, t + 1, home, buckets, start)
      ensures SameOutside(old(elems.heap.links), elems.heap.links, Cells(elems.head, old(elems.nodes)))
    {
      hide Cells, SameOutside, Ring, Grouped, NoDup, Total, ContentsOf, StartsAfterInsert, FrontOf, ToFront, Pushed;
      NothingChanged(elems.heap.links, Cells(elems.head, elems.nodes));
      var index := hash(elems.heap.values[x]) % |buckets|;
      ghost var k := RehomeReady(elems.nodes, t, home, buckets, start, x, index);
      hide Homes;
      if buckets[index].count == 0 {
        // do nothing: no need to relink
      } else {
        RelinkBefore(buckets[index].first, x, k, t);
      }
      start := StartsAfterInsert(buckets, start, index, t);
      buckets := Pushed(buckets, index, x);
    }

    /** The least bucket count that keeps size nodes within three quarters. */
    function MinLoadFactorBuckets(size: nat): (n: nat)
      ensures 4 * size <= 3 * n && (n > 0 ==> 3 * (n - 1) < 4 * size)
    {
      (4 * size + 2) / 3
    }

    method Rehash(noBuckets: nat)
      requires Valid() || (elems.Valid() && elems.nodes == [] && buckets == [] && noBuckets >= 1)
      modifies this`buckets, this`start, elems`nodes, elems`size, elems.heap`links
      ensures Valid() && Contents() == ContentsOf(elems.heap.values, old(elems.nodes))
      ensures |buckets| >= noBuckets && |buckets| >= old(|buckets|)
      ensures SameOutside(old(elems.heap.links), elems.heap.links, Cells(elems.head, old(elems.nodes)))
    {
      NothingChanged(elems.heap.links, Cells(elems.head, elems.nodes));
      hide Cells, SameOutside;
      hide Grouped, ContentsOf, Ring, NoDup, Homes;
      var least := MinLoadFactorBuckets(elems.size);
      var newBucketCount := if least > noBuckets then least else noBuckets;
      ghost var n := |elems.nodes|;
      if newBucketCount > |buckets| {
        ForceRehash(newBucketCount);
        SizeKept(old(elems.nodes), elems.nodes);
      }
    }

    method RehashIfOverload()
      requires Valid()
      modifies this`buckets, this`start, elems`nodes, elems`size, elems.heap`links
      ensures Valid() && Contents() == old(Contents()) && multiset(elems.nodes) == multiset(old(elems.nodes))
      ensures elems.size == old(elems.size) && 4 * (elems.size + 1) <= 3 * |buckets|
      ensures SameOutside(old(elems.heap.links), elems.heap.links, Cells(elems.head, old(elems.nodes)))
    {
      NothingChanged(elems.heap.links, Cells(elems.head, elems.nodes));
      hide Cells, SameOutside;
      hide Grouped, ContentsOf, Ring, NoDup, Homes;
      if 4 * (elems.size + 1) > 3 * |buckets| {
        ForceRehash(2 * |buckets|);
        SizeKept(old(elems.nodes), elems.nodes);
      }
    }

    /** Links a node in front of its bucket's run, or last if the bucket is empty. */
    method LinkInBucket(index: nat, newNode: P, ghost k: int)
      requires elems.Valid() && index < |buckets| && 0 <= k <= |elems.nodes|
      requires newNode in elems.heap.values && newNode !in elems.nodes && newNode != elems.head
      requires buckets[index].count == 0 ==> k == |elems.nodes|
      requires buckets[index].count > 0 ==> k < |elems.nodes| && buckets[index].first == elems.nodes[k]
      modifies elems`nodes, elems`size, elems.heap`links
      ensures elems.Valid() && elems.nodes == old(elems.nodes)[..k] + [newNode] + old(elems.nodes)[k..]
      ensures SameOutside(old(elems.heap.links), elems.heap.links, Cells(elems.head, old(elems.nodes)) + {newNode})
    {
      hide Ring, Cells, SameOutside;
      if buckets[index].count == 0 {
        elems.LinkNodeBefore(elems.head, newNode, k);
      } else {
        elems.LinkNodeBefore(buckets[index].first, newNode, k);
      }
    }

    method MapAndLinkNode(index: nat, newNode: P)
      requires Linked() && index < |buckets|
      requires newNode in elems.heap.values && newNode !in elems.nodes && newNode != elems.head
      requires index == hash(elems.heap.values[newNode]) % |buckets| && elems.heap.values[newNode] !in Contents()
      modifies this`buckets, this`start, elems`nodes, elems`size, elems.heap`links
      ensures Linked() && |buckets| == old(|buckets|) && elems.size == old(elems.size) + 1
      ensures Contents() == old(Contents())[elems.heap.values[newNode] := newNode]
      ensures SameOutside(old(elems.heap.links), elems.heap.links, Cells(elems.head, old(elems.nodes)) + {newNode})
    {
      hide Cells, SameOutside, Ring, Grouped, NoDup, Total, ContentsOf, StartsAfterInsert, Pushed, Homes, UniqueKeys,
        Held;
      ghost var nodes, values := elems.nodes, elems.heap.values;
      ghost var k := MapReady(hash, values, nodes, buckets, start, newNode);
      LinkInBucket(index, newNode, k);
      start := StartsAfterInsert(buckets, start, index, |nodes|);
      buckets := Pushed(buckets, index, newNode);
    }

    /** Adds a node for key unless there is one; newNode is the address the allocator returned. */
    method Emplace(newNode: P, key: K) returns (it: P)
      requires Valid() && newNode !in elems.heap.links && newNode !in elems.heap.values
      modifies this`buckets, this`start, elems`nodes, elems`size, elems.heap`links, elems.heap`values
      ensures Valid()
      ensures key in old(Contents()) ==>
        && it == old(Contents())[key] && Contents() == old(Contents())
        && elems.nodes == old(elems.nodes) && buckets == old(buckets)
        && elems.heap.links == old(elems.heap.links) && elems.heap.values == old(elems.heap.values)
      ensures key !in old(Contents()) ==>
        && it == newNode && Contents() == old(Contents())[key := newNode]
        && elems.heap.values == old(elems.heap.values)[newNode := key]
        && SameOutside(old(elems.heap.links), elems.heap.links, Cells(elems.head, old(elems.nodes)) + {newNode})
    {
      hide Cells, SameOutside;
      it := Find(key);
      if it == elems.head {
        ghost var values := elems.heap.values;
        NewNode(elems.heap.links, elems.head, elems.nodes, values, newNode, key);
        NewHomes(hash, values, newNode, key, |buckets|, elems.nodes, buckets, start);
        hide Ring, Grouped, ContentsOf, Homes, UniqueKeys;
        elems.heap.values := elems.heap.values[newNode := key];
        RehashIfOverload();
        ghost var m := elems.heap.links;
        Merging.SameMembers(old(elems.nodes), elems.nodes);
        SameCells(elems.head, old(elems.nodes), elems.nodes);
        MapAndLinkNode(hash(key) % |buckets|, newNode);
        OutsideMore(old(elems.heap.links), m, elems.heap.links, Cells(elems.head, old(elems.nodes)), newNode);
        it := newNode;
      }
    }

    /** What `erase` does to the bucket of the node it removes. */
    method PopBucket(index: nat, it: P)
      requires index < |buckets| && buckets[index].count > 0 && it in elems.heap.links
      modifies this`buckets
      ensures buckets == Popped(old(buckets), index, it, elems.heap.links[it].next, elems.heap.nil)
      ensures Total(buckets) == Total(old(buckets)) - 1
    {
      ghost var bs := Popped(buckets, index, it, elems.heap.links[it].next, elems.heap.nil);
      TotalUpdate(buckets, index, buckets[index].count - 1, bs[index].first);
      hide Total;
      if it == buckets[index].first {
        if buckets[index].count == 1 {
          buckets := buckets[index := buckets[index].(first := elems.heap.nil)];
        } else {
          buckets := buckets[index := buckets[index].(first := elems.heap.links[it].next)];
        }
      }
      buckets := buckets[index := buckets[index].(count := buckets[index].count - 1)];
    }

    /** Removes and frees key's node and returns the position before it, or the head when there is no such key. */
    method Erase(key: K) returns (previous: P)
      requires Valid()
      modifies this`buckets, this`start, elems`nodes, elems`size, elems.heap`links, elems.heap`values
      ensures Valid() && Contents() == old(Contents()) - {key}
      ensures Trimmed(old(elems.heap.links), old(elems.heap.values), elems.heap.links, elems.heap.values, elems.head,
                      old(elems.nodes), elems.nodes)
      ensures key !in old(Contents()) ==>
        && previous == elems.head && elems.nodes == old(elems.nodes) && buckets == old(buckets)
        && elems.heap.links == old(elems.heap.links) && elems.heap.values == old(elems.heap.values)
      ensures key in old(Contents()) ==> exists k ::
        0 <= k < |old(elems.nodes)| && old(elems.nodes)[k] == old(Contents())[key] &&
          previous == Elem(elems.head, old(elems.nodes), k)
    {
      NothingTrimmed(elems.heap.links, elems.heap.values, elems.head, elems.nodes);
      hide Trimmed, Ring, Grouped, ContentsOf, Homes, UniqueKeys, NoDup;
      var it := Find(key);
      previous := it;
      if it != elems.head {
        ghost var k := Located(elems.heap.values, elems.nodes, key);
        previous := EraseNode(it, key, k);
      } else {
        NothingToRemove(elems.heap.values, elems.nodes, key);
      }
    }

    /** Takes the node out of its bucket and out of the list. */
    method EraseNode(it: P, key: K, ghost k: int) returns (previous: P)
      requires Valid() && 0 <= k < |elems.nodes| && elems.nodes[k] == it && elems.heap.values[it] == key
      modifies this`buckets, this`start, elems`nodes, elems`size, elems.heap`links, elems.heap`values
      ensures Valid() && Contents() == old(Contents()) - {key} && previous == Elem(elems.head, old(elems.nodes), k)
      ensures Trimmed(old(elems.heap.links), old(elems.heap.values), elems.heap.links, elems.heap.values, elems.head,
                      old(elems.nodes), elems.nodes)
    {
      hide Trimmed, Ring, Grouped, ContentsOf, Homes, UniqueKeys, NoDup, StartsAfterRemove, Popped, Held;
      ghost var nodes, links, values := elems.nodes, elems.heap.links, elems.heap.values;
      EraseReady(hash, links, elems.head, values, nodes, buckets, start, k, elems.heap.nil);
      var index := hash(key) % |buckets|;
      PopBucket(index, it);
      start := StartsAfterRemove(start, k);
      previous := elems.Erase(it, k);
    }

    /** Every node is freed and every bucket emptied; the number of buckets stays. */
    method Clear()
      requires Valid()
      modifies this`buckets, this`start, elems`nodes, elems`size, elems.heap`links, elems.heap`values
      ensures Valid() && Contents() == map[] && |buckets| == |old(buckets)|
      ensures Trimmed(old(elems.heap.links), old(elems.heap.values), elems.heap.links, elems.heap.values, elems.head,
                      old(elems.nodes), elems.nodes)
    {
      hide Ring, Trimmed;
      elems.Clear();
      EmptyBuckets();
      NothingGrouped(elems.nodes, Homes(hash, elems.heap.values, |buckets|), buckets, start);
      TotalEmpty(buckets);
    }

    method EmptyBuckets()
      modifies this`buckets, this`start
      ensures |buckets| == |start| == |old(buckets)|
      ensures forall b :: 0 <= b < |buckets| ==> buckets[b] == Bucket(0, elems.heap.nil) && start[b] == 0
    {
      var i := 0;
      while i < |buckets|
        invariant 0 <= i <= |buckets| == |old(buckets)|
        invariant forall b :: 0 <= b < i ==> buckets[b] == Bucket(0, elems.heap.nil)
      {
        buckets := buckets[i := Bucket(0, elems.heap.nil)];
        i := i + 1;
      }
      start := seq(|buckets|, _ => 0);
    }
  }
}
