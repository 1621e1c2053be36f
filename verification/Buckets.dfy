/** Buckets of a hash table over one node sequence: each is a contiguous run of it. */
module Buckets {
  datatype Bucket<P> = Bucket(count: nat, first: P)

  /** Node i of the table lies in the run of its own bucket. */
  ghost predicate Covered<P>(nodes: seq<P>, home: map<P, int>, bs: seq<Bucket<P>>, start: seq<int>, i: int)
    requires 0 <= i < |nodes| && |bs| == |start|
  {
    && nodes[i] in home && 0 <= home[nodes[i]] < |bs|
    && var b := home[nodes[i]];
      start[b] <= i < start[b] + bs[b].count
  }

  /** Bucket b is the run of the first t nodes that starts at start[b], and holds only nodes that belong there. */
  ghost predicate IsRun<P>(nodes: seq<P>, t: int, home: map<P, int>, bs: seq<Bucket<P>>, start: seq<int>, b: int)
    requires 0 <= b < |bs| == |start|
  {
    bs[b].count > 0 ==>
      && 0 <= start[b] && start[b] + bs[b].count <= t <= |nodes| && bs[b].first == nodes[start[b]]
      && forall i :: start[b] <= i < start[b] + bs[b].count ==> nodes[i] in home && home[nodes[i]] == b
  }

  /** The first t nodes are grouped into the buckets. */
  ghost predicate Grouped<P>(nodes: seq<P>, t: int, home: map<P, int>, bs: seq<Bucket<P>>, start: seq<int>) {
    && 0 <= t <= |nodes| && |bs| == |start|
    && (forall b :: 0 <= b < |bs| ==> IsRun(nodes, t, home, bs, start, b))
    && (forall i :: 0 <= i < t ==> Covered(nodes, home, bs, start, i))
  }

  // Putting one more node at the front of its bucket's run

  /** Position of the new node of bucket b: in front of its run, or behind everything grouped so far. */
  ghost function FrontOf<P>(bs: seq<Bucket<P>>, start: seq<int>, b: int, t: int): int
    requires 0 <= b < |bs| == |start|
  {
    if bs[b].count == 0 then t else start[b]
  }

  ghost function StartsAfterInsert<P>(bs: seq<Bucket<P>>, start: seq<int>, b: int, t: int): seq<int>
    requires 0 <= b < |bs| == |start|
  {
    var k := FrontOf(bs, start, b, t);
    seq(|start|, c requires 0 <= c < |start| => if c == b then k else if start[c] >= k then start[c] + 1 else start[c])
  }

  function Pushed<P>(bs: seq<Bucket<P>>, b: int, x: P): seq<Bucket<P>>
    requires 0 <= b < |bs|
  {
    bs[b := Bucket(bs[b].count + 1, x)]
  }

  lemma RunsApart<P>(nodes: seq<P>, t: int, home: map<P, int>, bs: seq<Bucket<P>>, start: seq<int>, b: int, c: int)
    requires 0 <= b < |bs| == |start| && 0 <= c < |bs| && b != c && bs[b].count > 0 && bs[c].count > 0
    requires IsRun(nodes, t, home, bs, start, b) && IsRun(nodes, t, home, bs, start, c)
    ensures start[c] + bs[c].count <= start[b] || start[b] + bs[b].count <= start[c]
  {
    assert home[nodes[start[b]]] == b && home[nodes[start[c]]] == c;
  }

  lemma InsertRun<P>(nodes: seq<P>, t: int, home: map<P, int>, bs: seq<Bucket<P>>, start: seq<int>, x: P, b: int,
                     rest: seq<P>, c: int)
    requires 0 <= t <= |nodes| && 0 <= b < |bs| == |start| && 0 <= c < |bs| && x in home && home[x] == b
    requires IsRun(nodes, t, home, bs, start, c) && IsRun(nodes, t, home, bs, start, b)
    ensures var k := FrontOf(bs, start, b, t);
      0 <= k <= t && IsRun(nodes[..k] + [x] + nodes[k..t] + rest, t + 1, home, Pushed(bs, b, x),
        StartsAfterInsert(bs, start, b, t), c)
  {
    var k := FrontOf(bs, start, b, t);
    var nodes', bs', start' := nodes[..k] + [x] + nodes[k..t] + rest, Pushed(bs, b, x),
      StartsAfterInsert(bs, start, b, t);
    if b != c && bs[b].count > 0 && bs[c].count > 0 { RunsApart(nodes, t, home, bs, start, b, c); }
    forall i | start'[c] <= i < start'[c] + bs'[c].count && bs'[c].count > 0
      ensures 0 <= i < |nodes'| && nodes'[i] in home && home[nodes'[i]] == c
    {
      if i < k {
        assert nodes'[i] == nodes[i];
      } else if i > k {
        assert nodes'[i] == nodes[i - 1];
      }
    }
  }

  lemma InsertCovered<P>(nodes: seq<P>, t: int, home: map<P, int>, bs: seq<Bucket<P>>, start: seq<int>, x: P, b: int,
                         rest: seq<P>, i: int)
    requires 0 <= t <= |nodes| && 0 <= b < |bs| == |start| && x in home && home[x] == b && 0 <= i <= t
    requires IsRun(nodes, t, home, bs, start, b)
    requires var j := (if i < FrontOf(bs, start, b, t) then i else i - 1);
      i != FrontOf(bs, start, b, t) ==>
        && Covered(nodes, home, bs, start, j)
        && (home[nodes[j]] != b ==> IsRun(nodes, t, home, bs, start, home[nodes[j]]))
    ensures var k := FrontOf(bs, start, b, t);
      0 <= k <= t &&
        Covered(nodes[..k] + [x] + nodes[k..t] + rest, home, Pushed(bs, b, x), StartsAfterInsert(bs, start, b, t), i)
  {
    var k := FrontOf(bs, start, b, t);
    var j := if i < k then i else i - 1;
    if i != k && home[nodes[j]] != b && bs[b].count > 0 { RunsApart(nodes, t, home, bs, start, b, home[nodes[j]]); }
  }

  /** Putting x in front of its bucket's run groups one node more and leaves everything behind alone. */
  lemma InsertGrouped<P>(nodes: seq<P>, t: int, home: map<P, int>, bs: seq<Bucket<P>>, start: seq<int>, x: P, b: int,
                         rest: seq<P>)
    requires Grouped(nodes, t, home, bs, start) && 0 <= b < |bs| && x in home && home[x] == b
    ensures var k := FrontOf(bs, start, b, t);
      0 <= k <= t &&
        Grouped(nodes[..k] + [x] + nodes[k..t] + rest, t + 1, home, Pushed(bs, b, x),
                StartsAfterInsert(bs, start, b, t))
  {
    var k := FrontOf(bs, start, b, t);
    assert 0 <= k <= t by { assert IsRun(nodes, t, home, bs, start, b); }
    hide IsRun;
    var nodes', bs', start' := nodes[..k] + [x] + nodes[k..t] + rest, Pushed(bs, b, x),
      StartsAfterInsert(bs, start, b, t);
    var t' := t + 1;
    forall c | 0 <= c < |bs'| ensures IsRun(nodes', t', home, bs', start', c) {
      InsertRun(nodes, t, home, bs, start, x, b, rest, c);
    }
    forall i | 0 <= i < t + 1 ensures Covered(nodes', home, bs', start', i) {
      InsertCovered(nodes, t, home, bs, start, x, b, rest, i);
    }
  }

  // Removing a node

  ghost function StartsAfterRemove(start: seq<int>, k: int): seq<int> {
    seq(|start|, c requires 0 <= c < |start| => if start[c] > k then start[c] - 1 else start[c])
  }

  /** `erase` on the bucket: nil is the null pointer, next the node after the erased one. */
  function Popped<P(==)>(bs: seq<Bucket<P>>, b: int, x: P, next: P, nil: P): seq<Bucket<P>>
    requires 0 <= b < |bs| && bs[b].count > 0
  {
    bs[b := Bucket(bs[b].count - 1, if x != bs[b].first then bs[b].first else if bs[b].count == 1 then nil else next)]
  }

  lemma RemoveRun<P>(nodes: seq<P>, home: map<P, int>, bs: seq<Bucket<P>>, start: seq<int>, k: int, next: P, nil: P,
                     c: int)
    requires 0 <= k < |nodes| && |bs| == |start| && 0 <= c < |bs| && Covered(nodes, home, bs, start, k)
    requires forall i, j :: 0 <= i < j < |nodes| ==> nodes[i] != nodes[j]
    requires IsRun(nodes, |nodes|, home, bs, start, c) && IsRun(nodes, |nodes|, home, bs, start, home[nodes[k]])
    requires k + 1 < |nodes| ==> next == nodes[k + 1]
    ensures IsRun(nodes[..k] + nodes[k + 1..], |nodes| - 1, home, Popped(bs, home[nodes[k]], nodes[k], next, nil),
      StartsAfterRemove(start, k), c)
  {
    var b := home[nodes[k]];
    var nodes', bs', start' := nodes[..k] + nodes[k + 1..], Popped(bs, b, nodes[k], next, nil),
      StartsAfterRemove(start, k);
    if b != c && bs[c].count > 0 { RunsApart(nodes, |nodes|, home, bs, start, b, c); }
    forall i | start'[c] <= i < start'[c] + bs'[c].count && bs'[c].count > 0
      ensures 0 <= i < |nodes'| && nodes'[i] in home && home[nodes'[i]] == c
    {
      if i < k {
        assert nodes'[i] == nodes[i];
      } else {
        assert nodes'[i] == nodes[i + 1];
      }
    }
  }

  lemma RemoveCovered<P>(nodes: seq<P>, home: map<P, int>, bs: seq<Bucket<P>>, start: seq<int>, k: int, next: P, nil: P,
                         i: int)
    requires 0 <= k < |nodes| && |bs| == |start| && Covered(nodes, home, bs, start, k) && 0 <= i < |nodes| - 1
    requires IsRun(nodes, |nodes|, home, bs, start, home[nodes[k]])
    requires var j := (if i < k then i else i + 1);
      Covered(nodes, home, bs, start, j) &&
        (home[nodes[j]] != home[nodes[k]] ==> IsRun(nodes, |nodes|, home, bs, start, home[nodes[j]]))
    ensures Covered(nodes[..k] + nodes[k + 1..], home, Popped(bs, home[nodes[k]], nodes[k], next, nil),
      StartsAfterRemove(start, k), i)
  {
    var j := if i < k then i else i + 1;
    if home[nodes[j]] != home[nodes[k]] { RunsApart(nodes, |nodes|, home, bs, start, home[nodes[k]], home[nodes[j]]); }
  }

  lemma RemoveGrouped<P>(nodes: seq<P>, home: map<P, int>, bs: seq<Bucket<P>>, start: seq<int>, k: int, next: P, nil: P)
    requires Grouped(nodes, |nodes|, home, bs, start) && 0 <= k < |nodes|
    requires forall i, j :: 0 <= i < j < |nodes| ==> nodes[i] != nodes[j]
    requires k + 1 < |nodes| ==> next == nodes[k + 1]
    ensures nodes[k] in home && 0 <= home[nodes[k]] < |bs| && bs[home[nodes[k]]].count > 0
    ensures Grouped(nodes[..k] + nodes[k + 1..], |nodes| - 1, home, Popped(bs, home[nodes[k]], nodes[k], next, nil),
      StartsAfterRemove(start, k))
  {
    assert Covered(nodes, home, bs, start, k);
    hide IsRun;
    var b := home[nodes[k]];
    var nodes', bs', start' := nodes[..k] + nodes[k + 1..], Popped(bs, b, nodes[k], next, nil),
      StartsAfterRemove(start, k);
    var t' := |nodes| - 1;
    forall c | 0 <= c < |bs'| ensures IsRun(nodes', t', home, bs', start', c) {
      RemoveRun(nodes, home, bs, start, k, next, nil, c);
    }
    forall i | 0 <= i < |nodes| - 1 ensures Covered(nodes', home, bs', start', i) {
      RemoveCovered(nodes, home, bs, start, k, next, nil, i);
    }
  }

  // What grouping means

  ghost function Total<P>(bs: seq<Bucket<P>>): int {
    if bs == [] then 0 else bs[0].count + Total(bs[1..])
  }

  lemma GroupedElsewhere<P>(nodes: seq<P>, t: int, home: map<P, int>, home': map<P, int>, bs: seq<Bucket<P>>,
                            start: seq<int>)
    requires Grouped(nodes, t, home, bs, start)
    requires forall i :: 0 <= i < t && nodes[i] in home ==> nodes[i] in home' && home'[nodes[i]] == home[nodes[i]]
    ensures Grouped(nodes, t, home', bs, start)
  {
    forall b | 0 <= b < |bs| ensures IsRun(nodes, t, home', bs, start, b) {
      assert IsRun(nodes, t, home, bs, start, b);
    }
    forall i | 0 <= i < t ensures Covered(nodes, home', bs, start, i) {
      assert Covered(nodes, home, bs, start, i);
    }
  }

  lemma NothingGrouped<P>(nodes: seq<P>, home: map<P, int>, bs: seq<Bucket<P>>, start: seq<int>)
    requires |bs| == |start| && forall b :: 0 <= b < |bs| ==> bs[b].count == 0
    ensures Grouped(nodes, 0, home, bs, start)
  {
  }

  lemma {:induction false} TotalUpdate<P>(bs: seq<Bucket<P>>, b: int, n: nat, x: P)
    requires 0 <= b < |bs|
    ensures Total(bs[b := Bucket(n, x)]) == Total(bs) - bs[b].count + n
  {
    var bs' := bs[b := Bucket(n, x)];
    if b == 0 {
      assert bs'[1..] == bs[1..];
    } else {
      TotalUpdate(bs[1..], b - 1, n, x);
      assert bs'[1..] == bs[1..][b - 1 := Bucket(n, x)];
    }
  }

  lemma {:induction false} TotalEmpty<P>(bs: seq<Bucket<P>>)
    requires forall b :: 0 <= b < |bs| ==> bs[b].count == 0
    ensures Total(bs) == 0
  {
    if bs != [] { TotalEmpty(bs[1..]); }
  }
}
