/** What the labelled invariants of the search tree mean for a reader who only follows links. */
module TreeLaws {
  import opened TreeMemory
  import opened RedBlack
  import opened FixUp
  import opened SearchTree

  /** The in-order walk of the subtree at n by its child links alone, to a depth of fuel. */
  ghost function Walk<P>(m: Memory<P>, head: P, n: P, fuel: nat): seq<P> {
    if fuel == 0 || n == head || n !in m then []
    else Walk(m, head, m[n].left, fuel - 1) + [n] + Walk(m, head, m[n].right, fuel - 1)
  }

  lemma {:induction false} SubtreeWalk<P>(m: Memory<P>, head: P, order: seq<P>, lab: map<P, Label>, n: P, fuel: nat)
    requires IsTree(m, head, order, lab) && n in lab && fuel >= lab[n].hi - lab[n].lo
    ensures 0 <= lab[n].lo <= lab[n].hi <= |order| && Walk(m, head, n, fuel) == order[lab[n].lo..lab[n].hi]
    decreases fuel
  {
    hide IsTree;
    LeftStep(m, head, order, lab, n);
    RightStep(m, head, order, lab, n);
    TreeLinks(m, head, order, lab, n);
    var lo, pos, hi := lab[n].lo, lab[n].pos, lab[n].hi;
    if m[n].left != head {
      SubtreeWalk(m, head, order, lab, m[n].left, fuel - 1);
    }
    if m[n].right != head {
      SubtreeWalk(m, head, order, lab, m[n].right, fuel - 1);
    }
    assert Walk(m, head, m[n].left, fuel - 1) == order[lo..pos];
    assert Walk(m, head, m[n].right, fuel - 1) == order[pos + 1..hi];
    assert order[lo..hi] == order[lo..pos] + [order[pos]] + order[pos + 1..hi];
  }

  /** Following child links from the root meets the nodes in exactly the tree's order. */
  lemma WalkIsOrder<P>(m: Memory<P>, head: P, order: seq<P>, lab: map<P, Label>)
    requires IsTree(m, head, order, lab)
    ensures head in m && Walk(m, head, m[head].par, |order|) == order
  {
    hide IsTree;
    RootSpan(m, head, order, lab);
    if m[head].par != head {
      SubtreeWalk(m, head, order, lab, m[head].par, |order|);
    }
  }

  /** How many black nodes a path of child links leaves, the last node it reaches excluded. */
  ghost function Blacks<P>(m: Memory<P>, n: P, path: seq<Side>): int {
    if path == [] || n !in m then 0 else Weight(m[n].col) + Blacks(m, Kid(m, n, path[0]), path[1..])
  }

  /** No proper prefix of the path already ends at head: it is a path down to a missing child. */
  ghost predicate ToNil<P>(m: Memory<P>, head: P, n: P, path: seq<Side>) {
    n in m && if path == [] then n == head else n != head && ToNil(m, head, Kid(m, n, path[0]), path[1..])
  }

  lemma {:induction false} PathHeight<P>(m: Memory<P>, head: P, order: seq<P>, lab: map<P, Label>, bh: map<P, int>,
                                         n: P, path: seq<Side>)
    requires IsTree(m, head, order, lab) && Colored(m, head, lab, bh, Nowhere, Nowhere, Nowhere)
    requires (n in lab || n == head) && ToNil(m, head, n, path)
    ensures n in bh && Blacks(m, n, path) == bh[n]
    decreases |path|
  {
    hide IsTree, Colored, BlackOk, RedOk, HeadBlack;
    HeightOk(m, head, order, lab, bh, n);
    if path == [] {
      HeadHeight(m, head, lab, bh);
    } else {
      Pick(m, head, order, lab, bh, Nowhere, Nowhere, Nowhere, n);
      HeightFact(m, bh, n);
      PathHeight(m, head, order, lab, bh, Kid(m, n, path[0]), path[1..]);
    }
  }

  lemma HeadHeight<P>(m: Memory<P>, head: P, lab: map<P, Label>, bh: map<P, int>)
    requires Colored(m, head, lab, bh, Nowhere, Nowhere, Nowhere)
    ensures head in bh && bh[head] == 0
  {
    hide ColorOk;
  }

  /** Every two paths from the root down to a missing child leave equally many black nodes. */
  lemma EqualBlackHeights<P>(m: Memory<P>, head: P, order: seq<P>, lab: map<P, Label>, bh: map<P, int>, p: seq<Side>,
                             q: seq<Side>)
    requires RedBlackTree(m, head, order, lab, bh)
    requires head in m && ToNil(m, head, m[head].par, p) && ToNil(m, head, m[head].par, q)
    ensures Blacks(m, m[head].par, p) == Blacks(m, m[head].par, q)
  {
    hide IsTree, Colored;
    RootSpan(m, head, order, lab);
    PathHeight(m, head, order, lab, bh, m[head].par, p);
    PathHeight(m, head, order, lab, bh, m[head].par, q);
  }

  /** The root is black and a red node's children are black. */
  lemma NoRedRed<P>(m: Memory<P>, head: P, order: seq<P>, lab: map<P, Label>, bh: map<P, int>, n: P, k: Side)
    requires RedBlackTree(m, head, order, lab, bh) && n in order
    ensures head in m && m[head].par in m && m[m[head].par].col == Black
    ensures n in m && Kid(m, n, k) in m && (m[n].col == Red ==> m[Kid(m, n, k)].col == Black)
  {
    hide NodeOk, RootOk;
    Pick(m, head, order, lab, bh, Nowhere, Nowhere, Nowhere, n);
    hide Linked, BlackOk;
  }
}
