/** `_Search_Tree`: a red-black tree with parent links and one head node standing for every missing child. */
module SearchTree {
  import opened TreeMemory
  import opened RedBlack
  import opened FixUp
  import opened Transplant
  import opened Ordering
  import opened Sequences

  // One step along a link, in terms of in-order positions

  lemma TreeLinks<P>(m: Memory<P>, head: P, order: seq<P>, lab: map<P, Label>, n: P)
    requires IsTree(m, head, order, lab) && n in lab
    ensures n in m && n != head && head in m && m[n].left in m && m[n].right in m && m[n].par in m
    ensures m[n].left == head || m[n].left in lab
    ensures m[n].right == head || m[n].right in lab
    ensures m[n].par == head || m[n].par in lab
  {
    hide NodeOk, OrderOk, RootOk;
    PickLinks(m, head, order, lab, n);
  }

  lemma LeftStep<P>(m: Memory<P>, head: P, order: seq<P>, lab: map<P, Label>, n: P)
    requires IsTree(m, head, order, lab) && n in lab
    ensures n in m && 0 <= lab[n].lo <= lab[n].pos < lab[n].hi <= |order| && order[lab[n].pos] == n
    ensures m[n].left == head ==> lab[n].pos == lab[n].lo
    ensures m[n].left != head ==>
      && m[n].left in lab && m[n].left in m
      && lab[m[n].left].lo == lab[n].lo && lab[m[n].left].hi == lab[n].pos && m[m[n].left].par == n
  {
    hide NodeOk, OrderOk, RootOk;
    LeftFact(m, head, order, lab, n);
  }

  lemma LeftFact<P>(m: Memory<P>, head: P, order: seq<P>, lab: map<P, Label>, n: P)
    requires NodeOk(m, head, order, lab, n)
    ensures n in m && n in lab && 0 <= lab[n].lo <= lab[n].pos < lab[n].hi <= |order| && order[lab[n].pos] == n
    ensures m[n].left == head ==> lab[n].pos == lab[n].lo
    ensures m[n].left != head ==>
      && m[n].left in lab && m[n].left in m
      && lab[m[n].left].lo == lab[n].lo && lab[m[n].left].hi == lab[n].pos && m[m[n].left].par == n
  {
  }

  lemma RightStep<P>(m: Memory<P>, head: P, order: seq<P>, lab: map<P, Label>, n: P)
    requires IsTree(m, head, order, lab) && n in lab
    ensures n in m && 0 <= lab[n].lo <= lab[n].pos < lab[n].hi <= |order| && order[lab[n].pos] == n
    ensures m[n].right == head ==> lab[n].hi == lab[n].pos + 1
    ensures m[n].right != head ==>
      && m[n].right in lab && m[n].right in m
      && lab[m[n].right].lo == lab[n].pos + 1 && lab[m[n].right].hi == lab[n].hi && m[m[n].right].par == n
  {
    hide NodeOk, OrderOk, RootOk;
    RightFact(m, head, order, lab, n);
  }

  lemma RightFact<P>(m: Memory<P>, head: P, order: seq<P>, lab: map<P, Label>, n: P)
    requires NodeOk(m, head, order, lab, n)
    ensures n in m && n in lab && 0 <= lab[n].lo <= lab[n].pos < lab[n].hi <= |order| && order[lab[n].pos] == n
    ensures m[n].right == head ==> lab[n].hi == lab[n].pos + 1
    ensures m[n].right != head ==>
      && m[n].right in lab && m[n].right in m
      && lab[m[n].right].lo == lab[n].pos + 1 && lab[m[n].right].hi == lab[n].hi && m[m[n].right].par == n
  {
  }

  lemma RootSpan<P>(m: Memory<P>, head: P, order: seq<P>, lab: map<P, Label>)
    requires IsTree(m, head, order, lab)
    ensures head in m && head !in lab && (m[head].par == head <==> |order| == 0)
    ensures m[head].par != head ==>
      && m[head].par in lab && m[head].par in m && lab[m[head].par].lo == 0 && lab[m[head].par].hi == |order|
  {
    hide NodeOk, OrderOk;
    if m[head].par != head { SpanFact(m, head, order, lab, m[head].par); }
  }

  lemma HeadIsBlack<P>(m: Memory<P>, head: P, order: seq<P>, lab: map<P, Label>, bh: map<P, int>, t: P)
    requires InsertInv(m, head, order, lab, bh, t) || RedBlackTree(m, head, order, lab, bh)
    ensures head in m && m[head].col == Black
  {
    hide NodeOk, ColorOk, OrderOk, RootOk;
  }

  /** The in-order sequence determines the nodes of the tree and their positions. */
  lemma SameOrder<P>(m: Memory<P>, lab: map<P, Label>, m': Memory<P>, lab': map<P, Label>, head: P, order: seq<P>)
    requires IsTree(m, head, order, lab) && IsTree(m', head, order, lab')
    ensures lab.Keys == lab'.Keys && m.Keys == m'.Keys
    ensures forall n :: n in lab ==> lab[n].pos == lab'[n].pos
  {
    hide NodeOk, RootOk;
    forall n | n in lab ensures n in lab' && lab[n].pos == lab'[n].pos { SpanFact(m, head, order, lab, n); }
    forall n | n in lab' ensures n in lab { SpanFact(m', head, order, lab', n); }
  }

  lemma EraseLinks<P>(m: Memory<P>, head: P, order: seq<P>, lab: map<P, Label>, bh: map<P, int>, fix: P, v: P)
    requires EraseInv(m, head, order, lab, bh, fix, v)
    ensures fix in lab && 0 < lab[fix].hi - lab[fix].lo <= |order| && fix in m && m[fix].par in m
    ensures fix != m[head].par ==> m[m[fix].par].left == fix || m[m[fix].par].right == fix
  {
    hide NodeOk, ColorOk, OrderOk, RootOk, Linked;
    Pick(m, head, order, lab, bh, At(fix), At(v), At(fix), fix);
    SpanFact(m, head, order, lab, fix);
  }

  /** Exchanging neighbours does not change what is left when one of them is removed. */
  lemma RemovedNeighbour<P>(order: seq<P>, i: int, j: int)
    requires 0 <= i < |order| && 0 <= j < |order| && (j == i + 1 || j == i - 1)
    ensures Removed(SwapOrder(order, i, j), j) == Removed(order, i)
  {
  }

  lemma DetachReady<P>(m: Memory<P>, head: P, order: seq<P>, lab: map<P, Label>, bh: map<P, int>, v: P)
    requires Erasable(m, head, order, lab, bh, v)
    ensures head in m && v in m && v in lab && v != head && m[v].par in m && m[v].par != v
    ensures m[v].par == head <==> m[head].par == v
    ensures DetachLabels(lab, v).Keys == lab.Keys - {v}
  {
    hide NodeOk, ColorOk, OrderOk, RootOk;
    Pick(m, head, order, lab, bh, Nowhere, At(v), Nowhere, v);
    ParentIsOther(m, head, order, lab, v);
  }

  /** Where a climb stops: at the root, or at a parent on the other side. */
  lemma ClimbEnd<P>(m: Memory<P>, head: P, order: seq<P>, lab: map<P, Label>, n: P)
    requires IsTree(m, head, order, lab) && n in lab
    ensures n in m && n != head
    ensures m[n].par == head ==> lab[n].lo == 0 && lab[n].hi == |order|
    ensures m[n].par != head ==>
      && m[n].par in lab && m[n].par in m
      && 0 <= lab[m[n].par].pos < |order| && order[lab[m[n].par].pos] == m[n].par
      && (n != m[m[n].par].right ==> lab[n].hi == lab[m[n].par].pos)
      && (n != m[m[n].par].left ==> lab[n].lo == lab[m[n].par].pos + 1)
  {
    hide NodeOk, OrderOk;
    TreeLinks(m, head, order, lab, n);
    PickLinks(m, head, order, lab, n);
    hide RootOk;
    ClimbRoot(m, head, order, lab, n);
    if m[n].par != head {
      LeftStep(m, head, order, lab, m[n].par);
      RightStep(m, head, order, lab, m[n].par);
      ParentSide(m, head, order, lab, n);
    }
  }

  lemma ParentSide<P>(m: Memory<P>, head: P, order: seq<P>, lab: map<P, Label>, n: P)
    requires NodeOk(m, head, order, lab, n) && m[n].par != head
    ensures m[n].par in m && (m[m[n].par].left == n || m[m[n].par].right == n)
  {
  }

  lemma ClimbRoot<P>(m: Memory<P>, head: P, order: seq<P>, lab: map<P, Label>, n: P)
    requires NodeOk(m, head, order, lab, n) && RootOk(m, head, order, lab)
    ensures n in m && n in lab && (m[n].par == head ==> lab[n].lo == 0 && lab[n].hi == |order|)
  {
  }

  /** The head links to the first and the last node, or to itself in an empty tree. */
  ghost predicate EndsOk<P>(m: Memory<P>, head: P, order: seq<P>) {
    && head in m
    && m[head].left == (if |order| == 0 then head else order[0])
    && m[head].right == (if |order| == 0 then head else order[|order| - 1])
  }

  lemma NewAddress<P>(m: Memory<P>, head: P, order: seq<P>, lab: map<P, Label>, bh: map<P, int>, x: P)
    requires RedBlackTree(m, head, order, lab, bh) && x !in m
    ensures x !in lab && forall i :: 0 <= i < |order| ==> order[i] != x
  {
    hide NodeOk, RootOk, Colored;
  }

  lemma LabelsAreCells<P>(m: Memory<P>, head: P, order: seq<P>, lab: map<P, Label>)
    requires IsTree(m, head, order, lab)
    ensures m.Keys == lab.Keys + {head}
  {
  }

  lemma KeysInserted<P, K>(values: map<P, K>, order: seq<P>, k: int, x: P, key: K)
    requires Held(values, order) && 0 <= k <= |order| && forall i :: 0 <= i < |order| ==> order[i] != x
    ensures Held(values[x := key], Inserted(order, k, x))
    ensures KeysOf(values[x := key], Inserted(order, k, x)) == Inserted(KeysOf(values, order), k, key)
  {
  }

  lemma KeysRemoved<P, K>(m: Memory<P>, head: P, order: seq<P>, lab: map<P, Label>, values: map<P, K>, k: int)
    requires IsTree(m, head, order, lab) && Held(values, order) && 0 <= k < |order|
    ensures Held(values - {order[k]}, Removed(order, k)) && order[k] != head
    ensures KeysOf(values - {order[k]}, Removed(order, k)) == Removed(KeysOf(values, order), k)
  {
    hide NodeOk, RootOk;
    assert forall i :: 0 <= i < |order| && i != k ==> order[i] != order[k];
  }

  /**
   * Recomputing the ends after the leaf v has been freed starts by reading the left child of the root, or of
   * the head when no node is left. That address is live exactly when v was not the only node: the head still
   * points at v otherwise.
   */
  lemma ResetReadsLiveNodes<P>(m: Memory<P>, head: P, order: seq<P>, lab: map<P, Label>, bh: map<P, int>, v: P)
    requires Erasable(m, head, order, lab, bh, v) && (|order| == 1 ==> EndsOk(m, head, order))
    ensures var m' := Detach(m, head, v);
      && head in m' && m'[head].par in m'
      && (m'[m'[head].par].left in m' <==> |order| >= 2)
  {
    hide NodeOk, ColorOk, OrderOk, RootOk, Colored, RootBlack, IsTree, RedBlackTree;
    Pick(m, head, order, lab, bh, Nowhere, At(v), Nowhere, v);
    SpanFact(m, head, order, lab, v);
    EraseDetach(m, head, order, lab, bh, v);
    RestIsTree(m, head, order, lab, bh, v);
    if |order| == 1 { DetachedHead(m, head, v); }
  }

  lemma RestIsTree<P>(m: Memory<P>, head: P, order: seq<P>, lab: map<P, Label>, bh: map<P, int>, v: P)
    requires v in m && v in lab && 0 <= lab[v].pos < |order|
    requires RedBlackTree(Detach(m, head, v), head, Removed(order, lab[v].pos), DetachLabels(lab, v), bh - {v})
    ensures var m' := Detach(m, head, v);
      && head in m' && m'[head].par in m' && (|order| == 1 <==> m'[head].par == head)
      && (|order| >= 2 ==> m'[m'[head].par].left in m')
  {
    hide NodeOk, ColorOk, OrderOk, RootOk, Colored, RootBlack;
    var m', order', lab' := Detach(m, head, v), Removed(order, lab[v].pos), DetachLabels(lab, v);
    RootSpan(m', head, order', lab');
    hide Detach, DetachLabels;
    if m'[head].par != head { TreeLinks(m', head, order', lab', m'[head].par); }
  }

  lemma DetachedHead<P>(m: Memory<P>, head: P, v: P)
    requires head in m && v in m && head != v
    ensures head in Detach(m, head, v) && Detach(m, head, v)[head].left == m[head].left && v !in Detach(m, head, v)
  {
  }

  /** A tree of one node: after the node is freed the head's left link still leads to it. */
  lemma OnlyNodeDangles()
    ensures var m: Memory<int> := map[0 := Cell(1, 1, 1, Black), 1 := Cell(0, 0, 0, Black)];
      && RedBlackTree(m, 0, [1], map[1 := Label(0, 0, 1)], map[0 := 0, 1 := 1]) && EndsOk(m, 0, [1])
      && Detach(m, 0, 1) == map[0 := Cell(0, 1, 1, Black)]
  {
    FirstNode(0, 1);
  }

  /** The head's new end links when a leaf is attached below p on side s. */
  ghost function Attached<P>(m: Memory<P>, head: P, p: P, s: Side, x: P): Memory<P>
    requires head in m && p in m
  {
    var first := if s == Left && p == m[head].left then x else m[head].left;
    var last := if s == Right && p == m[head].right then x else m[head].right;
    Attach(SetEnds(m, head, first, last), head, p, s, x)
  }

  lemma RaiseEnds<P>(m: Memory<P>, head: P, order: seq<P>, lab: map<P, Label>, bh: map<P, int>, p: P, s: Side, x: P)
    requires RedBlackTree(m, head, order, lab, bh) && EndsOk(m, head, order)
    requires p in lab && p in m && Kid(m, p, s) == head && x !in m
    ensures var k := SlotIndex(lab, p, s);
      && 0 <= k <= |order|
      && InsertInv(Attached(m, head, p, s, x), head, Inserted(order, k, x), AttachLabels(lab, x, k, s), bh[x := 0], x)
      && EndsOk(Attached(m, head, p, s, x), head, Inserted(order, k, x))
      && AttachLabels(lab, x, k, s).Keys == lab.Keys + {x}
    ensures |order| > 0 && p != head && x != head
  {
    hide NodeOk, ColorOk, OrderOk, RootOk, Linked, Colored, RootBlack, IsTree, InsertInv;
    var first := if s == Left && p == m[head].left then x else m[head].left;
    var last := if s == Right && p == m[head].right then x else m[head].right;
    TreeLinks(m, head, order, lab, p);
    LeftStep(m, head, order, lab, p);
    EndPositions(m, head, order, lab, p);
    SetEndsRedBlack(m, head, order, lab, bh, first, last);
    InsertStart(SetEnds(m, head, first, last), head, order, lab, bh, p, s, x);
  }

  lemma EndPositions<P>(m: Memory<P>, head: P, order: seq<P>, lab: map<P, Label>, p: P)
    requires IsTree(m, head, order, lab) && p in lab && EndsOk(m, head, order)
    ensures |order| > 0 && 0 <= lab[p].pos < |order|
    ensures p == m[head].left <==> lab[p].pos == 0
    ensures p == m[head].right <==> lab[p].pos == |order| - 1
  {
    hide NodeOk, RootOk;
    SpanFact(m, head, order, lab, p);
  }

  lemma EmptyTree<P>(m: Memory<P>, head: P, order: seq<P>, lab: map<P, Label>, bh: map<P, int>)
    requires RedBlackTree(m, head, order, lab, bh) && |order| == 0
    ensures m.Keys == {head} && lab == map[] && m[head].col == Black && m[head].par == head
  {
    hide ColorOk, OrderOk, RootOk, NodeOk;
    RootSpan(m, head, order, lab);
    if n :| n in lab { SpanFact(m, head, order, lab, n); }
  }

  lemma EndsBegin<P>(m: Memory<P>, head: P, order: seq<P>, lab: map<P, Label>, bh: map<P, int>)
    requires RedBlackTree(m, head, order, lab, bh) && EndsOk(m, head, order)
    ensures head in m && m[head].left == if |order| > 0 then order[0] else head
  {
    hide IsTree, Colored, RootBlack;
  }

  lemma NodeAt<P>(m: Memory<P>, head: P, order: seq<P>, lab: map<P, Label>, i: int)
    requires IsTree(m, head, order, lab) && 0 <= i < |order|
    ensures order[i] in lab && order[i] in m && order[i] != head && lab[order[i]].pos == i
  {
    hide NodeOk, RootOk;
    TreeLinks(m, head, order, lab, order[i]);
  }

  class SearchTree<Ptr(==), K(==, !new)> {
    const head: Ptr
    const less: (K, K) -> bool
    var size: nat
    /** The cells of the live nodes, head included; a freed node has no cell. */
    var mem: Memory<Ptr>
    /** The value constructed in each node; head has none. */
    var values: map<Ptr, K>
    ghost var order: seq<Ptr>
    ghost var lab: map<Ptr, Label>
    ghost var bh: map<Ptr, int>

    /** `_create_head`: an empty tree is a head linked to itself. */
    constructor (h: Ptr, less: (K, K) -> bool)
      requires StrictOrder(less)
      ensures Valid() && Keys() == [] && head == h && this.less == less
    {
      head := h;
      this.less := less;
      size := 0;
      mem := map[h := Cell(h, h, h, Black)];
      values := map[];
      order := [];
      lab := map[];
      bh := map[h := 0];
    }

    method RotateLeft(subroot: Ptr)
      requires CanRotate(mem, head, subroot, Left)
      modifies this`mem
      ensures head in old(mem) && mem == Rotate(old(mem), head, subroot, Left)
    {
      var m := mem;
      var promoted := m[subroot].right;
      m := m[subroot := m[subroot].(right := m[promoted].left)];
      if m[promoted].left != head {
        m := m[m[promoted].left := m[m[promoted].left].(par := subroot)];
      }
      m := m[promoted := m[promoted].(par := m[subroot].par)];
      if subroot == m[head].par {
        m := m[head := m[head].(par := promoted)];
      } else if subroot == m[m[subroot].par].left {
        m := m[m[subroot].par := m[m[subroot].par].(left := promoted)];
      } else {
        m := m[m[subroot].par := m[m[subroot].par].(right := promoted)];
      }
      m := m[promoted := m[promoted].(left := subroot)];
      m := m[subroot := m[subroot].(par := promoted)];
      assert m == Rotate(mem, head, subroot, Left) by {
        forall n | n in mem ensures m[n] == Rotate(mem, head, subroot, Left)[n] {}
      }
      mem := m;
    }

    method RotateRight(subroot: Ptr)
      requires CanRotate(mem, head, subroot, Right)
      modifies this`mem
      ensures head in old(mem) && mem == Rotate(old(mem), head, subroot, Right)
    {
      var m := mem;
      var promoted := m[subroot].left;
      m := m[subroot := m[subroot].(left := m[promoted].right)];
      if m[promoted].right != head {
        m := m[m[promoted].right := m[m[promoted].right].(par := subroot)];
      }
      m := m[promoted := m[promoted].(par := m[subroot].par)];
      if subroot == m[head].par {
        m := m[head := m[head].(par := promoted)];
      } else if subroot == m[m[subroot].par].left {
        m := m[m[subroot].par := m[m[subroot].par].(left := promoted)];
      } else {
        m := m[m[subroot].par := m[m[subroot].par].(right := promoted)];
      }
      m := m[promoted := m[promoted].(right := subroot)];
      m := m[subroot := m[subroot].(par := promoted)];
      assert m == Rotate(mem, head, subroot, Right) by {
        forall n | n in mem ensures m[n] == Rotate(mem, head, subroot, Right)[n] {}
      }
      mem := m;
    }

    /** The fix-up loop of `_insert`; a first node is already black and needs none of it. */
    method InsertFixUp(newNode: Ptr)
      requires InsertInv(mem, head, order, lab, bh, newNode)
        || (RedBlackTree(mem, head, order, lab, bh) && newNode in mem && mem[newNode].par == head)
      modifies this`mem, this`lab, this`bh
      ensures RedBlackTree(mem, head, order, lab, bh) && head in old(mem) && head in mem
      ensures mem[head].left == old(mem)[head].left && mem[head].right == old(mem)[head].right
    {
      hide NodeOk, ColorOk, OrderOk, RootOk, Linked, Promote, Rotate, SiblingBlack, Colored, IsTree, RotateLabels, Flip,
        CanRotate;
      HeadIsBlack(mem, head, order, lab, bh, newNode);
      var temp := newNode;
      while mem[mem[temp].par].col == Red
        invariant InsertInv(mem, head, order, lab, bh, temp)
          || (RedBlackTree(mem, head, order, lab, bh) && temp in mem && mem[temp].par == head && head in mem &&
            mem[head].col == Black)
        invariant head in mem && mem[head].left == old(mem)[head].left && mem[head].right == old(mem)[head].right
        decreases if mem[mem[temp].par].col == Red then |order| + 1 - (lab[temp].hi - lab[temp].lo) else 0
      {
        SpanBound(mem, head, order, lab, temp);
        InsertFacts(mem, head, order, lab, bh, temp);
        if mem[temp].par == mem[mem[mem[temp].par].par].left {
          temp := InsertFixLeft(temp);
        } else {
          temp := InsertFixRight(temp);
        }
      }
      if InsertInv(mem, head, order, lab, bh, temp) {
        InsertDone(mem, head, order, lab, bh, temp);
        bh := Blackened(mem, bh, mem[head].par);
      } else {
        PaintSame(mem, mem[head].par, Black);
      }
      mem := Paint(mem, mem[head].par, Black);
    }

    /** One round of the insertion loop with the parent on the left of the grandparent. */
    method InsertFixLeft(temp: Ptr) returns (next: Ptr)
      requires InsertInv(mem, head, order, lab, bh, temp) && mem[mem[temp].par].col == Red
      requires mem[mem[temp].par].par in mem && mem[temp].par == mem[mem[mem[temp].par].par].left
      modifies this`mem, this`lab, this`bh
      ensures InsertInv(mem, head, order, lab, bh, next)
      ensures mem[mem[next].par].col == Red ==> lab[next].hi - lab[next].lo > old(lab[temp].hi - lab[temp].lo)
      ensures head in old(mem) && mem[head].left == old(mem)[head].left && mem[head].right == old(mem)[head].right
    {
      hide NodeOk, ColorOk, OrderOk, RootOk, Linked, HeadBlack, Promote, Rotate, SiblingBlack, Colored, IsTree,
        RotateLabels, FlipHeights, CanRotate;
      InsertFacts(mem, head, order, lab, bh, temp);
      ghost var p, g := mem[temp].par, mem[mem[temp].par].par;
      var uncle := mem[mem[mem[temp].par].par].right;
      next := temp;
      if mem[uncle].col == Black {
        if temp == mem[mem[temp].par].right {
          next := mem[temp].par;
          InsertTurn(mem, head, order, lab, bh, temp, Left);
          RotateReady(mem, head, order, lab, next, Left);
          RotateEnds(mem, head, next, Left);
          lab := RotateLabels(mem, lab, next, Left);
          RotateLeft(next);
        }
        InsertLine(mem, head, order, lab, bh, next, Left);
        InsertFacts(mem, head, order, lab, bh, next);
        PromoteReady(mem, head, order, lab, mem[mem[next].par].par, mem[next].par, Right);
        lab := RotateLabels(mem, lab, mem[mem[next].par].par, Right);
        bh := SwapLabels(bh, mem[mem[next].par].par, mem[next].par);
        mem := Paint(mem, mem[next].par, Black);
        mem := Paint(mem, mem[mem[next].par].par, Red);
        RotateRight(mem[mem[next].par].par);
      } else {
        InsertFlip(mem, head, order, lab, bh, temp, Left);
        FlipReads(mem, head, g, p, uncle, temp);
        bh := FlipHeights(bh, p, uncle);
        mem := Paint(mem, mem[temp].par, Black);
        mem := Paint(mem, uncle, Black);
        mem := Paint(mem, mem[mem[temp].par].par, Red);
        next := mem[mem[temp].par].par;
      }
    }

    /** One round of the insertion loop with the parent on the right of the grandparent. */
    method InsertFixRight(temp: Ptr) returns (next: Ptr)
      requires InsertInv(mem, head, order, lab, bh, temp) && mem[mem[temp].par].col == Red
      requires mem[mem[temp].par].par in mem && mem[temp].par != mem[mem[mem[temp].par].par].left
      modifies this`mem, this`lab, this`bh
      ensures InsertInv(mem, head, order, lab, bh, next)
      ensures mem[mem[next].par].col == Red ==> lab[next].hi - lab[next].lo > old(lab[temp].hi - lab[temp].lo)
      ensures head in old(mem) && mem[head].left == old(mem)[head].left && mem[head].right == old(mem)[head].right
    {
      hide NodeOk, ColorOk, OrderOk, RootOk, Linked, HeadBlack, Promote, Rotate, SiblingBlack, Colored, IsTree,
        RotateLabels, FlipHeights, CanRotate;
      InsertFacts(mem, head, order, lab, bh, temp);
      ghost var p, g := mem[temp].par, mem[mem[temp].par].par;
      var uncle := mem[mem[mem[temp].par].par].left;
      next := temp;
      if mem[uncle].col == Black {
        if temp == mem[mem[temp].par].left {
          next := mem[temp].par;
          InsertTurn(mem, head, order, lab, bh, temp, Right);
          RotateReady(mem, head, order, lab, next, Right);
          RotateEnds(mem, head, next, Right);
          lab := RotateLabels(mem, lab, next, Right);
          RotateRight(next);
        }
        InsertLine(mem, head, order, lab, bh, next, Right);
        InsertFacts(mem, head, order, lab, bh, next);
        PromoteReady(mem, head, order, lab, mem[mem[next].par].par, mem[next].par, Left);
        lab := RotateLabels(mem, lab, mem[mem[next].par].par, Left);
        bh := SwapLabels(bh, mem[mem[next].par].par, mem[next].par);
        mem := Paint(mem, mem[next].par, Black);
        mem := Paint(mem, mem[mem[next].par].par, Red);
        RotateLeft(mem[mem[next].par].par);
      } else {
        InsertFlip(mem, head, order, lab, bh, temp, Right);
        FlipReads(mem, head, g, p, uncle, temp);
        bh := FlipHeights(bh, p, uncle);
        mem := Paint(mem, mem[temp].par, Black);
        mem := Paint(mem, uncle, Black);
        mem := Paint(mem, mem[mem[temp].par].par, Red);
        next := mem[mem[temp].par].par;
      }
    }

    // Exchanging nodes

    method SwapParents(first: Ptr, second: Ptr)
      requires Below(mem, head, first, second)
      modifies this`mem
      ensures mem == ParentsSwapped(old(mem), head, first, second)
    {
      var m := mem;
      if m[first].par != head {
        if first == m[m[first].par].left {
          m := m[m[first].par := m[m[first].par].(left := second)];
        } else {
          m := m[m[first].par := m[m[first].par].(right := second)];
        }
      } else {
        m := m[head := m[head].(par := second)];
      }
      if m[second].par != head {
        if second == m[m[second].par].left {
          m := m[m[second].par := m[m[second].par].(left := first)];
        } else {
          m := m[m[second].par := m[m[second].par].(right := first)];
        }
      } else {
        assert false;  // second lies below first, so it is not the root
      }
      var parent := m[first].par;
      m := m[first := m[first].(par := m[second].par)];
      m := m[second := m[second].(par := parent)];
      assert m == ParentsSwapped(mem, head, first, second) by {
        forall n | n in mem ensures m[n] == ParentsSwapped(mem, head, first, second)[n] {}
      }
      mem := m;
    }

    /** The left half of `_swap_children`. */
    method SwapLeftChildren(first: Ptr, second: Ptr)
      requires CanSwapKids(mem, head, first, second, Left)
      modifies this`mem
      ensures mem == KidsSwapped(old(mem), head, first, second, Left)
    {
      var m := mem;
      var child := m[first].left;
      m := m[first := m[first].(left := m[second].left)];
      m := m[second := m[second].(left := child)];
      if m[first].left != head {
        m := m[m[first].left := m[m[first].left].(par := first)];
      }
      if m[second].left != head {
        m := m[m[second].left := m[m[second].left].(par := second)];
      }
      assert m == KidsSwapped(mem, head, first, second, Left) by {
        forall n | n in mem ensures m[n] == KidsSwapped(mem, head, first, second, Left)[n] {}
      }
      mem := m;
    }

    /** The right half of `_swap_children`. */
    method SwapRightChildren(first: Ptr, second: Ptr)
      requires CanSwapKids(mem, head, first, second, Right)
      modifies this`mem
      ensures mem == KidsSwapped(old(mem), head, first, second, Right)
    {
      var m := mem;
      var child := m[first].right;
      m := m[first := m[first].(right := m[second].right)];
      m := m[second := m[second].(right := child)];
      if m[first].right != head {
        m := m[m[first].right := m[m[first].right].(par := first)];
      }
      if m[second].right != head {
        m := m[m[second].right := m[m[second].right].(par := second)];
      }
      assert m == KidsSwapped(mem, head, first, second, Right) by {
        forall n | n in mem ensures m[n] == KidsSwapped(mem, head, first, second, Right)[n] {}
      }
      mem := m;
    }

    /** The three exchanges of links and the exchange of colors. */
    method ExchangeNodes(first: Ptr, second: Ptr)
      requires CanSwap(mem, head, first, second)
      modifies this`mem
      ensures mem == map n | n in old(mem) :: SwappedCell(old(mem), head, first, second, n)
    {
      hide SwappedCell, CanSwapKids, ParentsSwapped, KidsSwapped, LinksSwapped;
      SwapReady(mem, head, first, second);
      SwapSteps(mem, head, first, second);
      LinksSwappedIs(mem, head, first, second);
      hide CanSwap, Below;
      SwapParents(first, second);
      SwapLeftChildren(first, second);
      SwapRightChildren(first, second);
      var m := mem;
      var color := m[first].col;
      m := m[first := m[first].(col := m[second].col)];
      m := m[second := m[second].(col := color)];
      mem := m;
    }

    method Transplant(first: Ptr, second: Ptr)
      requires RedBlackTree(mem, head, order, lab, bh) && first in lab && second in lab && first != second
      requires lab[first].lo <= lab[second].lo && lab[second].hi <= lab[first].hi
      modifies this`mem, this`order, this`lab, this`bh
      ensures RedBlackTree(mem, head, order, lab, bh)
      ensures lab == SwapLabels(old(lab), first, second)
      ensures 0 <= old(lab)[first].pos < |old(order)| && 0 <= old(lab)[second].pos < |old(order)|
      ensures order == SwapOrder(old(order), old(lab)[first].pos, old(lab)[second].pos)
    {
      hide NodeOk, ColorOk, OrderOk, RootOk, Linked, Colored, HeadBlack, RootBlack;
      SwapRedBlack(mem, head, order, lab, bh, first, second);
      CanSwapInside(mem, head, order, lab, first, second);
      hide IsTree;
      SwapAll(mem, head, order, lab, first, second);
      hide RedBlackTree, SwapNodes, CanSwap, SwapOrder, SwapLabels;
      order, lab, bh := SwapOrder(order, lab[first].pos, lab[second].pos), SwapLabels(lab, first, second),
        SwapLabels(bh, first, second);
      ExchangeNodes(first, second);
    }

    // Walking the tree

    method Leftmost(start: Ptr) returns (node: Ptr)
      requires IsTree(mem, head, order, lab) && start in lab
      ensures node in lab && node in mem && mem[node].left == head && 0 <= lab[start].lo < |order|
      ensures lab[node].pos == lab[node].lo == lab[start].lo && lab[node].hi <= lab[start].hi
      ensures node == order[lab[start].lo]
    {
      hide NodeOk, RootOk, OrderOk;
      node := start;
      SpanFact(mem, head, order, lab, node);
      TreeLinks(mem, head, order, lab, node);
      while mem[node].left != head
        invariant node in lab && node in mem && lab[node].lo == lab[start].lo && lab[node].hi <= lab[start].hi
        decreases lab[node].hi - lab[node].lo
      {
        LeftStep(mem, head, order, lab, node);
        node := mem[node].left;
      }
      LeftStep(mem, head, order, lab, node);
    }

    method Rightmost(start: Ptr) returns (node: Ptr)
      requires IsTree(mem, head, order, lab) && start in lab
      ensures node in lab && 0 < lab[start].hi <= |order|
      ensures lab[node].pos + 1 == lab[node].hi == lab[start].hi && lab[node].lo >= lab[start].lo
      ensures node == order[lab[start].hi - 1]
    {
      hide NodeOk, RootOk, OrderOk;
      node := start;
      SpanFact(mem, head, order, lab, node);
      TreeLinks(mem, head, order, lab, node);
      while mem[node].right != head
        invariant node in lab && node in mem && lab[node].hi == lab[start].hi && lab[node].lo >= lab[start].lo
        decreases lab[node].hi - lab[node].lo
      {
        RightStep(mem, head, order, lab, node);
        node := mem[node].right;
      }
      RightStep(mem, head, order, lab, node);
    }

    /** Iterator `++`: the in-order successor, or the head after the last node. */
    method Increment(start: Ptr) returns (ptr: Ptr)
      requires IsTree(mem, head, order, lab) && start in lab
      ensures 0 <= lab[start].pos < |order| && order[lab[start].pos] == start
      ensures ptr == if lab[start].pos + 1 < |order| then order[lab[start].pos + 1] else head
    {
      hide NodeOk, RootOk, OrderOk;
      ptr := start;
      SpanFact(mem, head, order, lab, ptr);
      TreeLinks(mem, head, order, lab, ptr);
      RightStep(mem, head, order, lab, ptr);
      if mem[ptr].right == head {
        var node := mem[ptr].par;
        while node != head && ptr == mem[node].right
          invariant ptr in lab && ptr in mem && node == mem[ptr].par && (node == head || (node in lab && node in mem))
          invariant lab[ptr].hi == lab[start].pos + 1
          decreases |order| - (lab[ptr].hi - lab[ptr].lo)
        {
          SpanBound(mem, head, order, lab, node);
          RightStep(mem, head, order, lab, node);
          ptr := node;
          TreeLinks(mem, head, order, lab, ptr);
          node := mem[ptr].par;
        }
        ClimbEnd(mem, head, order, lab, ptr);
        ptr := node;
      } else {
        ptr := Leftmost(mem[ptr].right);
      }
    }

    /** Iterator `--`: the in-order predecessor; from the head, the last node. */
    method Decrement(start: Ptr) returns (ptr: Ptr)
      requires IsTree(mem, head, order, lab) && EndsOk(mem, head, order)
      requires (start == head && |order| > 0) || (start in lab && start != mem[head].left)
      ensures start == head ==> ptr == order[|order| - 1]
      ensures start != head ==>
        0 < lab[start].pos < |order| && order[lab[start].pos] == start && ptr == order[lab[start].pos - 1]
    {
      hide NodeOk, RootOk, OrderOk;
      RootFacts(mem, head, order, lab);
      ptr := start;
      if ptr == head {
        ptr := mem[ptr].right;
      } else {
        SpanFact(mem, head, order, lab, ptr);
        TreeLinks(mem, head, order, lab, ptr);
        LeftStep(mem, head, order, lab, ptr);
        if mem[ptr].left == head {
          var node := mem[ptr].par;
          while node != head && ptr == mem[node].left
            invariant ptr in lab && ptr in mem && node == mem[ptr].par && (node == head || (node in lab && node in mem))
            invariant lab[ptr].lo == lab[start].pos
            decreases |order| - (lab[ptr].hi - lab[ptr].lo)
          {
            SpanBound(mem, head, order, lab, node);
            LeftStep(mem, head, order, lab, node);
            ptr := node;
            TreeLinks(mem, head, order, lab, ptr);
            node := mem[ptr].par;
          }
          ClimbEnd(mem, head, order, lab, ptr);
          if ptr != head {
            ptr := node;
          }
        } else {
          ptr := Rightmost(mem[ptr].left);
        }
      }
    }

    // Searching

    ghost predicate Shaped()
      reads this
    {
      RedBlackTree(mem, head, order, lab, bh) && EndsOk(mem, head, order) && size == |order|
    }

    ghost predicate Valid()
      reads this
    {
      && Shaped()
      && values.Keys == lab.Keys && Held(values, order)
      && StrictOrder(less) && Sorted(less, KeysOf(values, order))
    }

    /** The keys in iteration order. */
    ghost function Keys(): seq<K>
      reads this
      requires Held(values, order)
    {
      KeysOf(values, order)
    }

    /** Iterating from `begin()` with `++` until the end: every key once, in ascending order. */
    method Traverse() returns (keys: seq<K>)
      requires Valid()
      ensures keys == Keys() && Sorted(less, keys)
    {
      hide NodeOk, OrderOk, RootOk, Colored, RootBlack, IsTree, Sorted, StrictOrder;
      keys := [];
      var it := mem[head].left;
      ghost var i := 0;
      EndsBegin(mem, head, order, lab, bh);
      while it != head
        invariant 0 <= i <= |order| && keys == KeysOf(values, order)[..i]
        invariant it == (if i < |order| then order[i] else head)
        decreases |order| - i
      {
        NodeAt(mem, head, order, lab, i);
        keys := keys + [values[it]];
        it := Increment(it);
        i := i + 1;
      }
      if i < |order| { NodeAt(mem, head, order, lab, i); }
    }

    /** Iterating back from the end with `--` until `begin()`: the same keys, last one first. */
    method TraverseBack() returns (keys: seq<K>)
      requires Valid()
      ensures |keys| == |Keys()| && forall i :: 0 <= i < |keys| ==> keys[i] == Keys()[|keys| - 1 - i]
    {
      hide NodeOk, OrderOk, RootOk, Colored, RootBlack, IsTree, Sorted, StrictOrder;
      keys := [];
      var it := head;
      ghost var i := |order|;
      EndsBegin(mem, head, order, lab, bh);
      while it != mem[head].left
        invariant 0 <= i <= |order| && |keys| == |order| - i
        invariant forall j :: 0 <= j < |keys| ==> keys[j] == KeysOf(values, order)[|order| - 1 - j]
        invariant it == (if i < |order| then order[i] else head)
        decreases i
      {
        if i < |order| { NodeAt(mem, head, order, lab, i); }
        it := Decrement(it);
        i := i - 1;
        keys := keys + [values[it]];
      }
      if i < |order| { NodeAt(mem, head, order, lab, i); }
      if |order| > 0 { NodeAt(mem, head, order, lab, 0); }
    }

    method FindInTree(key: K) returns (found: Ptr)
      requires Valid()
      ensures found == head <==> key !in Keys()
      ensures found != head ==>
        && found in lab && 0 <= lab[found].pos < |order| && order[lab[found].pos] == found &&
           Keys()[lab[found].pos] == key
    {
      hide NodeOk, RootOk, OrderOk, Colored, RootBlack;
      RootFacts(mem, head, order, lab);
      ghost var s := Keys();
      found := head;
      var iter := mem[head].par;
      RootSpan(mem, head, order, lab);
      while iter != head
        invariant iter == head || iter in lab
        invariant found == head ==> forall i :: 0 <= i < |s| && s[i] == key ==>
          iter != head && lab[iter].lo <= i < lab[iter].hi
        invariant found != head ==>
          && iter == head && found in lab && 0 <= lab[found].pos < |order|
          && order[lab[found].pos] == found && s[lab[found].pos] == key
        decreases if iter == head then 0 else lab[iter].hi - lab[iter].lo
      {
        LeftStep(mem, head, order, lab, iter);
        RightStep(mem, head, order, lab, iter);
        if key == values[iter] {
          found := iter;
          iter := head;
        } else if less(key, values[iter]) {
          LessGoesLeft(less, s, key, lab[iter].pos);
          iter := mem[iter].left;
        } else {
          GreaterGoesRight(less, s, key, lab[iter].pos);
          iter := mem[iter].right;
        }
      }
    }

    /** The parent and side where a key that is not in the tree belongs. */
    method FindInsertionSlot(key: K) returns (parent: Ptr, child: Side)
      requires Valid() && key !in Keys()
      ensures |order| == 0 ==> parent == head
      ensures |order| > 0 ==>
        && parent in lab && parent in mem && Kid(mem, parent, child) == head
        && SlotAt(less, Keys(), key, SlotIndex(lab, parent, child))
    {
      hide NodeOk, RootOk, OrderOk, Colored, RootBlack;
      RootFacts(mem, head, order, lab);
      RootSpan(mem, head, order, lab);
      ghost var s := Keys();
      parent, child := head, Left;
      if mem[head].par != head {
        var iter := mem[head].par;
        while iter != head
          invariant iter == head || (iter in lab && iter in mem && 0 <= lab[iter].lo < lab[iter].hi <= |s|)
          invariant iter != head ==> forall i :: 0 <= i < lab[iter].lo ==> less(s[i], key)
          invariant iter != head ==> forall i :: lab[iter].hi <= i < |s| ==> less(key, s[i])
          invariant iter == head ==>
            && parent in lab && parent in mem && Kid(mem, parent, child) == head
            && SlotAt(less, s, key, SlotIndex(lab, parent, child))
          decreases if iter == head then 0 else lab[iter].hi - lab[iter].lo
        {
          parent := iter;
          LeftStep(mem, head, order, lab, iter);
          RightStep(mem, head, order, lab, iter);
          if less(key, values[iter]) {
            LessGoesLeft(less, s, key, lab[iter].pos);
            iter := mem[iter].left;
            if iter == head { child := Left; } else { LeftStep(mem, head, order, lab, iter); }
          } else {
            GreaterGoesRight(less, s, key, lab[iter].pos);
            iter := mem[iter].right;
            if iter == head { child := Right; } else { LeftStep(mem, head, order, lab, iter); }
          }
        }
      }
    }

    // Erasing

    /** One round of the erasure loop with the short subtree on the left; settled is the source's `break`. */
    method EraseFixLeft(fix: Ptr, fixParent: Ptr, ghost v: Ptr) returns (next: Ptr, settled: bool)
      requires EraseInv(mem, head, order, lab, bh, fix, v) && fix != mem[head].par && mem[fix].col == Black
      requires mem[fix].par == fixParent && fixParent in mem && Kid(mem, fixParent, Left) == fix
      modifies this`mem, this`lab, this`bh
      ensures settled ==> Erasable(mem, head, order, lab, bh, v) && next == fix && fix in mem && mem[fix].col == Black
      ensures !settled ==> EraseInv(mem, head, order, lab, bh, next, v)
      ensures !settled ==> lab[next].hi - lab[next].lo > old(lab[fix].hi - lab[fix].lo)
    {
      hide NodeOk, ColorOk, OrderOk, RootOk, Linked, Rotate, Colored, IsTree, RotateLabels, CanRotate, Promote, Settle,
        SinkHeights, SettleHeights, SwapLabels;
      EraseFacts(mem, head, order, lab, bh, fix, v, Left);
      var temp := mem[fixParent].right;
      if mem[temp].col == Red {
        EraseRedSibling(mem, head, order, lab, bh, fix, v, Left);
        PromoteReady(mem, head, order, lab, fixParent, temp, Left);
        lab, bh := RotateLabels(mem, lab, fixParent, Left), SwapLabels(bh, fixParent, temp);
        mem := Paint(mem, temp, Black);
        mem := Paint(mem, fixParent, Red);
        RotateLeft(fixParent);
        temp := mem[fixParent].right;
        EraseFacts(mem, head, order, lab, bh, fix, v, Left);
      }
      if mem[mem[temp].left].col == Black && mem[mem[temp].right].col == Black {
        EraseSink(mem, head, order, lab, bh, fix, v, Left);
        bh := SinkHeights(bh, temp, fixParent);
        mem := Paint(mem, temp, Red);
        next, settled := fixParent, false;
      } else {
        EraseSettleLeft(fix, fixParent, temp, v);
        next, settled := fix, true;
      }
    }

    /** The rotations that settle a shortage on the left below a black sibling with a red child. */
    method EraseSettleLeft(fix: Ptr, fixParent: Ptr, sibling: Ptr, ghost v: Ptr)
      requires EraseInv(mem, head, order, lab, bh, fix, v) && fix != mem[head].par && mem[fix].col == Black
      requires mem[fix].par == fixParent && fixParent in mem && Kid(mem, fixParent, Left) == fix
      requires sibling == mem[fixParent].right && sibling in mem && mem[sibling].col == Black
      requires mem[sibling].left in mem && mem[sibling].right in mem
      requires mem[mem[sibling].left].col == Red || mem[mem[sibling].right].col == Red
      modifies this`mem, this`lab, this`bh
      ensures Erasable(mem, head, order, lab, bh, v) && fix in mem && mem[fix].col == Black
    {
      hide NodeOk, ColorOk, OrderOk, RootOk, Linked, Rotate, Colored, IsTree, RotateLabels, CanRotate, Promote, Settle,
        SettleHeights, SwapLabels;
      EraseFacts(mem, head, order, lab, bh, fix, v, Left);
      var temp := sibling;
      if mem[mem[temp].right].col == Black {
        EraseInner(mem, head, order, lab, bh, fix, v, Left);
        PromoteReady(mem, head, order, lab, temp, mem[temp].left, Right);
        lab, bh := RotateLabels(mem, lab, temp, Right), SwapLabels(bh, temp, mem[temp].left);
        mem := Paint(mem, mem[temp].left, Black);
        mem := Paint(mem, temp, Red);
        RotateRight(temp);
        temp := mem[fixParent].right;
        EraseFacts(mem, head, order, lab, bh, fix, v, Left);
      }
      EraseOuter(mem, head, order, lab, bh, fix, v, Left);
      SettleReady(mem, head, order, lab, fixParent, Left);
      lab, bh := RotateLabels(mem, lab, fixParent, Left), SettleHeights(bh, fix, fixParent, temp, mem[temp].right);
      mem := Paint(mem, temp, mem[fixParent].col);
      mem := Paint(mem, fixParent, Black);
      mem := Paint(mem, mem[temp].right, Black);
      RotateLeft(fixParent);
    }

    /** One round of the erasure loop with the short subtree on the right; settled is the source's `break`. */
    method EraseFixRight(fix: Ptr, fixParent: Ptr, ghost v: Ptr) returns (next: Ptr, settled: bool)
      requires EraseInv(mem, head, order, lab, bh, fix, v) && fix != mem[head].par && mem[fix].col == Black
      requires mem[fix].par == fixParent && fixParent in mem && Kid(mem, fixParent, Right) == fix
      modifies this`mem, this`lab, this`bh
      ensures settled ==> Erasable(mem, head, order, lab, bh, v) && next == fix && fix in mem && mem[fix].col == Black
      ensures !settled ==> EraseInv(mem, head, order, lab, bh, next, v)
      ensures !settled ==> lab[next].hi - lab[next].lo > old(lab[fix].hi - lab[fix].lo)
    {
      hide NodeOk, ColorOk, OrderOk, RootOk, Linked, Rotate, Colored, IsTree, RotateLabels, CanRotate, Promote, Settle,
        SinkHeights, SettleHeights, SwapLabels;
      EraseFacts(mem, head, order, lab, bh, fix, v, Right);
      var temp := mem[fixParent].left;
      if mem[temp].col == Red {
        EraseRedSibling(mem, head, order, lab, bh, fix, v, Right);
        PromoteReady(mem, head, order, lab, fixParent, temp, Right);
        lab, bh := RotateLabels(mem, lab, fixParent, Right), SwapLabels(bh, fixParent, temp);
        mem := Paint(mem, temp, Black);
        mem := Paint(mem, fixParent, Red);
        RotateRight(fixParent);
        temp := mem[fixParent].left;
        EraseFacts(mem, head, order, lab, bh, fix, v, Right);
      }
      if mem[mem[temp].right].col == Black && mem[mem[temp].left].col == Black {
        EraseSink(mem, head, order, lab, bh, fix, v, Right);
        bh := SinkHeights(bh, temp, fixParent);
        mem := Paint(mem, temp, Red);
        next, settled := fixParent, false;
      } else {
        EraseSettleRight(fix, fixParent, temp, v);
        next, settled := fix, true;
      }
    }

    /** The rotations that settle a shortage on the right below a black sibling with a red child. */
    method EraseSettleRight(fix: Ptr, fixParent: Ptr, sibling: Ptr, ghost v: Ptr)
      requires EraseInv(mem, head, order, lab, bh, fix, v) && fix != mem[head].par && mem[fix].col == Black
      requires mem[fix].par == fixParent && fixParent in mem && Kid(mem, fixParent, Right) == fix
      requires sibling == mem[fixParent].left && sibling in mem && mem[sibling].col == Black
      requires mem[sibling].left in mem && mem[sibling].right in mem
      requires mem[mem[sibling].left].col == Red || mem[mem[sibling].right].col == Red
      modifies this`mem, this`lab, this`bh
      ensures Erasable(mem, head, order, lab, bh, v) && fix in mem && mem[fix].col == Black
    {
      hide NodeOk, ColorOk, OrderOk, RootOk, Linked, Rotate, Colored, IsTree, RotateLabels, CanRotate, Promote, Settle,
        SettleHeights, SwapLabels;
      EraseFacts(mem, head, order, lab, bh, fix, v, Right);
      var temp := sibling;
      if mem[mem[temp].left].col == Black {
        EraseInner(mem, head, order, lab, bh, fix, v, Right);
        PromoteReady(mem, head, order, lab, temp, mem[temp].right, Left);
        lab, bh := RotateLabels(mem, lab, temp, Left), SwapLabels(bh, temp, mem[temp].right);
        mem := Paint(mem, mem[temp].right, Black);
        mem := Paint(mem, temp, Red);
        RotateLeft(temp);
        temp := mem[fixParent].left;
        EraseFacts(mem, head, order, lab, bh, fix, v, Right);
      }
      EraseOuter(mem, head, order, lab, bh, fix, v, Right);
      SettleReady(mem, head, order, lab, fixParent, Right);
      lab, bh := RotateLabels(mem, lab, fixParent, Right), SettleHeights(bh, fix, fixParent, temp, mem[temp].left);
      mem := Paint(mem, temp, mem[fixParent].col);
      mem := Paint(mem, fixParent, Black);
      mem := Paint(mem, mem[temp].left, Black);
      RotateRight(fixParent);
    }

    method InOrderSuccessor(node: Ptr) returns (next: Ptr)
      requires IsTree(mem, head, order, lab) && Colored(mem, head, lab, bh, Nowhere, Nowhere, Nowhere)
      requires node in lab && node in mem && !(mem[node].left == head && mem[node].right == head)
      ensures next in lab && next != node
      ensures lab[node].lo <= lab[next].lo && lab[next].hi <= lab[node].hi
      ensures lab[next].hi - lab[next].lo < lab[node].hi - lab[node].lo
      ensures lab[next].pos == lab[node].pos + 1 || lab[next].pos == lab[node].pos - 1
      ensures 0 <= lab[node].pos < |order|
    {
      hide NodeOk, ColorOk, OrderOk, RootOk, Linked, Colored, IsTree;
      RightStep(mem, head, order, lab, node);
      LeftStep(mem, head, order, lab, node);
      if mem[node].right != head {
        next := Leftmost(mem[node].right);
      } else {
        next := Leftmost(node);
        OnlyLeft(mem, head, order, lab, bh, node);
        LeftStep(mem, head, order, lab, mem[node].left);
        RightStep(mem, head, order, lab, mem[node].left);
      }
    }

    /** The part of `_destroy` that rebalances around a leaf still in the tree. */
    method Rebalance(oldNode: Ptr)
      requires RedBlackTree(mem, head, order, lab, bh) && oldNode in lab && oldNode in mem
      requires mem[oldNode].left == head == mem[oldNode].right
      modifies this`mem, this`lab, this`bh
      ensures Erasable(mem, head, order, lab, bh, oldNode)
      ensures lab[oldNode].pos == old(lab)[oldNode].pos && lab.Keys == old(lab).Keys
    {
      hide NodeOk, ColorOk, OrderOk, RootOk, Linked, Colored, IsTree;
      EraseStart(mem, head, order, lab, bh, oldNode);
      ghost var mem0, lab0 := mem, lab;
      if mem[oldNode].col == Black {
        var fixNode := oldNode;
        bh := bh[oldNode := 0];
        var fixNodeParent := mem[oldNode].par;
        var settled := false;
        while fixNode != mem[head].par && mem[fixNode].col == Black
          invariant EraseInv(mem, head, order, lab, bh, fixNode, oldNode)
          invariant fixNodeParent == mem[fixNode].par
          decreases |order| - (lab[fixNode].hi - lab[fixNode].lo)
        {
          EraseLinks(mem, head, order, lab, bh, fixNode, oldNode);
          var next;
          if fixNode == mem[fixNodeParent].left {
            next, settled := EraseFixLeft(fixNode, fixNodeParent, oldNode);
          } else {
            next, settled := EraseFixRight(fixNode, fixNodeParent, oldNode);
          }
          fixNode := next;
          if settled {
            break;
          }
          fixNodeParent := mem[fixNode].par;
        }
        if settled {
          PaintSame(mem, fixNode, Black);
        } else {
          EraseDone(mem, head, order, lab, bh, fixNode, oldNode);
          bh := Blackened(mem, bh, fixNode);
        }
        mem := Paint(mem, fixNode, Black);
      }
      SameOrder(mem0, lab0, mem, lab, head, order);
    }

    /** `_free_common_node`: cut the leaf off its parent and release it. */
    method FreeCommonNode(oldNode: Ptr)
      requires head in mem && oldNode in mem && oldNode != head && mem[oldNode].par in mem &&
               mem[oldNode].par != oldNode
      requires mem[oldNode].par == head <==> mem[head].par == oldNode
      modifies this`mem, this`values
      ensures mem == Detach(old(mem), head, oldNode) && values == old(values) - {oldNode}
    {
      var m := mem;
      if oldNode == m[head].par {
        m := m[head := m[head].(par := head)];
      } else if oldNode == m[m[oldNode].par].left {
        m := m[m[oldNode].par := m[m[oldNode].par].(left := head)];
      } else {
        m := m[m[oldNode].par := m[m[oldNode].par].(right := head)];
      }
      m := m - {oldNode};
      assert m == Detach(mem, head, oldNode) by {
        forall n | n in m ensures m[n] == Detach(mem, head, oldNode)[n] {}
      }
      mem := m;
      values := values - {oldNode};
    }

    /** The node trades places with an in-order neighbour until it is a leaf. */
    method SinkToLeaf(oldNode: Ptr)
      requires RedBlackTree(mem, head, order, lab, bh) && oldNode in lab
      modifies this`mem, this`order, this`lab, this`bh
      ensures RedBlackTree(mem, head, order, lab, bh) && oldNode in lab && oldNode in mem
      ensures mem[oldNode].left == head == mem[oldNode].right
      ensures |order| == |old(order)| && lab.Keys == old(lab).Keys
      ensures 0 <= lab[oldNode].pos < |order| && 0 <= old(lab)[oldNode].pos < |order|
      ensures Removed(order, lab[oldNode].pos) == Removed(old(order), old(lab)[oldNode].pos)
    {
      hide NodeOk, ColorOk, OrderOk, RootOk, Linked, Colored, RootBlack, IsTree;
      LeftStep(mem, head, order, lab, oldNode);
      while !(mem[oldNode].left == head && mem[oldNode].right == head)
        invariant RedBlackTree(mem, head, order, lab, bh) && oldNode in lab && oldNode in mem
        invariant |order| == |old(order)| && lab.Keys == old(lab).Keys && 0 <= lab[oldNode].pos < |order|
        invariant Removed(order, lab[oldNode].pos) == Removed(old(order), old(lab)[oldNode].pos)
        decreases lab[oldNode].hi - lab[oldNode].lo
      {
        var next := InOrderSuccessor(oldNode);
        LeftStep(mem, head, order, lab, next);
        RemovedNeighbour(order, lab[oldNode].pos, lab[next].pos);
        Transplant(oldNode, next);
        LeftStep(mem, head, order, lab, oldNode);
      }
    }

    /** Point the head at the first and the last node again. */
    method ResetEnds()
      requires RedBlackTree(mem, head, order, lab, bh) && |order| >= 1
      modifies this`mem
      ensures RedBlackTree(mem, head, order, lab, bh) && EndsOk(mem, head, order)
    {
      hide NodeOk, ColorOk, OrderOk, RootOk, Linked, Colored, RootBlack, IsTree;
      RootSpan(mem, head, order, lab);
      var first := Leftmost(mem[head].par);
      SetEndsRedBlack(mem, head, order, lab, bh, first, mem[head].right);
      mem := SetEnds(mem, head, first, mem[head].right);
      var last := Rightmost(mem[head].par);
      SetEndsRedBlack(mem, head, order, lab, bh, first, last);
      mem := SetEnds(mem, head, first, last);
    }

    /**
     * Erase a node of a tree of at least two: the node trades places with its in-order neighbour until it is
     * a leaf, the tree is rebalanced around it, and only then is it cut off and freed.
     */
    method Destroy(oldNode: Ptr)
      requires Shaped() && oldNode in lab && |order| >= 2
      modifies this`size, this`mem, this`values, this`order, this`lab, this`bh
      ensures Shaped() && 0 <= old(lab)[oldNode].pos < |old(order)|
      ensures order == Removed(old(order), old(lab)[oldNode].pos)
      ensures values == old(values) - {oldNode} && lab.Keys == old(lab).Keys - {oldNode}
    {
      hide NodeOk, ColorOk, OrderOk, RootOk, Linked, Detach, DetachLabels, RootBlack, Colored, IsTree, RedBlackTree;
      size := size - 1;
      SinkToLeaf(oldNode);
      Rebalance(oldNode);
      EraseDetach(mem, head, order, lab, bh, oldNode);
      DetachReady(mem, head, order, lab, bh, oldNode);
      order, lab, bh := Removed(order, lab[oldNode].pos), DetachLabels(lab, oldNode), bh - {oldNode};
      FreeCommonNode(oldNode);
      ResetEnds();
    }

    // The public operations

    method Insert(newNode: Ptr, parent: Ptr, child: Side)
      requires Shaped() && newNode !in mem
      requires |order| == 0 ==> parent == head
      requires |order| > 0 ==> parent in lab && parent in mem && Kid(mem, parent, child) == head
      modifies this`size, this`mem, this`order, this`lab, this`bh
      ensures Shaped() && lab.Keys == old(lab).Keys + {newNode}
      ensures var k := if |old(order)| == 0 then 0 else SlotIndex(old(lab), parent, child);
        0 <= k <= |old(order)| && order == Inserted(old(order), k, newNode)
    {
      hide NodeOk, ColorOk, OrderOk, RootOk, Linked, Colored, RootBlack, IsTree;
      RootSpan(mem, head, order, lab);
      size := size + 1;
      var m := mem[newNode := Cell(parent, head, head, Red)];
      if parent == head {
        m := m[head := m[head].(par := newNode, left := newNode, right := newNode)];
        m := m[newNode := m[newNode].(col := Black)];
        EmptyTree(mem, head, order, lab, bh);
        FirstNode(head, newNode);
        assert m == map[head := Cell(newNode, newNode, newNode, Black), newNode := Cell(head, head, head, Black)];
        order, lab, bh := [newNode], map[newNode := Label(0, 0, 1)], map[head := 0, newNode := 1];
      } else {
        RaiseEnds(mem, head, order, lab, bh, parent, child, newNode);
        if child == Left {
          m := m[parent := m[parent].(left := newNode)];
          if parent == m[head].left {
            m := m[head := m[head].(left := newNode)];
          }
        } else {
          m := m[parent := m[parent].(right := newNode)];
          if parent == m[head].right {
            m := m[head := m[head].(right := newNode)];
          }
        }
        ghost var k := SlotIndex(lab, parent, child);
        assert m == Attached(mem, head, parent, child, newNode);
        order, lab, bh := Inserted(order, k, newNode), AttachLabels(lab, newNode, k, child), bh[newNode := 0];
      }
      mem := m;
      ghost var lab0 := lab;
      InsertFixUp(newNode);
      SameOrder(m, lab0, mem, lab, head, order);
    }

    /** Adds key at its place unless an equal key is present; newNode is the address the allocator returned. */
    method Emplace(newNode: Ptr, key: K) returns (it: Ptr)
      requires Valid() && newNode !in mem
      modifies this
      ensures Valid()
      ensures key in old(Keys()) ==>
        && it in values && values[it] == key
        && mem == old(mem) && values == old(values) && order == old(order)
      ensures key !in old(Keys()) ==>
        && it == newNode && values == old(values)[newNode := key]
        && exists k ::
          && SlotAt(less, old(Keys()), key, k)
          && order == Inserted(old(order), k, newNode) && Keys() == Inserted(old(Keys()), k, key)
    {
      hide NodeOk, ColorOk, OrderOk, RootOk, Colored, RootBlack, IsTree, RedBlackTree, StrictOrder, KeysOf;
      it := FindInTree(key);
      if it == head {
        NewAddress(mem, head, order, lab, bh, newNode);
        var parent, child := FindInsertionSlot(key);
        ghost var k := if |order| == 0 then 0 else SlotIndex(lab, parent, child);
        ghost var keys := Keys();
        KeysInserted(values, order, k, newNode, key);
        InsertKeepsSorted(less, keys, key, k);
        values := values[newNode := key];
        Insert(newNode, parent, child);
        it := newNode;
      }
    }

    /** Removes key and returns the node of the least greater key, or the head; the only node is out of scope. */
    method Erase(key: K) returns (next: Ptr)
      requires Valid() && (key in Keys() ==> size >= 2)
      modifies this
      ensures Valid()
      ensures key !in old(Keys()) ==> next == head && mem == old(mem) && values == old(values) && order == old(order)
      ensures key in old(Keys()) ==>
        exists k ::
          && 0 <= k < |old(Keys())| && old(Keys())[k] == key
          && Keys() == Removed(old(Keys()), k) && order == Removed(old(order), k) && old(order)[k] !in mem
          && next == if k < |order| then order[k] else head
    {
      hide NodeOk, ColorOk, OrderOk, RootOk, Colored, RootBlack, IsTree, StrictOrder, KeysOf;
      var it := FindInTree(key);
      next := it;
      if it != head {
        next := Increment(it);
        ghost var k := lab[it].pos;
        KeysRemoved(mem, head, order, lab, values, k);
        RemoveKeepsSorted(less, Keys(), k);
        Destroy(it);
        LabelsAreCells(mem, head, order, lab);
      }
    }
  }
}
