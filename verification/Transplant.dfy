/** `_transplant`: exchanging a node with one further down its subtree by rewriting links, adjacent or not. */
module Transplant {
  import opened TreeMemory
  import opened RedBlack
  import opened FixUp

  /** The link from parent p to child x becomes a link to y. */
  ghost function Redirected<P>(m: Memory<P>, p: P, x: P, y: P): (r: Cell<P>)
    requires p in m
  {
    if m[p].left == x then m[p].(left := y) else m[p].(right := y)
  }

  /** What `_swap_parents(a, b)` leaves behind, b lying below a. */
  ghost function ParentsSwapped<P>(m: Memory<P>, head: P, a: P, b: P): Memory<P>
    requires a in m && b in m && m[a].par in m && m[b].par in m
  {
    var pa, pb := m[a].par, m[b].par;
    map n | n in m ::
      if n == head then (if pa == head then m[n].(par := b) else m[n])
      else
        var c := if n == pb then Redirected(m, n, b, a) else if n == pa then Redirected(m, n, a, b) else m[n];
        if n == a then c.(par := pb) else if n == b then c.(par := pa) else c
  }

  /** b lies below a: their parents are two nodes, neither of them b, and b's is not the head. */
  ghost predicate Below<P>(m: Memory<P>, head: P, a: P, b: P) {
    && head in m && a in m && b in m && a != b && a != head && b != head
    && m[a].par in m && m[b].par in m
    && var pa, pb := m[a].par, m[b].par;
    && pa != a && pb != b && pa != b && pb != head && pa != pb
    && (pa == head <==> m[head].par == a) && m[head].par != b
    && (pa != head ==> m[pa].left == a || m[pa].right == a)
    && (m[pb].left == b || m[pb].right == b)
  }

  ghost predicate CanSwap<P>(m: Memory<P>, head: P, a: P, b: P) {
    && Below(m, head, a, b)
    && Linked(m, head, a) && Linked(m, head, b) && Linked(m, head, m[b].par)
    && (m[a].par != head ==> Linked(m, head, m[a].par))
  }

  lemma CanSwapBelow<P>(m: Memory<P>, head: P, order: seq<P>, lab: map<P, Label>, a: P, b: P)
    requires NodeOk(m, head, order, lab, a) && NodeOk(m, head, order, lab, b) && a != b && RootOk(m, head, order, lab)
    requires lab[a].lo <= lab[b].lo && lab[b].hi <= lab[a].hi
    requires m[a].par != head ==> NodeOk(m, head, order, lab, m[a].par)
    requires m[b].par != head ==> NodeOk(m, head, order, lab, m[b].par)
    ensures CanSwap(m, head, a, b)
  {
    BelowIsNotRoot(m, head, order, lab, a, b);
    NodeIsLinked(m, head, order, lab, a);
    NodeIsLinked(m, head, order, lab, b);
    NodeIsLinked(m, head, order, lab, m[b].par);
    if m[a].par != head { NodeIsLinked(m, head, order, lab, m[a].par); }
    hide Linked;
  }

  lemma BelowIsNotRoot<P>(m: Memory<P>, head: P, order: seq<P>, lab: map<P, Label>, a: P, b: P)
    requires NodeOk(m, head, order, lab, a) && NodeOk(m, head, order, lab, b) && a != b && RootOk(m, head, order, lab)
    requires lab[a].lo <= lab[b].lo && lab[b].hi <= lab[a].hi
    requires m[a].par != head ==> NodeOk(m, head, order, lab, m[a].par)
    ensures m[b].par != head
  {
  }

  lemma SwapCell<P>(m: Memory<P>, head: P, order: seq<P>, lab: map<P, Label>, a: P, b: P, n: P)
    requires CanSwap(m, head, a, b) && NodeOk(m, head, order, lab, n) && head !in lab
    ensures n in m && SwapNodes(m, head, a, b)[n] == SwappedCell(m, head, a, b, n)
  {
  }

  /** The cell of n after `_swap_parents`, `_swap_children` and the exchange of colours. */
  ghost function SwappedCell<P>(m: Memory<P>, head: P, a: P, b: P, n: P): Cell<P>
    requires CanSwap(m, head, a, b) && n in m
  {
    var pa, pb := m[a].par, m[b].par;
    if n == a then
      Cell(if pb == a then b else pb, m[b].left, m[b].right, m[b].col)
    else if n == b then
      Cell(pa, if m[a].left == b then a else m[a].left, if m[a].right == b then a else m[a].right, m[a].col)
    else if n == head then (if pa == head then m[n].(par := b) else m[n])
    else
      var c := if n == pb then Redirected(m, n, b, a) else if n == pa then Redirected(m, n, a, b) else m[n];
      c.(par := if n == m[a].left || n == m[a].right then b
                else if n == m[b].left || n == m[b].right then a
                else m[n].par)
  }

  lemma SwapAll<P>(m: Memory<P>, head: P, order: seq<P>, lab: map<P, Label>, a: P, b: P)
    requires IsTree(m, head, order, lab) && CanSwap(m, head, a, b)
    ensures SwapNodes(m, head, a, b) == map n | n in m :: SwappedCell(m, head, a, b, n)
  {
    hide NodeOk, OrderOk, RootOk, CanSwap;
    SwapHeadCell(m, head, a, b);
    forall n | n in m ensures SwapNodes(m, head, a, b)[n] == SwappedCell(m, head, a, b, n) {
      if n != head { SwapCell(m, head, order, lab, a, b, n); }
    }
  }

  lemma SwapHeadCell<P>(m: Memory<P>, head: P, a: P, b: P)
    requires CanSwap(m, head, a, b)
    ensures head in m && a in m && b in m && a in m &&
            SwapNodes(m, head, a, b)[head] == SwappedCell(m, head, a, b, head)
  {
  }

  ghost predicate CanSwapKids<P>(m: Memory<P>, head: P, a: P, b: P, k: Side) {
    && a in m && b in m && a != b && a != head && b != head && head in m
    && Kid(m, a, k) in m && Kid(m, b, k) in m
    && Kid(m, a, k) != b && Kid(m, b, k) != a && Kid(m, b, k) != b
    && (Kid(m, a, k) == Kid(m, b, k) ==> Kid(m, a, k) == head)
  }

  /** a and b after exchanging their children on side k, which learn their new parent. */
  ghost function KidsSwapped<P>(m: Memory<P>, head: P, a: P, b: P, k: Side): Memory<P>
    requires CanSwapKids(m, head, a, b, k)
  {
    var ka, kb := Kid(m, a, k), Kid(m, b, k);
    map n | n in m ::
      var link := if n == a then kb else if n == b then ka else Kid(m, n, k);
      var par := if n == head then m[n].par else if n == kb then a else if n == ka then b else m[n].par;
      if k == Left then Cell(par, link, m[n].right, m[n].col) else Cell(par, m[n].left, link, m[n].col)
  }

  lemma SwapReady<P>(m: Memory<P>, head: P, a: P, b: P)
    requires CanSwap(m, head, a, b)
    ensures a in m && b in m && m[a].par in m && m[b].par in m
    ensures var m1 := ParentsSwapped(m, head, a, b);
      && CanSwapKids(m1, head, a, b, Left)
      && var m2 := KidsSwapped(m1, head, a, b, Left);
      && CanSwapKids(m2, head, a, b, Right)
  {
  }

  ghost function LinksSwapped<P>(m: Memory<P>, head: P, a: P, b: P): Memory<P>
    requires CanSwap(m, head, a, b)
  {
    SwapReady(m, head, a, b);
    KidsSwapped(KidsSwapped(ParentsSwapped(m, head, a, b), head, a, b, Left), head, a, b, Right)
  }

  lemma LinksSwappedEnds<P>(m: Memory<P>, head: P, a: P, b: P)
    requires CanSwap(m, head, a, b)
    ensures a in m && b in m && a in LinksSwapped(m, head, a, b) && b in LinksSwapped(m, head, a, b)
    ensures LinksSwapped(m, head, a, b)[a] == SwappedCell(m, head, a, b, a).(col := m[a].col)
    ensures LinksSwapped(m, head, a, b)[b] == SwappedCell(m, head, a, b, b).(col := m[b].col)
  {
  }

  lemma LinksSwappedKids<P>(m: Memory<P>, head: P, a: P, b: P, n: P)
    requires CanSwap(m, head, a, b) && n in m && n != a && n != b
    ensures n in LinksSwapped(m, head, a, b)
    ensures var c, d := LinksSwapped(m, head, a, b)[n], SwappedCell(m, head, a, b, n);
      c.left == d.left && c.right == d.right && c.col == d.col
  {
  }

  lemma LinksSwappedParent<P>(m: Memory<P>, head: P, a: P, b: P, n: P)
    requires CanSwap(m, head, a, b) && n in m && n != a && n != b
    ensures n in LinksSwapped(m, head, a, b) && LinksSwapped(m, head, a, b)[n].par == SwappedCell(m, head, a, b, n).par
  {
  }

  lemma LinksSwappedRest<P>(m: Memory<P>, head: P, a: P, b: P, n: P)
    requires CanSwap(m, head, a, b) && n in m && n != a && n != b
    ensures n in LinksSwapped(m, head, a, b) && LinksSwapped(m, head, a, b)[n] == SwappedCell(m, head, a, b, n)
  {
    hide LinksSwapped, SwappedCell, CanSwap;
    LinksSwappedKids(m, head, a, b, n);
    LinksSwappedParent(m, head, a, b, n);
  }

  lemma LinksSwappedKeys<P>(m: Memory<P>, head: P, a: P, b: P)
    requires CanSwap(m, head, a, b)
    ensures LinksSwapped(m, head, a, b).Keys == m.Keys
  {
  }

  /** The links a transplant writes, then the colours, add up to SwappedCell. */
  lemma SwapSteps<P>(m: Memory<P>, head: P, a: P, b: P)
    requires CanSwap(m, head, a, b)
    ensures a in m && b in m && a in LinksSwapped(m, head, a, b) && b in LinksSwapped(m, head, a, b)
    ensures var m3 := LinksSwapped(m, head, a, b);
      && m3[a].col == m[a].col && m3[b].col == m[b].col
      && m3[a := m3[a].(col := m[b].col)][b := m3[b].(col := m[a].col)] ==
         map n | n in m :: SwappedCell(m, head, a, b, n)
  {
    hide CanSwap, LinksSwapped, SwappedCell;
    LinksSwappedEnds(m, head, a, b);
    SwappedColors(m, head, a, b);
    LinksSwappedKeys(m, head, a, b);
    forall n | n in m && n != a && n != b
      ensures n in LinksSwapped(m, head, a, b) && LinksSwapped(m, head, a, b)[n] == SwappedCell(m, head, a, b, n)
    {
      LinksSwappedRest(m, head, a, b, n);
    }
  }

  lemma SwappedColors<P>(m: Memory<P>, head: P, a: P, b: P)
    requires CanSwap(m, head, a, b)
    ensures a in m && b in m && SwappedCell(m, head, a, b, a).col == m[b].col &&
            SwappedCell(m, head, a, b, b).col == m[a].col
  {
  }

  lemma CanSwapInside<P>(m: Memory<P>, head: P, order: seq<P>, lab: map<P, Label>, a: P, b: P)
    requires IsTree(m, head, order, lab) && a in lab && b in lab && a != b
    requires lab[a].lo <= lab[b].lo && lab[b].hi <= lab[a].hi
    ensures CanSwap(m, head, a, b)
  {
    hide NodeOk, OrderOk, RootOk;
    PickLinks(m, head, order, lab, a);
    PickLinks(m, head, order, lab, b);
    CanSwapBelow(m, head, order, lab, a, b);
  }

  lemma LinksSwappedIs<P>(m: Memory<P>, head: P, a: P, b: P)
    requires CanSwap(m, head, a, b)
    ensures Below(m, head, a, b) && a in m && b in m && m[a].par in m && m[b].par in m
    ensures var m1 := ParentsSwapped(m, head, a, b);
      && CanSwapKids(m1, head, a, b, Left)
      && var m2 := KidsSwapped(m1, head, a, b, Left);
      && CanSwapKids(m2, head, a, b, Right)
      && LinksSwapped(m, head, a, b) == KidsSwapped(m2, head, a, b, Right)
  {
    SwapReady(m, head, a, b);
    hide CanSwapKids, ParentsSwapped, KidsSwapped, Linked;
  }
}
