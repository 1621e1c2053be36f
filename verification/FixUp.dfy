/** The loop invariants of `_insert` and `_destroy` and what each step of their fix-up loops does to them. */
module FixUp {
  import opened TreeMemory
  import opened RedBlack
  import opened Sequences

  ghost predicate RootBlack<P>(m: Memory<P>, head: P) {
    head in m && m[head].par in m && m[m[head].par].col == Black
  }

  /** The red-black laws for the whole tree. */
  ghost predicate RedBlackTree<P>(m: Memory<P>, head: P, order: seq<P>, lab: map<P, Label>, bh: map<P, int>) {
    && IsTree(m, head, order, lab)
    && Colored(m, head, lab, bh, Nowhere, Nowhere, Nowhere)
    && RootBlack(m, head)
  }

  lemma Pick<P>(m: Memory<P>, head: P, order: seq<P>, lab: map<P, Label>, bh: map<P, int>, short: Mark<P>,
                gone: Mark<P>, exempt: Mark<P>, n: P)
    requires IsTree(m, head, order, lab) && Colored(m, head, lab, bh, short, gone, exempt) && n in lab
    ensures NodeOk(m, head, order, lab, n) && ColorOk(m, bh, short, gone, exempt, n)
    ensures n in m && n in bh && n != head && head in m && head !in lab && HeadBlack(m, head, bh)
    ensures m[n].left in m && m[n].right in m && m[n].par in m && Linked(m, head, n)
    ensures m[n].left == head || m[n].left in lab
    ensures m[n].right == head || m[n].right in lab
    ensures m[n].par == head || m[n].par in lab
    ensures m[n].par == head <==> n == m[head].par
    ensures m[n].par != head ==> m[m[n].par].left == n || m[m[n].par].right == n
  {
    hide NodeOk, ColorOk, OrderOk, HeadBlack, RootOk;
    assert NodeOk(m, head, order, lab, n);
    RootFacts(m, head, order, lab);
    NodeIsLinked(m, head, order, lab, n);
    PickLinks(m, head, order, lab, n);
  }

  lemma PickLinks<P>(m: Memory<P>, head: P, order: seq<P>, lab: map<P, Label>, n: P)
    requires NodeOk(m, head, order, lab, n) && RootOk(m, head, order, lab)
    ensures n in m && n != head && m[n].left in m && m[n].right in m && m[n].par in m
    ensures m[n].left == head || m[n].left in lab
    ensures m[n].right == head || m[n].right in lab
    ensures m[n].par == head || m[n].par in lab
    ensures m[n].par == head <==> n == m[head].par
    ensures m[n].par != head ==> m[m[n].par].left == n || m[m[n].par].right == n
  {
  }

  /** What a rotation of x towards s reads and writes: x, the promoted y, y's inner subtree b and x's parent p. */
  ghost predicate CanRotate<P>(m: Memory<P>, head: P, x: P, s: Side) {
    && head in m && x in m && m[x].par in m && Kid(m, x, Other(s)) in m && Kid(m, Kid(m, x, Other(s)), s) in m
    && var p, y, b := m[x].par, Kid(m, x, Other(s)), Kid(m, Kid(m, x, Other(s)), s);
    && x != head && y != head && x != y && b != x && b != y && p != x && p != y && (b == p ==> b == head)
    && (p == head <==> m[head].par == x)
    && (p != head ==> (m[p].left == x <==> m[p].right != x))
  }

  lemma RotateReady<P>(m: Memory<P>, head: P, order: seq<P>, lab: map<P, Label>, x: P, s: Side)
    requires IsTree(m, head, order, lab) && x in lab && x in m && Kid(m, x, Other(s)) in lab
    ensures CanRotate(m, head, x, s)
  {
    hide NodeOk, RootOk, OrderOk;
    var y := Kid(m, x, Other(s));
    PickLinks(m, head, order, lab, x);
    PickLinks(m, head, order, lab, y);
    RootFacts(m, head, order, lab);
    assert m[x].par != head ==> NodeOk(m, head, order, lab, m[x].par);
    assert Kid(m, y, s) != head ==> NodeOk(m, head, order, lab, Kid(m, y, s));
    RotateDistinct(m, head, order, lab, x, s);
  }

  lemma RotateDistinct<P>(m: Memory<P>, head: P, order: seq<P>, lab: map<P, Label>, x: P, s: Side)
    requires NodeOk(m, head, order, lab, x) && Kid(m, x, Other(s)) in lab &&
             NodeOk(m, head, order, lab, Kid(m, x, Other(s)))
    requires RootOk(m, head, order, lab)
    requires m[x].par != head ==> NodeOk(m, head, order, lab, m[x].par)
    requires var b := Kid(m, Kid(m, x, Other(s)), s); b != head ==> NodeOk(m, head, order, lab, b)
    ensures CanRotate(m, head, x, s)
  {
  }

  lemma PaintCanRotate<P>(m: Memory<P>, head: P, x: P, s: Side, n: P, c: Color)
    requires CanRotate(m, head, x, s) && n in m
    ensures CanRotate(Paint(m, n, c), head, x, s)
  {
  }

  lemma PaintEnds<P>(m: Memory<P>, head: P, n: P, c: Color)
    requires head in m && n in m
    ensures head in Paint(m, n, c) && Paint(m, n, c)[head].left == m[head].left &&
            Paint(m, n, c)[head].right == m[head].right
  {
  }

  lemma RotateEnds<P>(m: Memory<P>, head: P, x: P, s: Side)
    requires CanRotate(m, head, x, s)
    ensures head in Rotate(m, head, x, s)
    ensures Rotate(m, head, x, s)[head].left == m[head].left && Rotate(m, head, x, s)[head].right == m[head].right
  {
    RotateCell(m, head, x, s, Kid(m, x, Other(s)), head);
    hide Rotate;
  }

  // Insertion

  ghost predicate SiblingBlack<P>(m: Memory<P>, t: P) {
    && t in m && m[t].par in m
    && var p := m[t].par;
      m[p].left in m && m[p].right in m
      && (m[p].left == t ==> m[m[p].right].col == Black)
      && (m[p].right == t ==> m[m[p].left].col == Black)
  }

  /** The insertion loop: t is red and may have a red parent; every other law holds, a red root is t itself. */
  ghost predicate InsertInv<P>(m: Memory<P>, head: P, order: seq<P>, lab: map<P, Label>, bh: map<P, int>, t: P) {
    && IsTree(m, head, order, lab)
    && t in lab && t in m && m[t].col == Red && m[t].par in m
    && Colored(m, head, lab, bh, Nowhere, Nowhere, At(m[t].par))
    && (m[m[t].par].col == Red ==> SiblingBlack(m, t))
    && head in m && m[head].par in m && (m[m[head].par].col == Red ==> m[head].par == t)
  }

  /** With a red parent there is a black grandparent in the tree. */
  lemma InsertFacts<P>(m: Memory<P>, head: P, order: seq<P>, lab: map<P, Label>, bh: map<P, int>, t: P)
    requires InsertInv(m, head, order, lab, bh, t) && m[m[t].par].col == Red
    ensures var p := m[t].par;
      && p in lab && p != head && p != m[head].par && p != t && m[p].par in lab && m[p].par in m && m[p].par != head
      && m[m[p].par].col == Black
      && m[m[p].par].left in m && m[m[p].par].right in m && m[p].left in m && m[p].right in m
      && (m[m[p].par].left == p || m[m[p].par].right == p) && (m[p].left == t || m[p].right == t)
      && (m[m[m[p].par].left].col == Red ==> m[m[p].par].left in lab)
      && (m[m[m[p].par].right].col == Red ==> m[m[p].par].right in lab)
      && m[m[p].par].left != m[m[p].par].right && m[p].left != m[p].right
      && lab[p].hi - lab[p].lo > lab[t].hi - lab[t].lo
      && lab[m[p].par].hi - lab[m[p].par].lo > lab[p].hi - lab[p].lo
  {
    hide NodeOk, ColorOk, OrderOk, HeadBlack, RootOk, SiblingBlack;
    var p := m[t].par;
    Pick(m, head, order, lab, bh, Nowhere, Nowhere, At(p), t);
    HeadFact(m, head, bh);
    Pick(m, head, order, lab, bh, Nowhere, Nowhere, At(p), p);
    var g := m[p].par;
    Pick(m, head, order, lab, bh, Nowhere, Nowhere, At(p), g);
    KidSpan(m, head, order, lab, t);
    KidSpan(m, head, order, lab, p);
    RedFact(m, bh, p, g);
  }

  lemma HeadFact<P>(m: Memory<P>, head: P, bh: map<P, int>)
    requires HeadBlack(m, head, bh)
    ensures head in m && m[head].col == Black && head in bh && bh[head] == 0
  {
  }

  lemma RedFact<P>(m: Memory<P>, bh: map<P, int>, p: P, g: P)
    requires ColorOk(m, bh, Nowhere, Nowhere, At(p), g) && p != g && p in m && m[p].col == Red
    requires g in m && (m[g].left == p || m[g].right == p)
    ensures m[g].col == Black
  {
  }

  lemma KidSpan<P>(m: Memory<P>, head: P, order: seq<P>, lab: map<P, Label>, n: P)
    requires NodeOk(m, head, order, lab, n) && head !in lab && m[n].par in lab && NodeOk(m, head, order, lab, m[n].par)
    ensures var p := m[n].par;
      && p in m && p != n && (m[p].left == n || m[p].right == n) && m[p].left != m[p].right
      && lab[p].hi - lab[p].lo > lab[n].hi - lab[n].lo && lab[n].hi - lab[n].lo > 0
      && lab[p].lo <= lab[n].lo && lab[n].hi <= lab[p].hi <= |order| && 0 <= lab[p].lo
  {
  }

  lemma SiblingOfBlackOk<P>(m: Memory<P>, bh: map<P, int>, exempt: Mark<P>, g: P)
    requires g in m && m[g].par in m && ColorOk(m, bh, Nowhere, Nowhere, exempt, m[g].par) && exempt != At(m[g].par)
    requires m[m[g].par].col == Red
    ensures SiblingBlack(m, g)
  {
  }

  lemma InsertFlip<P>(m: Memory<P>, head: P, order: seq<P>, lab: map<P, Label>, bh: map<P, int>, t: P, s: Side)
    requires InsertInv(m, head, order, lab, bh, t) && m[m[t].par].col == Red
    requires var p := m[t].par;
      && m[p].par in m && p == Kid(m, m[p].par, s)
      && Kid(m, m[p].par, Other(s)) in m && m[Kid(m, m[p].par, Other(s))].col == Red
    ensures var p, g, u := m[t].par, m[m[t].par].par, Kid(m, m[m[t].par].par, Other(s));
      && p in bh && u in bh && InsertInv(Flip(m, g, p, u), head, order, lab, FlipHeights(bh, p, u), g)
      && g in lab && lab[g].hi - lab[g].lo > lab[t].hi - lab[t].lo
  {
    hide NodeOk, ColorOk, OrderOk, HeadBlack, RootOk, SiblingBlack, Linked;
    InsertFacts(m, head, order, lab, bh, t);
    var p := m[t].par;
    var g := m[p].par;
    var u := Kid(m, g, Other(s));
    FlipAll(m, head, order, lab, bh, g, s);
    Pick(m, head, order, lab, bh, Nowhere, Nowhere, At(p), p);
    Pick(m, head, order, lab, bh, Nowhere, Nowhere, At(p), u);
    Pick(m, head, order, lab, bh, Nowhere, Nowhere, At(p), t);
    Pick(m, head, order, lab, bh, Nowhere, Nowhere, At(p), g);
    KidLinks(m, head, g, Left);
    KidLinks(m, head, g, Right);
    RootFacts(m, head, order, lab);
    HeadFact(m, head, bh);
    if m[g].par != head {
      Pick(m, head, order, lab, bh, Nowhere, Nowhere, At(p), m[g].par);
      KidSpan(m, head, order, lab, g);
      KidSpan(m, head, order, lab, p);
      KidSpan(m, head, order, lab, u);
      if m[m[g].par].col == Red {
        SiblingOfBlackOk(m, bh, At(p), g);
        FlipSibling(m, head, g, p, u);
      }
    }
  }

  lemma KidLinks<P>(m: Memory<P>, head: P, n: P, k: Side)
    requires Linked(m, head, n) && Kid(m, n, k) != head
    ensures Kid(m, n, k) in m && m[Kid(m, n, k)].par == n
  {
  }

  lemma FlipSibling<P>(m: Memory<P>, head: P, g: P, p: P, u: P)
    requires SiblingBlack(m, g) && p in m && u in m && m[p].par == g && m[u].par == g && p != g && u != g
    requires m[g].par != p && m[g].par != u && Linked(m, head, m[g].par) && m[g].par != g
    requires p != head && u != head && g != head
    ensures SiblingBlack(Flip(m, g, p, u), g)
  {
  }

  lemma InsertTurn<P>(m: Memory<P>, head: P, order: seq<P>, lab: map<P, Label>, bh: map<P, int>, t: P, s: Side)
    requires InsertInv(m, head, order, lab, bh, t) && m[m[t].par].col == Red
    requires var p := m[t].par;
      && m[p].par in m && p == Kid(m, m[p].par, s) && t == Kid(m, p, Other(s))
      && Kid(m, m[p].par, Other(s)) in m && m[Kid(m, m[p].par, Other(s))].col == Black
    ensures var p, g := m[t].par, m[m[t].par].par;
      && p in lab && InsertInv(Rotate(m, head, p, s), head, order, RotateLabels(m, lab, p, s), bh, p)
      && var m' := Rotate(m, head, p, s);
        && m'[p].par == t && t in m' && m'[t].par == g && g in m' && Kid(m', g, s) == t && Kid(m', t, s) == p
        && Kid(m', g, Other(s)) == Kid(m, g, Other(s)) && Kid(m', g, Other(s)) in m' &&
           m'[Kid(m', g, Other(s))].col == Black
        && m'[t].col == Red
        && lab[g] == RotateLabels(m, lab, p, s)[g]
  {
    hide NodeOk, ColorOk, OrderOk, HeadBlack, RootOk, Linked, Rotate, Colored, IsTree, SiblingBlack;
    InsertFacts(m, head, order, lab, bh, t);
    var p := m[t].par;
    var g := m[p].par;
    var u := Kid(m, g, Other(s));
    InsertTurnCells(m, head, order, lab, bh, t, s);
    SiblingFact(m, t, s);
    TurnAll(m, head, order, lab, bh, p, t, s);
  }

  lemma SiblingFact<P>(m: Memory<P>, t: P, s: Side)
    requires SiblingBlack(m, t) && t == Kid(m, m[t].par, Other(s)) && m[m[t].par].left != m[m[t].par].right
    ensures Kid(m, m[t].par, s) in m && m[Kid(m, m[t].par, s)].col == Black
  {
  }

  lemma InsertTurnCells<P>(m: Memory<P>, head: P, order: seq<P>, lab: map<P, Label>, bh: map<P, int>, t: P, s: Side)
    requires InsertInv(m, head, order, lab, bh, t) && m[m[t].par].col == Red
    requires var p := m[t].par;
      && m[p].par in m && p == Kid(m, m[p].par, s) && t == Kid(m, p, Other(s))
      && Kid(m, m[p].par, Other(s)) in m && m[Kid(m, m[p].par, Other(s))].col == Black
    ensures head in m
    ensures var p, g, m' := m[t].par, m[m[t].par].par, Rotate(m, head, m[t].par, s);
      && head in m' && p in m' && t in m' && g in m' && Kid(m', g, Other(s)) in m'
      && m'[p].par == t && m'[t].par == g && Kid(m', g, s) == t && Kid(m', t, s) == p
      && Kid(m', g, Other(s)) == Kid(m, g, Other(s)) && m'[Kid(m', g, Other(s))].col == Black
      && m'[t].col == Red && m'[p].col == Red
      && SiblingBlack(m', p)
      && m'[head].par in m' && m'[m'[head].par].col == Black
  {
    hide NodeOk, ColorOk, OrderOk, HeadBlack, RootOk, Linked, Rotate, Colored, IsTree;
    InsertFacts(m, head, order, lab, bh, t);
    var p := m[t].par;
    var g := m[p].par;
    Pick(m, head, order, lab, bh, Nowhere, Nowhere, At(p), t);
    Pick(m, head, order, lab, bh, Nowhere, Nowhere, At(p), p);
    Pick(m, head, order, lab, bh, Nowhere, Nowhere, At(p), g);
    RotateCell(m, head, p, s, t, p);
    RotateCell(m, head, p, s, t, t);
    RotateCell(m, head, p, s, t, g);
    RotateCell(m, head, p, s, t, head);
    RotateCell(m, head, p, s, t, Kid(m, g, Other(s)));
    RotateCell(m, head, p, s, t, m[head].par);
    RotateCell(m, head, p, s, t, Kid(m, t, Other(s)));
    RedKids(m, bh, At(p), t);
    GrandFacts(m, head, order, lab, p, s, t, g);
  }

  lemma RedKids<P>(m: Memory<P>, bh: map<P, int>, exempt: Mark<P>, t: P)
    requires ColorOk(m, bh, Nowhere, Nowhere, exempt, t) && exempt != At(t) && t in m && m[t].col == Red
    ensures m[t].left in m && m[t].right in m && m[m[t].left].col == Black && m[m[t].right].col == Black
  {
  }

  lemma GrandFacts<P>(m: Memory<P>, head: P, order: seq<P>, lab: map<P, Label>, p: P, s: Side, t: P, g: P)
    requires NodeOk(m, head, order, lab, p) && NodeOk(m, head, order, lab, t) && NodeOk(m, head, order, lab, g) &&
             head !in lab
    requires t == Kid(m, p, Other(s)) && p == Kid(m, g, s)
    ensures g != p && g != t && p != t && Kid(m, g, Other(s)) != t && Kid(m, g, Other(s)) != p && m[t].par == p &&
            m[p].par == g
  {
  }

  lemma Relax<P>(m: Memory<P>, head: P, lab: map<P, Label>, bh: map<P, int>, short: Mark<P>, gone: Mark<P>,
                 exempt: Mark<P>)
    requires Colored(m, head, lab, bh, short, gone, Nowhere)
    ensures Colored(m, head, lab, bh, short, gone, exempt)
  {
    hide BlackOk, RedOk, HeadBlack;
    assert forall n :: n in lab ==> ColorOk(m, bh, short, gone, Nowhere, n);
  }

  lemma InsertLine<P>(m: Memory<P>, head: P, order: seq<P>, lab: map<P, Label>, bh: map<P, int>, t: P, s: Side)
    requires InsertInv(m, head, order, lab, bh, t) && m[m[t].par].col == Red
    requires var p := m[t].par;
      && m[p].par in m && p == Kid(m, m[p].par, s) && t == Kid(m, p, s)
      && Kid(m, m[p].par, Other(s)) in m && m[Kid(m, m[p].par, Other(s))].col == Black
    ensures var p, g := m[t].par, m[m[t].par].par;
      && head in m && g in lab && p in lab && p in bh && g in bh
      && var m' := Promote(m, head, g, Other(s));
        && InsertInv(m', head, order, RotateLabels(m, lab, g, Other(s)), SwapLabels(bh, g, p), t)
        && m'[m'[t].par].col == Black
  {
    hide NodeOk, ColorOk, OrderOk, HeadBlack, RootOk, Linked, Promote, Colored, IsTree, SiblingBlack;
    InsertFacts(m, head, order, lab, bh, t);
    var p := m[t].par;
    var g := m[p].par;
    InsertLineCells(m, head, order, lab, bh, t, s);
    PromoteAll(m, head, order, lab, bh, Nowhere, Nowhere, At(p), g, p, Other(s));
    Relax(Promote(m, head, g, Other(s)), head, RotateLabels(m, lab, g, Other(s)), SwapLabels(bh, g, p), Nowhere,
      Nowhere, At(p));
  }

  lemma InsertLineCells<P>(m: Memory<P>, head: P, order: seq<P>, lab: map<P, Label>, bh: map<P, int>, t: P, s: Side)
    requires InsertInv(m, head, order, lab, bh, t) && m[m[t].par].col == Red
    requires var p := m[t].par;
      && m[p].par in m && p == Kid(m, m[p].par, s) && t == Kid(m, p, s)
    ensures head in m
    ensures var p, g, m' := m[t].par, m[m[t].par].par, Promote(m, head, m[m[t].par].par, Other(s));
      && p in m' && t in m' && head in m' && m'[t].par == p && m'[t].col == Red && m'[p].col == Black
      && m'[head].par in m' && m'[m'[head].par].col == Black
      && Kid(m, p, Other(s)) in m && m[Kid(m, p, Other(s))].col == Black
      && p in bh && g in bh
  {
    hide NodeOk, ColorOk, OrderOk, HeadBlack, RootOk, Promote, Colored, IsTree;
    InsertFacts(m, head, order, lab, bh, t);
    var p := m[t].par;
    var g := m[p].par;
    Pick(m, head, order, lab, bh, Nowhere, Nowhere, At(p), t);
    Pick(m, head, order, lab, bh, Nowhere, Nowhere, At(p), p);
    Pick(m, head, order, lab, bh, Nowhere, Nowhere, At(p), g);
    GrandFacts2(m, head, order, lab, p, s, t, g);
    PromoteCell(m, head, g, p, Other(s), p, s);
    PromoteCell(m, head, g, p, Other(s), t, s);
    PromoteCell(m, head, g, p, Other(s), head, s);
    PromoteCell(m, head, g, p, Other(s), m[head].par, s);
  }

  lemma GrandFacts2<P>(m: Memory<P>, head: P, order: seq<P>, lab: map<P, Label>, p: P, s: Side, t: P, g: P)
    requires NodeOk(m, head, order, lab, p) && NodeOk(m, head, order, lab, t) && NodeOk(m, head, order, lab, g) &&
             head !in lab
    requires t == Kid(m, p, s) && p == Kid(m, g, s)
    ensures g != p && g != t && p != t && Kid(m, p, Other(s)) != t && m[t].par == p && m[p].par == g
  {
  }

  // Painting one node black ends both loops

  ghost function Blackened<P>(m: Memory<P>, bh: map<P, int>, x: P): map<P, int>
    requires x in m && x in bh
  {
    if m[x].col == Red then bh[x := bh[x] + 1] else bh
  }

  /** Once x is black nothing is short and nothing exempt, if x carried the shortage away or has no parent. */
  ghost predicate CanBlacken<P>(m: Memory<P>, head: P, short: Mark<P>, gone: Mark<P>, exempt: Mark<P>, x: P) {
    && x in m && x != head
    && (m[x].col == Red ==> gone != At(x))
    && ((short == At(x) && m[x].col == Red) || ((short == At(x) || short == Nowhere) && m[x].par == head))
    && (exempt != Nowhere ==> exempt.node in m && (exempt.node == x || m[exempt.node].col == Black))
  }

  lemma BlackenColor<P>(m: Memory<P>, head: P, bh: map<P, int>, short: Mark<P>, gone: Mark<P>, exempt: Mark<P>, x: P,
                        n: P)
    requires Linked(m, head, n) && n != head && x in bh && CanBlacken(m, head, short, gone, exempt, x)
    requires ColorOk(m, bh, short, gone, exempt, n)
    ensures ColorOk(Paint(m, x, Black), Blackened(m, bh, x), Nowhere, gone, Nowhere, n)
  {
  }

  lemma BlackenAll<P>(m: Memory<P>, head: P, order: seq<P>, lab: map<P, Label>, bh: map<P, int>, short: Mark<P>,
                      gone: Mark<P>, exempt: Mark<P>, x: P)
    requires IsTree(m, head, order, lab) && Colored(m, head, lab, bh, short, gone, exempt)
    requires x in lab && CanBlacken(m, head, short, gone, exempt, x)
    ensures x in bh && IsTree(Paint(m, x, Black), head, order, lab)
    ensures Colored(Paint(m, x, Black), head, lab, Blackened(m, bh, x), Nowhere, gone, Nowhere)
  {
    hide NodeOk, ColorOk, OrderOk, Linked, RootOk;
    PaintTree(m, head, order, lab, x, Black);
    forall n | n in lab ensures ColorOk(Paint(m, x, Black), Blackened(m, bh, x), Nowhere, gone, Nowhere, n) {
      Pick(m, head, order, lab, bh, short, gone, exempt, n);
      BlackenColor(m, head, bh, short, gone, exempt, x, n);
    }
  }

  lemma InsertDone<P>(m: Memory<P>, head: P, order: seq<P>, lab: map<P, Label>, bh: map<P, int>, t: P)
    requires InsertInv(m, head, order, lab, bh, t) && m[m[t].par].col == Black
    ensures m[head].par in bh
    ensures RedBlackTree(Paint(m, m[head].par, Black), head, order, lab, Blackened(m, bh, m[head].par))
  {
    hide NodeOk, ColorOk, OrderOk, Linked, HeadBlack;
    Pick(m, head, order, lab, bh, Nowhere, Nowhere, At(m[t].par), t);
    NotEmpty(m, head, order, lab, t);
    Pick(m, head, order, lab, bh, Nowhere, Nowhere, At(m[t].par), m[head].par);
    BlackenAll(m, head, order, lab, bh, Nowhere, Nowhere, At(m[t].par), m[head].par);
  }

  lemma NotEmpty<P>(m: Memory<P>, head: P, order: seq<P>, lab: map<P, Label>, n: P)
    requires NodeOk(m, head, order, lab, n) && RootOk(m, head, order, lab)
    ensures |order| > 0 && m[head].par in lab && m[head].par != head
  {
  }

  // Erasure

  /** The erase loop: a tree whose subtree at fix is one black node short of what its parent expects. */
  ghost predicate EraseInv<P>(m: Memory<P>, head: P, order: seq<P>, lab: map<P, Label>, bh: map<P, int>, fix: P, v: P) {
    && IsTree(m, head, order, lab)
    && ShortAt(m, head, lab, bh, fix, v)
    && RootBlack(m, head)
    && fix in m && v in m && m[v].col == Black
  }

  /** A short subtree that is not the root has a sibling subtree that is not empty. */
  lemma EraseFacts<P>(m: Memory<P>, head: P, order: seq<P>, lab: map<P, Label>, bh: map<P, int>, fix: P, v: P, s: Side)
    requires EraseInv(m, head, order, lab, bh, fix, v) && fix != m[head].par
    requires m[fix].par in m && Kid(m, m[fix].par, s) == fix
    ensures var p := m[fix].par;
      && p in lab && p != head && p in bh
      && var w := Kid(m, p, Other(s));
        && w in lab && w != head && w in m && w in bh && m[w].left in m && m[w].right in m && m[w].par == p
        && (m[p].col == Red ==> m[w].col == Black)
        && (m[w].col == Red ==>
            && m[w].left in lab && m[w].right in lab && m[m[w].left].col == Black && m[m[w].right].col == Black)
        && (m[m[w].left].col == Red ==> m[w].left in lab)
        && (m[m[w].right].col == Red ==> m[w].right in lab)
        && w != fix && p != fix && p != w && v != w && v != p && v != m[w].left && v != m[w].right
        && lab[p].lo <= lab[v].pos < lab[p].hi && lab[p].hi <= |order| && 0 <= lab[p].lo
        && lab[p].hi - lab[p].lo > lab[fix].hi - lab[fix].lo
  {
    hide NodeOk, ColorOk, OrderOk, HeadBlack, RootOk, Linked;
    var p := m[fix].par;
    var w := Kid(m, p, Other(s));
    Pick(m, head, order, lab, bh, At(fix), At(v), At(fix), fix);
    Pick(m, head, order, lab, bh, At(fix), At(v), At(fix), p);
    Pick(m, head, order, lab, bh, At(fix), At(v), At(fix), v);
    HeadFact(m, head, bh);
    KidSpan(m, head, order, lab, fix);
    SiblingHeight(m, head, order, lab, bh, fix, p, w, s, v);
    Pick(m, head, order, lab, bh, At(fix), At(v), At(fix), w);
    AwayFromVictim(m, head, order, lab, p, s, v);
    KidIsNoParent(m, head, order, lab, p, Other(s));
    KidLinks(m, head, p, Other(s));
    NephewFacts(m, head, bh, fix, p, w, v, s);
  }

  lemma SiblingHeight<P>(m: Memory<P>, head: P, order: seq<P>, lab: map<P, Label>, bh: map<P, int>, fix: P, p: P, w: P,
                         s: Side, v: P)
    requires NodeOk(m, head, order, lab, p) && ColorOk(m, bh, At(fix), At(v), At(fix), p) && fix in lab
    requires fix == Kid(m, p, s) && w == Kid(m, p, Other(s)) && fix in bh && 0 <= bh[fix] && head in bh &&
             bh[head] == 0 && head !in lab
    requires v in lab && lab[fix].lo <= lab[v].pos < lab[fix].hi
    ensures w in lab && w in bh && bh[w] == bh[fix] + 1 && w != fix && p != v && w != head
  {
  }

  lemma NephewFacts<P>(m: Memory<P>, head: P, bh: map<P, int>, fix: P, p: P, w: P, v: P, s: Side)
    requires ColorOk(m, bh, At(fix), At(v), At(fix), w) && ColorOk(m, bh, At(fix), At(v), At(fix), p)
    requires Linked(m, head, w) && fix in bh && 0 <= bh[fix] && w in bh && bh[w] == bh[fix] + 1 && w != v &&
             w != fix && p != fix
    requires p in m && w == Kid(m, p, Other(s)) && head in bh && bh[head] == 0 && w != head && fix in m &&
             m[fix].par == p
    requires m[w].par == p && head in m && m[head].col == Black && fix != head
    ensures m[p].col == Red ==> m[w].col == Black
    ensures m[w].col == Red ==>
      && m[w].left != head && m[w].right != head && m[m[w].left].col == Black && m[m[w].right].col == Black
  {
  }

  lemma EraseSink<P>(m: Memory<P>, head: P, order: seq<P>, lab: map<P, Label>, bh: map<P, int>, fix: P, v: P, s: Side)
    requires EraseInv(m, head, order, lab, bh, fix, v) && fix != m[head].par && m[fix].col == Black
    requires m[fix].par in m && Kid(m, m[fix].par, s) == fix
    requires var w := Kid(m, m[fix].par, Other(s));
      && w in m && m[w].left in m && m[w].right in m
      && m[w].col == Black && m[m[w].left].col == Black && m[m[w].right].col == Black
    ensures var p := m[fix].par;
      var w := Kid(m, p, Other(s));
      && p in bh && w in bh && EraseInv(Paint(m, w, Red), head, order, lab, SinkHeights(bh, w, p), p, v)
      && p in lab && fix in lab && lab[p].hi - lab[p].lo > lab[fix].hi - lab[fix].lo
  {
    hide NodeOk, ColorOk, OrderOk, RootOk, Linked;
    EraseFacts(m, head, order, lab, bh, fix, v, s);
    SinkAll(m, head, order, lab, bh, m[fix].par, s, v);
    Pick(m, head, order, lab, bh, At(fix), At(v), At(fix), Kid(m, m[fix].par, Other(s)));
  }

  /** What promoting the red child kid of the black node top leaves around the short subtree. */
  lemma EraseKeep<P>(m: Memory<P>, head: P, order: seq<P>, lab: map<P, Label>, bh: map<P, int>, fix: P, v: P, top: P,
                     kid: P, s: Side)
    requires EraseInv(m, head, order, lab, bh, fix, v)
    requires top in lab && kid in lab && top in m && kid in m && kid == Kid(m, top, Other(s)) && kid != top
    requires top != head && kid != head && m[kid].par == top && fix != head && v != head
    requires top != fix && kid != fix && top != v && kid != v && top in bh && kid in bh
    requires m[top].left in m && m[top].right in m && m[kid].left in m && m[kid].right in m
    requires m[top].col == Black && m[kid].col == Red && m[Kid(m, top, s)].col == Black &&
             m[Kid(m, kid, s)].col == Black
    ensures head in m &&
            EraseInv(Promote(m, head, top, s), head, order, RotateLabels(m, lab, top, s), SwapLabels(bh, top, kid), fix,
              v)
    ensures RotateLabels(m, lab, top, s)[fix] == lab[fix] && Promote(m, head, top, s)[fix].col == m[fix].col
  {
    hide NodeOk, ColorOk, OrderOk, HeadBlack, RootOk, Linked, Promote;
    PromoteAll(m, head, order, lab, bh, At(fix), At(v), At(fix), top, kid, s);
    EraseKeepCells(m, head, lab, bh, fix, v, top, kid, s);
  }

  lemma EraseKeepCells<P>(m: Memory<P>, head: P, lab: map<P, Label>, bh: map<P, int>, fix: P, v: P, top: P, kid: P,
                          s: Side)
    requires top in m && kid in m && kid == Kid(m, top, Other(s)) && RootBlack(m, head) && kid != top &&
             m[kid].par == top
    requires top != fix && kid != fix && top != v && kid != v && fix in m && v in m && top != head && kid != head
    requires m[v].left == head == m[v].right && m[v].col == Black && v != head && fix != head && m[top].col == Black
    ensures var m' := Promote(m, head, top, s);
      && RootBlack(m', head) && fix in m' && v in m' && m'[v].col == Black && m'[v].left == head == m'[v].right
      && m'[fix].col == m[fix].col
  {
    hide Promote;
    PromoteCell(m, head, top, kid, s, fix, Left);
    PromoteCell(m, head, top, kid, s, v, Left);
    PromoteCell(m, head, top, kid, s, v, Right);
    PromoteCell(m, head, top, kid, s, head, Left);
    PromoteCell(m, head, top, kid, s, kid, Left);
    PromoteCell(m, head, top, kid, s, m[head].par, Left);
  }

  lemma EraseRedSibling<P>(m: Memory<P>, head: P, order: seq<P>, lab: map<P, Label>, bh: map<P, int>, fix: P, v: P,
                           s: Side)
    requires EraseInv(m, head, order, lab, bh, fix, v) && fix != m[head].par && m[fix].col == Black
    requires m[fix].par in m && Kid(m, m[fix].par, s) == fix
    requires var w := Kid(m, m[fix].par, Other(s)); w in m && m[w].col == Red
    ensures var p := m[fix].par;
      && var w := Kid(m, p, Other(s));
      && p in lab && w in lab && p in bh && w in bh && p != head
      && var m', lab' := Promote(m, head, p, s), RotateLabels(m, lab, p, s);
      && EraseInv(m', head, order, lab', SwapLabels(bh, p, w), fix, v)
      && m'[fix].par == p && p in m' && Kid(m', p, s) == fix && m'[fix].col == Black && lab'[fix] == lab[fix]
      && m'[head].par != fix
      && Kid(m', p, Other(s)) in m' && m'[Kid(m', p, Other(s))].col == Black
  {
    hide NodeOk, ColorOk, OrderOk, HeadBlack, RootOk, Linked, Promote, Colored, IsTree;
    EraseFacts(m, head, order, lab, bh, fix, v, s);
    var p := m[fix].par;
    var w := Kid(m, p, Other(s));
    RootPicked(m, head, order, lab, bh, fix, v);
    EraseKeep(m, head, order, lab, bh, fix, v, p, w, s);
    PromoteCell(m, head, p, w, s, fix, s);
    PromoteCell(m, head, p, w, s, head, s);
    PromoteCell(m, head, p, w, s, p, s);
    PromoteCell(m, head, p, w, s, p, Other(s));
    PromoteCell(m, head, p, w, s, Kid(m, w, s), s);
    RedSiblingNephew(m, head, order, lab, bh, fix, v, p, w, s);
  }

  lemma RootPicked<P>(m: Memory<P>, head: P, order: seq<P>, lab: map<P, Label>, bh: map<P, int>, fix: P, v: P)
    requires EraseInv(m, head, order, lab, bh, fix, v)
    ensures fix != head && v != head && head in m && m[head].par != head
    ensures m[fix].par == head <==> m[head].par == fix
  {
    hide NodeOk, ColorOk, OrderOk, HeadBlack, Linked;
    Pick(m, head, order, lab, bh, At(fix), At(v), At(fix), fix);
    Pick(m, head, order, lab, bh, At(fix), At(v), At(fix), v);
    NotEmpty(m, head, order, lab, v);
  }

  lemma RedSiblingNephew<P>(m: Memory<P>, head: P, order: seq<P>, lab: map<P, Label>, bh: map<P, int>, fix: P, v: P,
                            p: P, w: P, s: Side)
    requires EraseInv(m, head, order, lab, bh, fix, v) && p in lab && w in lab && p in m && w == Kid(m, p, Other(s)) &&
             w in m && w != p
    requires p != w && p != fix && w != fix && Kid(m, w, s) in lab
    ensures Kid(m, w, s) in m && Kid(m, w, s) != p && Kid(m, w, s) != w && m[p].par != w
  {
    hide ColorOk, OrderOk, HeadBlack, RootOk, Linked;
    assert NodeOk(m, head, order, lab, w) && NodeOk(m, head, order, lab, p) &&
           NodeOk(m, head, order, lab, Kid(m, w, s));
    RedSiblingDistinct(m, head, order, lab, p, w, s);
  }

  lemma RedSiblingDistinct<P>(m: Memory<P>, head: P, order: seq<P>, lab: map<P, Label>, p: P, w: P, s: Side)
    requires NodeOk(m, head, order, lab, p) && NodeOk(m, head, order, lab, w) && Kid(m, w, s) in lab && head !in lab
    requires NodeOk(m, head, order, lab, Kid(m, w, s)) && w == Kid(m, p, Other(s))
    ensures Kid(m, w, s) in m && Kid(m, w, s) != p && Kid(m, w, s) != w && m[p].par != w
  {
  }

  lemma EraseInner<P>(m: Memory<P>, head: P, order: seq<P>, lab: map<P, Label>, bh: map<P, int>, fix: P, v: P, s: Side)
    requires EraseInv(m, head, order, lab, bh, fix, v) && fix != m[head].par && m[fix].col == Black
    requires m[fix].par in m && Kid(m, m[fix].par, s) == fix
    requires var w := Kid(m, m[fix].par, Other(s));
      && w in m && m[w].col == Black && m[w].left in m && m[w].right in m
      && m[Kid(m, w, Other(s))].col == Black && m[Kid(m, w, s)].col == Red
    ensures var p := m[fix].par;
      && var w := Kid(m, p, Other(s));
      && var z := Kid(m, w, s);
      && w in lab && z in lab && w in bh && z in bh
      && var m', lab' := Promote(m, head, w, Other(s)), RotateLabels(m, lab, w, Other(s));
      && EraseInv(m', head, order, lab', SwapLabels(bh, w, z), fix, v)
      && m'[fix].par == p && p in m' && Kid(m', p, s) == fix && m'[fix].col == Black && m'[head].par != fix
      && Kid(m', p, Other(s)) == z && z in m' && m'[z].col == Black && Kid(m', z, Other(s)) == w && m'[w].col == Red
  {
    hide NodeOk, ColorOk, OrderOk, HeadBlack, RootOk, Linked, Promote, Colored, IsTree;
    EraseFacts(m, head, order, lab, bh, fix, v, s);
    var p := m[fix].par;
    var w := Kid(m, p, Other(s));
    var z := Kid(m, w, s);
    RootPicked(m, head, order, lab, bh, fix, v);
    InnerFacts(m, head, order, lab, bh, fix, v, p, w, z, s);
    EraseKeep(m, head, order, lab, bh, fix, v, w, z, Other(s));
    PromoteCell(m, head, w, z, Other(s), fix, s);
    PromoteCell(m, head, w, z, Other(s), head, s);
    PromoteCell(m, head, w, z, Other(s), p, s);
    PromoteCell(m, head, w, z, Other(s), p, Other(s));
    PromoteCell(m, head, w, z, Other(s), z, Other(s));
    PromoteCell(m, head, w, z, Other(s), w, s);
  }

  lemma InnerFacts<P>(m: Memory<P>, head: P, order: seq<P>, lab: map<P, Label>, bh: map<P, int>, fix: P, v: P, p: P,
                      w: P, z: P, s: Side)
    requires EraseInv(m, head, order, lab, bh, fix, v) && p in lab && w in lab && p in m && w == Kid(m, p, Other(s)) &&
             w in m
    requires z == Kid(m, w, s) && z in lab && z in m && m[z].col == Red && fix == Kid(m, p, s) && p != head && w != head
    ensures z != head && z != p && z != w && z != fix && m[w].par == p && m[z].par == w && m[z].left in m &&
            m[z].right in m && z in bh
    ensures m[m[z].left].col == Black && m[m[z].right].col == Black && m[p].par != w && m[p].par != z
    ensures fix in m && m[fix].par == p && Kid(m, z, Other(s)) != fix
  {
    hide ColorOk, OrderOk, HeadBlack, RootOk, Linked, NodeOk;
    Pick(m, head, order, lab, bh, At(fix), At(v), At(fix), z);
    Pick(m, head, order, lab, bh, At(fix), At(v), At(fix), fix);
    Pick(m, head, order, lab, bh, At(fix), At(v), At(fix), w);
    Pick(m, head, order, lab, bh, At(fix), At(v), At(fix), p);
    RedSiblingDistinct(m, head, order, lab, p, w, s);
    KidLinks(m, head, p, s);
    KidLinks(m, head, p, Other(s));
    KidLinks(m, head, w, s);
    GrandKidPar(m, head, order, lab, p, w, z, s);
    FixNotNephew(m, head, order, lab, p, fix, w, z, s);
    RedKids2(m, bh, At(fix), At(v), At(fix), z);
    if Kid(m, z, Other(s)) != head { KidLinks(m, head, z, Other(s)); }
  }

  lemma RedKids2<P>(m: Memory<P>, bh: map<P, int>, short: Mark<P>, gone: Mark<P>, exempt: Mark<P>, t: P)
    requires ColorOk(m, bh, short, gone, exempt, t) && exempt != At(t) && t in m && m[t].col == Red
    ensures m[t].left in m && m[t].right in m && m[m[t].left].col == Black && m[m[t].right].col == Black
  {
  }

  lemma GrandKidPar<P>(m: Memory<P>, head: P, order: seq<P>, lab: map<P, Label>, p: P, w: P, z: P, s: Side)
    requires NodeOk(m, head, order, lab, p) && NodeOk(m, head, order, lab, w) && NodeOk(m, head, order, lab, z) &&
             head !in lab
    requires w == Kid(m, p, Other(s)) && z == Kid(m, w, s)
    ensures m[p].par != z
  {
  }

  lemma FixNotNephew<P>(m: Memory<P>, head: P, order: seq<P>, lab: map<P, Label>, p: P, fix: P, w: P, z: P, s: Side)
    requires NodeOk(m, head, order, lab, p) && NodeOk(m, head, order, lab, w) && head !in lab && fix in lab && z in lab
    requires fix == Kid(m, p, s) && w == Kid(m, p, Other(s)) && (z == m[w].left || z == m[w].right) && w != p
    ensures z != fix
  {
  }

  /** The leaf v can be cut off: the rest of the tree already obeys the laws without it. */
  ghost predicate Erasable<P>(m: Memory<P>, head: P, order: seq<P>, lab: map<P, Label>, bh: map<P, int>, v: P) {
    && IsTree(m, head, order, lab)
    && Colored(m, head, lab, bh, Nowhere, At(v), Nowhere)
    && RootBlack(m, head)
    && v in lab && v in m && m[v].left == head == m[v].right
  }

  lemma EraseOuter<P>(m: Memory<P>, head: P, order: seq<P>, lab: map<P, Label>, bh: map<P, int>, fix: P, v: P, s: Side)
    requires EraseInv(m, head, order, lab, bh, fix, v) && fix != m[head].par && m[fix].col == Black
    requires m[fix].par in m && Kid(m, m[fix].par, s) == fix
    requires var w := Kid(m, m[fix].par, Other(s));
      && w in m && m[w].col == Black && Kid(m, w, Other(s)) in m && m[Kid(m, w, Other(s))].col == Red
    ensures var p := m[fix].par;
      && var w := Kid(m, p, Other(s));
      && var far := Kid(m, w, Other(s));
      && p in lab && w in lab && p in bh && w in bh && far in bh && fix in bh
      && var m' := Settle(m, head, p, s);
      && Erasable(m', head, order, RotateLabels(m, lab, p, s), SettleHeights(bh, fix, p, w, far), v)
      && fix in m' && m'[fix].col == Black
  {
    hide NodeOk, ColorOk, OrderOk, HeadBlack, RootOk, Linked, Settle;
    EraseFacts(m, head, order, lab, bh, fix, v, s);
    var p := m[fix].par;
    var w := Kid(m, p, Other(s));
    var far := Kid(m, w, Other(s));
    RootPicked(m, head, order, lab, bh, fix, v);
    Pick(m, head, order, lab, bh, At(fix), At(v), At(fix), far);
    Pick(m, head, order, lab, bh, At(fix), At(v), At(fix), p);
    Pick(m, head, order, lab, bh, At(fix), At(v), At(fix), w);
    FixNotNephew(m, head, order, lab, p, fix, w, far, s);
    GrandKidIsOther(m, head, order, lab, p, s);
    KidLinks(m, head, w, Other(s));
    SettleAll(m, head, order, lab, bh, p, fix, w, far, s, v);
    SettleCell(m, head, p, w, far, s, fix, Left);
    SettleCell(m, head, p, w, far, s, v, Left);
    SettleCell(m, head, p, w, far, s, v, Right);
    SettleCell(m, head, p, w, far, s, w, Right);
    SettleCell(m, head, p, w, far, s, m[head].par, Left);
    SettleHeadPar(m, head, p, w, far, s);
  }

  lemma SettleHeadPar<P>(m: Memory<P>, head: P, p: P, w: P, far: P, s: Side)
    requires p in m && w == Kid(m, p, Other(s)) && w in m && far == Kid(m, w, Other(s)) && far in m && head in m
    requires w != p && far != w && far != p && head != p && head != w && head != far && m[w].par == p && m[far].par == w
    ensures head in Settle(m, head, p, s) &&
      Settle(m, head, p, s)[head].par == if m[head].par == p then w else m[head].par
  {
  }

  lemma EraseDone<P>(m: Memory<P>, head: P, order: seq<P>, lab: map<P, Label>, bh: map<P, int>, fix: P, v: P)
    requires EraseInv(m, head, order, lab, bh, fix, v) && (fix == m[head].par || m[fix].col == Red)
    ensures fix in bh && Erasable(Paint(m, fix, Black), head, order, lab, Blackened(m, bh, fix), v)
  {
    hide NodeOk, ColorOk, OrderOk, HeadBlack, RootOk, Linked;
    RootPicked(m, head, order, lab, bh, fix, v);
    BlackenAll(m, head, order, lab, bh, At(fix), At(v), At(fix), fix);
  }

  lemma StartColor<P>(m: Memory<P>, head: P, bh: map<P, int>, v: P, n: P)
    requires Linked(m, head, n) && n != head && v in m && m[v].left == head == m[v].right && v != head && head in bh &&
             bh[head] == 0
    requires v in bh && ColorOk(m, bh, Nowhere, Nowhere, Nowhere, n) && ColorOk(m, bh, Nowhere, Nowhere, Nowhere, v)
    ensures m[v].col == Black ==> ColorOk(m, bh[v := 0], At(v), At(v), At(v), n)
    ensures m[v].col == Red ==> bh[v] == 0 && ColorOk(m, bh, Nowhere, At(v), Nowhere, n)
  {
  }

  /** Counting the leaf v as already gone leaves v's place short if v is black, and nothing short if it is red. */
  lemma EraseStart<P>(m: Memory<P>, head: P, order: seq<P>, lab: map<P, Label>, bh: map<P, int>, v: P)
    requires RedBlackTree(m, head, order, lab, bh) && v in lab && v in m && m[v].left == head == m[v].right
    ensures m[v].col == Black ==> EraseInv(m, head, order, lab, bh[v := 0], v, v)
    ensures m[v].col == Red ==> Erasable(m, head, order, lab, bh, v)
  {
    hide NodeOk, ColorOk, OrderOk, RootOk, Linked;
    Pick(m, head, order, lab, bh, Nowhere, Nowhere, Nowhere, v);
    SpanFact(m, head, order, lab, v);
    forall n | n in lab
      ensures m[v].col == Black ==> ColorOk(m, bh[v := 0], At(v), At(v), At(v), n)
      ensures m[v].col == Red ==> bh[v] == 0 && ColorOk(m, bh, Nowhere, At(v), Nowhere, n)
    {
      Pick(m, head, order, lab, bh, Nowhere, Nowhere, Nowhere, n);
      StartColor(m, head, bh, v, n);
    }
  }

  lemma SpanFact<P>(m: Memory<P>, head: P, order: seq<P>, lab: map<P, Label>, n: P)
    requires NodeOk(m, head, order, lab, n)
    ensures n in lab && 0 <= lab[n].lo <= lab[n].pos < lab[n].hi <= |order| && order[lab[n].pos] == n
  {
  }

  lemma DetachColor<P>(m: Memory<P>, head: P, bh: map<P, int>, v: P, n: P)
    requires Linked(m, head, n) && n != head && n != v && v in m && v != head && v in bh && bh[v] == 0 &&
             HeadBlack(m, head, bh)
    requires ColorOk(m, bh, Nowhere, At(v), Nowhere, n) && (n == m[v].par ==> m[n].left == v || m[n].right == v)
    ensures ColorOk(Detach(m, head, v), bh - {v}, Nowhere, Nowhere, Nowhere, n)
  {
  }

  /** Cutting off and freeing the leaf gives a red-black tree on the other nodes. */
  lemma EraseDetach<P>(m: Memory<P>, head: P, order: seq<P>, lab: map<P, Label>, bh: map<P, int>, v: P)
    requires Erasable(m, head, order, lab, bh, v)
    ensures 0 <= lab[v].pos < |order|
    ensures RedBlackTree(Detach(m, head, v), head, Removed(order, lab[v].pos), DetachLabels(lab, v), bh - {v})
  {
    hide NodeOk, ColorOk, OrderOk, RootOk, Linked;
    Pick(m, head, order, lab, bh, Nowhere, At(v), Nowhere, v);
    SpanFact(m, head, order, lab, v);
    DetachTree(m, head, order, lab, v);
    forall n | n in lab && n != v ensures ColorOk(Detach(m, head, v), bh - {v}, Nowhere, Nowhere, Nowhere, n) {
      Pick(m, head, order, lab, bh, Nowhere, At(v), Nowhere, n);
      DetachColor(m, head, bh, v, n);
    }
    DetachHead(m, head, bh, v);
  }

  lemma DetachHead<P>(m: Memory<P>, head: P, bh: map<P, int>, v: P)
    requires HeadBlack(m, head, bh) && RootBlack(m, head) && v in m && v != head && bh.Keys == m.Keys
    ensures HeadBlack(Detach(m, head, v), head, bh - {v}) && RootBlack(Detach(m, head, v), head)
    ensures Detach(m, head, v).Keys == (bh - {v}).Keys
  {
  }

  lemma SwapColor<P>(m: Memory<P>, head: P, bh: map<P, int>, a: P, b: P, n: P)
    requires a in m && b in m && a in bh && b in bh && a != b && n != head && a != head && b != head &&
             HeadBlack(m, head, bh)
    requires ColorOk(m, bh, Nowhere, Nowhere, Nowhere, Swapped(a, b, n)) && Linked(m, head, Swapped(a, b, n))
    ensures ColorOk(SwapNodes(m, head, a, b), SwapLabels(bh, a, b), Nowhere, Nowhere, Nowhere, n)
  {
  }

  lemma SwapColors<P>(m: Memory<P>, head: P, order: seq<P>, lab: map<P, Label>, bh: map<P, int>, a: P, b: P)
    requires IsTree(m, head, order, lab) && Colored(m, head, lab, bh, Nowhere, Nowhere, Nowhere)
    requires a in lab && b in lab && a != b
    ensures a in m && b in m && a in bh && b in bh
    ensures forall n :: n in lab ==>
      ColorOk(SwapNodes(m, head, a, b), SwapLabels(bh, a, b), Nowhere, Nowhere, Nowhere, n)
  {
    hide NodeOk, ColorOk, OrderOk, RootOk, Linked, SwapNodes, SwapLabels;
    Pick(m, head, order, lab, bh, Nowhere, Nowhere, Nowhere, a);
    Pick(m, head, order, lab, bh, Nowhere, Nowhere, Nowhere, b);
    forall n | n in lab
      ensures ColorOk(SwapNodes(m, head, a, b), SwapLabels(bh, a, b), Nowhere, Nowhere, Nowhere, n)
    {
      Pick(m, head, order, lab, bh, Nowhere, Nowhere, Nowhere, Swapped(a, b, n));
      SwapColor(m, head, bh, a, b, n);
    }
  }

  /** Exchanging two nodes, colours included, keeps every red-black law. */
  lemma SwapRedBlack<P>(m: Memory<P>, head: P, order: seq<P>, lab: map<P, Label>, bh: map<P, int>, a: P, b: P)
    requires RedBlackTree(m, head, order, lab, bh) && a in lab && b in lab && a != b
    ensures a in m && b in m && a in bh && b in bh && 0 <= lab[a].pos < |order| && 0 <= lab[b].pos < |order|
    ensures RedBlackTree(SwapNodes(m, head, a, b), head, SwapOrder(order, lab[a].pos, lab[b].pos),
                         SwapLabels(lab, a, b), SwapLabels(bh, a, b))
  {
    hide NodeOk, ColorOk, OrderOk, RootOk, Linked, SwapNodes, SwapOrder;
    Pick(m, head, order, lab, bh, Nowhere, Nowhere, Nowhere, a);
    Pick(m, head, order, lab, bh, Nowhere, Nowhere, Nowhere, b);
    SpanFact(m, head, order, lab, a);
    SpanFact(m, head, order, lab, b);
    SwapTree(m, head, order, lab, a, b);
    SwapColors(m, head, order, lab, bh, a, b);
    SwapHead(m, head, bh, a, b);
  }

  lemma SwapHead<P>(m: Memory<P>, head: P, bh: map<P, int>, a: P, b: P)
    requires HeadBlack(m, head, bh) && RootBlack(m, head) && a in m && b in m && a != head && b != head &&
             bh.Keys == m.Keys
    ensures HeadBlack(SwapNodes(m, head, a, b), head, SwapLabels(bh, a, b)) && RootBlack(SwapNodes(m, head, a, b), head)
    ensures SwapNodes(m, head, a, b).Keys == SwapLabels(bh, a, b).Keys
  {
  }

  lemma AttachColor<P>(m: Memory<P>, head: P, bh: map<P, int>, p: P, s: Side, new': P, n: P)
    requires p in m && Kid(m, p, s) == head && new' !in m && HeadBlack(m, head, bh) && n != head && p != head &&
             new' !in bh
    requires n != new' ==> Linked(m, head, n) && ColorOk(m, bh, Nowhere, Nowhere, Nowhere, n)
    ensures ColorOk(Attach(m, head, p, s, new'), bh[new' := 0], Nowhere, Nowhere, At(p), n)
  {
  }

  /** A new red leaf breaks at most the red rule between itself and its parent. */
  lemma InsertStart<P>(m: Memory<P>, head: P, order: seq<P>, lab: map<P, Label>, bh: map<P, int>, p: P, s: Side,
                       new': P)
    requires RedBlackTree(m, head, order, lab, bh) && p in lab && p in m && Kid(m, p, s) == head && new' !in m
    ensures var k := SlotIndex(lab, p, s);
      && 0 <= k <= |order|
      && InsertInv(Attach(m, head, p, s, new'), head, Inserted(order, k, new'), AttachLabels(lab, new', k, s),
         bh[new' := 0], new')
  {
    hide NodeOk, ColorOk, OrderOk, RootOk, Linked, HeadBlack;
    Pick(m, head, order, lab, bh, Nowhere, Nowhere, Nowhere, p);
    AttachTree(m, head, order, lab, p, s, new');
    var m' := Attach(m, head, p, s, new');
    forall n | n in lab || n == new' ensures ColorOk(m', bh[new' := 0], Nowhere, Nowhere, At(p), n) {
      if n != new' { Pick(m, head, order, lab, bh, Nowhere, Nowhere, Nowhere, n); }
      AttachColor(m, head, bh, p, s, new', n);
    }
    AttachHead(m, head, bh, p, s, new');
    LeafSibling(m, head, bh, p, s, new');
  }

  lemma AttachHead<P>(m: Memory<P>, head: P, bh: map<P, int>, p: P, s: Side, new': P)
    requires HeadBlack(m, head, bh) && RootBlack(m, head) && p in m && p != head && new' !in m && bh.Keys == m.Keys
    ensures HeadBlack(Attach(m, head, p, s, new'), head, bh[new' := 0]) && RootBlack(Attach(m, head, p, s, new'), head)
    ensures Attach(m, head, p, s, new').Keys == bh[new' := 0].Keys
  {
  }

  lemma LeafSibling<P>(m: Memory<P>, head: P, bh: map<P, int>, p: P, s: Side, new': P)
    requires p in m && p != head && new' !in m && Kid(m, p, s) == head && HeadBlack(m, head, bh)
    requires ColorOk(m, bh, Nowhere, Nowhere, Nowhere, p)
    ensures Attach(m, head, p, s, new')[p].col == Red ==> SiblingBlack(Attach(m, head, p, s, new'), new')
  {
  }

  lemma SpanBound<P>(m: Memory<P>, head: P, order: seq<P>, lab: map<P, Label>, n: P)
    requires IsTree(m, head, order, lab) && n in lab
    ensures 0 < lab[n].hi - lab[n].lo <= |order|
  {
    hide NodeOk, RootOk, OrderOk;
    SpanFact(m, head, order, lab, n);
  }

  /** A promotion as the code performs it: two repaintings, then the rotation. */
  lemma PromoteReady<P>(m: Memory<P>, head: P, order: seq<P>, lab: map<P, Label>, top: P, kid: P, s: Side)
    requires IsTree(m, head, order, lab) && top in lab && kid in lab && top in m && kid in m &&
             kid == Kid(m, top, Other(s))
    requires m[top].col == Black
    ensures var m2 := Paint(Paint(m, kid, Black), top, Red);
      && CanRotate(m2, head, top, s) && Promote(m, head, top, s) == Rotate(m2, head, top, s)
      && var m' := Promote(m, head, top, s);
      && head in m' && m'[head].left == m[head].left && m'[head].right == m[head].right
  {
    hide NodeOk, OrderOk, RootOk, Rotate, CanRotate;
    RotateReady(m, head, order, lab, top, s);
    PaintCanRotate(m, head, top, s, kid, Black);
    PaintCanRotate(Paint(m, kid, Black), head, top, s, top, Red);
    RotateEnds(Paint(Paint(m, kid, Black), top, Red), head, top, s);
    hide IsTree;
    PaintEnds(m, head, kid, Black);
    PaintEnds(Paint(m, kid, Black), head, top, Red);
  }

  lemma SettleReady<P>(m: Memory<P>, head: P, order: seq<P>, lab: map<P, Label>, p: P, s: Side)
    requires IsTree(m, head, order, lab) && p in lab && p in m && Kid(m, p, Other(s)) in lab && Kid(m, p, Other(s)) in m
    requires Kid(m, Kid(m, p, Other(s)), Other(s)) in m
    ensures var w := Kid(m, p, Other(s));
      && var m2 := Paint(Paint(Paint(m, w, m[p].col), p, Black), Kid(m, w, Other(s)), Black);
      && CanRotate(m2, head, p, s) && Settle(m, head, p, s) == Rotate(m2, head, p, s)
  {
    hide NodeOk, OrderOk, RootOk, Rotate, CanRotate;
    var w := Kid(m, p, Other(s));
    RotateReady(m, head, order, lab, p, s);
    PaintCanRotate(m, head, p, s, w, m[p].col);
    PaintCanRotate(Paint(m, w, m[p].col), head, p, s, p, Black);
    PaintCanRotate(Paint(Paint(m, w, m[p].col), p, Black), head, p, s, Kid(m, w, Other(s)), Black);
  }

  lemma FlipReads<P>(m: Memory<P>, head: P, g: P, p: P, u: P, t: P)
    requires head in m && g in m && p in m && u in m && t in m && m[t].par == p && m[p].par == g
    ensures Paint(m, p, Black)[t].par == p && Paint(Paint(m, p, Black), u, Black)[t].par == p
    ensures Paint(Paint(m, p, Black), u, Black)[p].par == g
    ensures Flip(m, g, p, u)[t].par == p && Flip(m, g, p, u)[p].par == g
    ensures Flip(m, g, p, u)[head].left == m[head].left && Flip(m, g, p, u)[head].right == m[head].right
  {
  }

  // The head's links to the first and the last node

  function SetEnds<P(==)>(m: Memory<P>, head: P, first: P, last: P): Memory<P>
    requires head in m
  {
    m[head := m[head].(left := first, right := last)]
  }

  lemma SetEndsNode<P>(m: Memory<P>, head: P, order: seq<P>, lab: map<P, Label>, bh: map<P, int>, a: P, b: P, n: P)
    requires NodeOk(m, head, order, lab, n) && ColorOk(m, bh, Nowhere, Nowhere, Nowhere, n) && n != head
    ensures NodeOk(SetEnds(m, head, a, b), head, order, lab, n)
    ensures ColorOk(SetEnds(m, head, a, b), bh, Nowhere, Nowhere, Nowhere, n)
  {
  }

  lemma SetEndsRedBlack<P>(m: Memory<P>, head: P, order: seq<P>, lab: map<P, Label>, bh: map<P, int>, a: P, b: P)
    requires RedBlackTree(m, head, order, lab, bh)
    ensures head in m && RedBlackTree(SetEnds(m, head, a, b), head, order, lab, bh)
  {
    hide NodeOk, ColorOk, OrderOk;
    RootFacts(m, head, order, lab);
    forall n | n in lab
      ensures NodeOk(SetEnds(m, head, a, b), head, order, lab, n)
      ensures ColorOk(SetEnds(m, head, a, b), bh, Nowhere, Nowhere, Nowhere, n)
    {
      SetEndsNode(m, head, order, lab, bh, a, b, n);
    }
  }

  lemma FirstNode<P>(head: P, x: P)
    requires head != x
    ensures RedBlackTree(map[head := Cell(x, x, x, Black), x := Cell(head, head, head, Black)], head, [x],
                         map[x := Label(0, 0, 1)], map[head := 0, x := 1])
  {
  }

  // A node without a right child has at most a leaf on its left

  lemma HeightOk<P>(m: Memory<P>, head: P, order: seq<P>, lab: map<P, Label>, bh: map<P, int>, c: P)
    requires IsTree(m, head, order, lab) && Colored(m, head, lab, bh, Nowhere, Nowhere, Nowhere) &&
             (c in lab || c == head)
    ensures c in bh && 0 <= bh[c]
    ensures c in m && (m[c].col == Black && c != head ==> 1 <= bh[c])
  {
    hide NodeOk, ColorOk, OrderOk, RootOk, HeadBlack, Linked;
    RootFacts(m, head, order, lab);
    HeadFact(m, head, bh);
    if c != head {
      Pick(m, head, order, lab, bh, Nowhere, Nowhere, Nowhere, c);
      HeightFact(m, bh, c);
      if m[c].left != head {
        Pick(m, head, order, lab, bh, Nowhere, Nowhere, Nowhere, m[c].left);
        HeightFact(m, bh, m[c].left);
      }
    }
  }

  lemma HeightFact<P>(m: Memory<P>, bh: map<P, int>, c: P)
    requires ColorOk(m, bh, Nowhere, Nowhere, Nowhere, c)
    ensures c in m && c in bh && 0 <= bh[c] && m[c].left in bh && m[c].right in bh
    ensures bh[c] == bh[m[c].left] + Weight(m[c].col) == bh[m[c].right] + Weight(m[c].col)
    ensures m[c].left in m && m[c].right in m
    ensures m[c].col == Red ==> m[m[c].left].col == Black && m[m[c].right].col == Black
  {
  }

  lemma ZeroIsLeaf<P>(m: Memory<P>, head: P, order: seq<P>, lab: map<P, Label>, bh: map<P, int>, n: P)
    requires IsTree(m, head, order, lab) && Colored(m, head, lab, bh, Nowhere, Nowhere, Nowhere)
    requires n in lab && n in bh && bh[n] == 0
    ensures n in m && m[n].left == head == m[n].right
  {
    hide NodeOk, ColorOk, OrderOk, RootOk, HeadBlack, Linked;
    Pick(m, head, order, lab, bh, Nowhere, Nowhere, Nowhere, n);
    HeightFact(m, bh, n);
    HeightOk(m, head, order, lab, bh, n);
    HeightOk(m, head, order, lab, bh, m[n].left);
    HeightOk(m, head, order, lab, bh, m[n].right);
  }

  /** With no right child, the leftmost descendant is the left child itself, the in-order predecessor. */
  lemma OnlyLeft<P>(m: Memory<P>, head: P, order: seq<P>, lab: map<P, Label>, bh: map<P, int>, n: P)
    requires IsTree(m, head, order, lab) && Colored(m, head, lab, bh, Nowhere, Nowhere, Nowhere)
    requires n in lab && n in m && m[n].right == head && m[n].left in lab
    ensures m[n].left in m && m[m[n].left].left == head == m[m[n].left].right
  {
    hide NodeOk, ColorOk, OrderOk, RootOk, HeadBlack, Linked;
    Pick(m, head, order, lab, bh, Nowhere, Nowhere, Nowhere, n);
    HeightFact(m, bh, n);
    HeadFact(m, head, bh);
    ZeroIsLeaf(m, head, order, lab, bh, m[n].left);
  }
}
