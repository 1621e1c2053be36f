/** Colours of a search tree: black heights, the red rule and the recolouring steps of the fix-up loops. */
module RedBlack {
  import opened TreeMemory

  /** At most one node of interest. */
  datatype Mark<P> = Nowhere | At(node: P)

  function Weight(c: Color): int { if c == Black then 1 else 0 }

  /** The black height a parent sees at child c; a node marked short is one black node too low. */
  ghost function Seen<P>(bh: map<P, int>, short: Mark<P>, c: P): int
    requires c in bh
  {
    bh[c] + if short == At(c) then 1 else 0
  }

  ghost predicate BlackSide<P>(m: Memory<P>, bh: map<P, int>, short: Mark<P>, n: P, k: Side) {
    && n in m && n in bh && Kid(m, n, k) in bh
    && bh[n] == Seen(bh, short, Kid(m, n, k)) + Weight(m[n].col)
  }

  ghost predicate BlackOk<P>(m: Memory<P>, bh: map<P, int>, short: Mark<P>, n: P) {
    && n in bh && 0 <= bh[n]
    && BlackSide(m, bh, short, n, Left) && BlackSide(m, bh, short, n, Right)
  }

  ghost predicate RedOk<P>(m: Memory<P>, n: P) {
    && n in m && m[n].left in m && m[n].right in m
    && (m[n].col == Red ==> m[m[n].left].col == Black && m[m[n].right].col == Black)
  }

  ghost predicate ColorOk<P>(m: Memory<P>, bh: map<P, int>, short: Mark<P>, gone: Mark<P>, exempt: Mark<P>, n: P) {
    && (gone != At(n) ==> BlackOk(m, bh, short, n))
    && (exempt != At(n) ==> RedOk(m, n))
  }

  ghost predicate HeadBlack<P>(m: Memory<P>, head: P, bh: map<P, int>) {
    head in m && m[head].col == Black && head in bh && bh[head] == 0
  }

  /** The node about to be cut off counts as an empty subtree. */
  ghost predicate GoneZero<P>(bh: map<P, int>, gone: Mark<P>) {
    gone != Nowhere ==> gone.node in bh && bh[gone.node] == 0
  }

  /** Equal black heights below every node but `gone`, no red node with a red child but `exempt`. */
  ghost predicate Colored<P>(m: Memory<P>, head: P, lab: map<P, Label>, bh: map<P, int>, short: Mark<P>, gone: Mark<P>,
                             exempt: Mark<P>) {
    && bh.Keys == m.Keys
    && HeadBlack(m, head, bh)
    && GoneZero(bh, gone)
    && (forall n :: n in lab ==> ColorOk(m, bh, short, gone, exempt, n))
  }

  function Paint<P(==)>(m: Memory<P>, n: P, c: Color): Memory<P>
    requires n in m
  {
    m[n := m[n].(col := c)]
  }

  lemma PaintNode<P>(m: Memory<P>, head: P, order: seq<P>, lab: map<P, Label>, x: P, c: Color, n: P)
    requires x in m && NodeOk(m, head, order, lab, n)
    ensures NodeOk(Paint(m, x, c), head, order, lab, n)
  {
  }

  lemma PaintTree<P>(m: Memory<P>, head: P, order: seq<P>, lab: map<P, Label>, x: P, c: Color)
    requires x in m && IsTree(m, head, order, lab)
    ensures IsTree(Paint(m, x, c), head, order, lab)
  {
    hide NodeOk;
    forall n | n in lab ensures NodeOk(Paint(m, x, c), head, order, lab, n) {
      PaintNode(m, head, order, lab, x, c, n);
    }
  }

  /** The links below n, without their in-order labels. */
  ghost predicate Linked<P>(m: Memory<P>, head: P, n: P) {
    && n in m && m[n].par in m && m[n].left in m && m[n].right in m
    && (m[n].left != head ==> m[m[n].left].par == n)
    && (m[n].right != head ==> m[m[n].right].par == n)
    && (m[n].left == m[n].right ==> m[n].left == head)
  }

  lemma NodeIsLinked<P>(m: Memory<P>, head: P, order: seq<P>, lab: map<P, Label>, n: P)
    requires NodeOk(m, head, order, lab, n)
    ensures Linked(m, head, n)
  {
  }

  lemma KidIsNoParent<P>(m: Memory<P>, head: P, order: seq<P>, lab: map<P, Label>, n: P, k: Side)
    requires NodeOk(m, head, order, lab, n) && Kid(m, n, k) in lab && NodeOk(m, head, order, lab, Kid(m, n, k)) &&
             head !in lab
    ensures m[n].par != Kid(m, n, k) && Kid(m, n, k) != n
  {
  }

  /** `top` and its red child exchange colours and the child is promoted over it. */
  ghost function Promote<P>(m: Memory<P>, head: P, top: P, s: Side): Memory<P>
    requires top in m && Kid(m, top, Other(s)) in m && head in m
  {
    Rotate(Paint(Paint(m, Kid(m, top, Other(s)), m[top].col), top, Red), head, top, s)
  }

  lemma PromoteCell<P>(m: Memory<P>, head: P, top: P, kid: P, s: Side, n: P, k: Side)
    requires top in m && kid == Kid(m, top, Other(s)) && kid in m && head in m && n in m && kid != top
    ensures n in Promote(m, head, top, s)
    ensures Kid(Promote(m, head, top, s), n, k) == RotatedKid(m, head, top, s, kid, Kid(m, kid, s), n, k)
    ensures Promote(m, head, top, s)[n].par ==
      if n == top then kid else if n == kid then m[top].par else if n == Kid(m, kid, s) && n != head then top
      else if n == head && m[head].par == top then kid else m[n].par
    ensures Promote(m, head, top, s)[n].col == if n == kid then m[top].col else if n == top then Red else m[n].col
  {
  }

  lemma PromoteSide<P>(m: Memory<P>, head: P, bh: map<P, int>, short: Mark<P>, top: P, kid: P, s: Side, n: P, k: Side)
    requires Linked(m, head, top) && kid == Kid(m, top, Other(s)) && kid != head && n != head && head in m
    requires Linked(m, head, kid) && Linked(m, head, n) && m[top].par != kid && kid != top && top != head
    requires BlackOk(m, bh, short, top) && BlackOk(m, bh, short, kid) && BlackSide(m, bh, short, n, k)
    requires m[kid].col == Red && short != At(top) && short != At(kid)
    ensures BlackSide(Promote(m, head, top, s), SwapLabels(bh, top, kid), short, n, k)
  {
    hide Promote;
    PromoteCell(m, head, top, kid, s, n, k);
  }

  lemma PromoteBlack<P>(m: Memory<P>, head: P, order: seq<P>, lab: map<P, Label>, bh: map<P, int>, short: Mark<P>,
                        top: P, kid: P, s: Side, n: P)
    requires NodeOk(m, head, order, lab, top) && kid == Kid(m, top, Other(s)) && kid in lab && head !in lab
    requires NodeOk(m, head, order, lab, kid) && NodeOk(m, head, order, lab, n)
    requires BlackOk(m, bh, short, top) && BlackOk(m, bh, short, kid) && BlackOk(m, bh, short, n)
    requires m[kid].col == Red && short != At(top) && short != At(kid)
    ensures BlackOk(Promote(m, head, top, s), SwapLabels(bh, top, kid), short, n)
  {
    assert head in m && n != head && kid != head && top != head;
    NodeIsLinked(m, head, order, lab, n);
    NodeIsLinked(m, head, order, lab, top);
    NodeIsLinked(m, head, order, lab, kid);
    KidIsNoParent(m, head, order, lab, top, Other(s));
    hide NodeOk, BlackSide, Linked;
    PromoteSide(m, head, bh, short, top, kid, s, n, Left);
    PromoteSide(m, head, bh, short, top, kid, s, n, Right);
  }

  lemma PromoteRed<P>(m: Memory<P>, head: P, order: seq<P>, lab: map<P, Label>, top: P, kid: P, s: Side, n: P)
    requires NodeOk(m, head, order, lab, top) && kid == Kid(m, top, Other(s)) && kid in lab && head !in lab
    requires NodeOk(m, head, order, lab, kid) && NodeOk(m, head, order, lab, n)
    requires RedOk(m, n) || n == kid
    requires m[n].left in m && m[n].right in m && m[top].left in m && m[top].right in m && m[kid].left in m &&
             m[kid].right in m
    requires m[top].col == Black && m[kid].col == Red && m[Kid(m, top, s)].col == Black &&
             m[Kid(m, kid, s)].col == Black
    ensures RedOk(Promote(m, head, top, s), n)
  {
  }

  lemma PromoteColor<P>(m: Memory<P>, head: P, order: seq<P>, lab: map<P, Label>, bh: map<P, int>, short: Mark<P>,
                        gone: Mark<P>, exempt: Mark<P>, top: P, kid: P, s: Side, n: P)
    requires NodeOk(m, head, order, lab, top) && kid == Kid(m, top, Other(s)) && kid in lab && head !in lab
    requires NodeOk(m, head, order, lab, kid) && NodeOk(m, head, order, lab, n)
    requires ColorOk(m, bh, short, gone, exempt, top) && ColorOk(m, bh, short, gone, exempt, kid) &&
             ColorOk(m, bh, short, gone, exempt, n)
    requires short != At(top) && short != At(kid) && gone != At(top) && gone != At(kid)
    requires m[top].left in m && m[top].right in m && m[kid].left in m && m[kid].right in m
    requires m[top].col == Black && m[kid].col == Red && m[Kid(m, top, s)].col == Black &&
             m[Kid(m, kid, s)].col == Black
    ensures ColorOk(Promote(m, head, top, s), SwapLabels(bh, top, kid), short, gone,
                    if exempt == At(kid) then Nowhere else exempt, n)
  {
    NodeIsLinked(m, head, order, lab, n);
    hide NodeOk, BlackOk, RedOk;
    if gone != At(n) { PromoteBlack(m, head, order, lab, bh, short, top, kid, s, n); }
    if exempt != At(n) || n == kid { PromoteRed(m, head, order, lab, top, kid, s, n); }
  }

  lemma PromoteHead<P>(m: Memory<P>, head: P, bh: map<P, int>, top: P, kid: P, s: Side)
    requires top in m && kid == Kid(m, top, Other(s)) && kid in m && head != top && head != kid
    requires HeadBlack(m, head, bh) && bh.Keys == m.Keys
    ensures Promote(m, head, top, s).Keys == m.Keys && SwapLabels(bh, top, kid).Keys == m.Keys
    ensures HeadBlack(Promote(m, head, top, s), head, SwapLabels(bh, top, kid))
  {
  }

  lemma PromoteTree<P>(m: Memory<P>, head: P, order: seq<P>, lab: map<P, Label>, top: P, s: Side)
    requires IsTree(m, head, order, lab) && top in lab && top in m && Kid(m, top, Other(s)) in lab
    ensures Kid(m, top, Other(s)) in m && head in m
    ensures IsTree(Promote(m, head, top, s), head, order, RotateLabels(m, lab, top, s))
  {
    hide NodeOk, OrderOk;
    var kid := Kid(m, top, Other(s));
    PaintTree(m, head, order, lab, kid, m[top].col);
    PaintTree(Paint(m, kid, m[top].col), head, order, lab, top, Red);
    RotateTree(Paint(Paint(m, kid, m[top].col), top, Red), head, order, lab, top, s);
  }

  /** Promoting a red child of a black node keeps the tree and its colours; it clears the child's exemption. */
  lemma PromoteKeepsGone<P>(m: Memory<P>, lab: map<P, Label>, bh: map<P, int>, gone: Mark<P>, top: P, kid: P, s: Side)
    requires top in lab && kid in lab && top in m && kid == Kid(m, top, Other(s)) && top in bh && kid in bh
    requires GoneZero(bh, gone) && gone != At(top) && gone != At(kid)
    ensures RotateLabels(m, lab, top, s).Keys == lab.Keys && GoneZero(SwapLabels(bh, top, kid), gone)
  {
  }

  lemma PromoteColors<P>(m: Memory<P>, head: P, order: seq<P>, lab: map<P, Label>, bh: map<P, int>, short: Mark<P>,
                         gone: Mark<P>, exempt: Mark<P>, top: P, kid: P, s: Side)
    requires IsTree(m, head, order, lab) && Colored(m, head, lab, bh, short, gone, exempt)
    requires top in lab && kid in lab && top in m && kid in m && kid == Kid(m, top, Other(s))
    requires short != At(top) && short != At(kid) && gone != At(top) && gone != At(kid)
    requires m[top].left in m && m[top].right in m && m[kid].left in m && m[kid].right in m
    requires m[top].col == Black && m[kid].col == Red && m[Kid(m, top, s)].col == Black &&
             m[Kid(m, kid, s)].col == Black
    ensures forall n :: n in lab ==>
      ColorOk(Promote(m, head, top, s), SwapLabels(bh, top, kid), short, gone,
              if exempt == At(kid) then Nowhere else exempt, n)
  {
    hide NodeOk, OrderOk, RootOk, ColorOk, HeadBlack, Promote, SwapLabels;
    forall n | n in lab
      ensures ColorOk(Promote(m, head, top, s), SwapLabels(bh, top, kid), short, gone,
                      if exempt == At(kid) then Nowhere else exempt, n)
    {
      PromoteColor(m, head, order, lab, bh, short, gone, exempt, top, kid, s, n);
    }
  }

  lemma PromoteAll<P>(m: Memory<P>, head: P, order: seq<P>, lab: map<P, Label>, bh: map<P, int>, short: Mark<P>,
                      gone: Mark<P>, exempt: Mark<P>, top: P, kid: P, s: Side)
    requires IsTree(m, head, order, lab) && Colored(m, head, lab, bh, short, gone, exempt)
    requires top in lab && kid in lab && top in m && kid in m && kid == Kid(m, top, Other(s))
    requires short != At(top) && short != At(kid) && gone != At(top) && gone != At(kid)
    requires m[top].left in m && m[top].right in m && m[kid].left in m && m[kid].right in m
    requires m[top].col == Black && m[kid].col == Red && m[Kid(m, top, s)].col == Black &&
             m[Kid(m, kid, s)].col == Black
    ensures IsTree(Promote(m, head, top, s), head, order, RotateLabels(m, lab, top, s))
    ensures Colored(Promote(m, head, top, s), head, RotateLabels(m, lab, top, s), SwapLabels(bh, top, kid),
                    short, gone, if exempt == At(kid) then Nowhere else exempt)
  {
    hide NodeOk, OrderOk, RootOk, ColorOk, HeadBlack, Promote, SwapLabels, RotateLabels;
    PromoteTree(m, head, order, lab, top, s);
    PromoteHead(m, head, bh, top, kid, s);
    PromoteColors(m, head, order, lab, bh, short, gone, exempt, top, kid, s);
    PromoteKeepsGone(m, lab, bh, gone, top, kid, s);
  }

  // Turning a red node with a red child: the insertion fix-up's second case

  lemma PaintSame<P>(m: Memory<P>, n: P, c: Color)
    requires n in m && m[n].col == c
    ensures Paint(m, n, c) == m
  {
  }

  lemma TurnRed<P>(m: Memory<P>, head: P, order: seq<P>, lab: map<P, Label>, p: P, t: P, s: Side, n: P)
    requires NodeOk(m, head, order, lab, p) && t == Kid(m, p, Other(s)) && t in lab && head !in lab
    requires NodeOk(m, head, order, lab, t) && NodeOk(m, head, order, lab, n)
    requires RedOk(m, t) && (RedOk(m, n) || n == p) && n != t
    requires m[n].left in m && m[n].right in m && m[p].left in m && m[p].right in m
    requires m[p].col == Red && m[t].col == Red && m[Kid(m, p, s)].col == Black
    ensures RedOk(Rotate(m, head, p, s), n)
  {
  }

  lemma TurnColor<P>(m: Memory<P>, head: P, order: seq<P>, lab: map<P, Label>, bh: map<P, int>, p: P, t: P, s: Side,
                     n: P)
    requires NodeOk(m, head, order, lab, p) && t == Kid(m, p, Other(s)) && t in lab && head !in lab
    requires NodeOk(m, head, order, lab, t) && NodeOk(m, head, order, lab, n)
    requires ColorOk(m, bh, Nowhere, Nowhere, At(p), p) && ColorOk(m, bh, Nowhere, Nowhere, At(p), t)
    requires ColorOk(m, bh, Nowhere, Nowhere, At(p), n) && p != t
    requires m[p].left in m && m[p].right in m
    requires m[p].col == Red && m[t].col == Red && m[Kid(m, p, s)].col == Black
    ensures ColorOk(Rotate(m, head, p, s), bh, Nowhere, Nowhere, At(t), n)
  {
    NodeIsLinked(m, head, order, lab, n);
    assert bh[p] == bh[t];
    assert SwapLabels(bh, p, t) == bh;
    PaintSame(m, t, Red);
    PaintSame(m, p, Red);
    hide NodeOk, BlackOk, RedOk;
    PromoteBlack(m, head, order, lab, bh, Nowhere, p, t, s, n);
    if n != t { TurnRed(m, head, order, lab, p, t, s, n); }
  }

  lemma TurnAll<P>(m: Memory<P>, head: P, order: seq<P>, lab: map<P, Label>, bh: map<P, int>, p: P, t: P, s: Side)
    requires IsTree(m, head, order, lab) && Colored(m, head, lab, bh, Nowhere, Nowhere, At(p))
    requires p in lab && t in lab && p in m && t in m && t == Kid(m, p, Other(s)) && p != t
    requires m[p].left in m && m[p].right in m
    requires m[p].col == Red && m[t].col == Red && m[Kid(m, p, s)].col == Black
    ensures head in m && IsTree(Rotate(m, head, p, s), head, order, RotateLabels(m, lab, p, s))
    ensures Colored(Rotate(m, head, p, s), head, RotateLabels(m, lab, p, s), bh, Nowhere, Nowhere, At(t))
  {
    hide NodeOk, OrderOk, ColorOk;
    RotateTree(m, head, order, lab, p, s);
    hide RootOk;
    forall n | n in lab ensures ColorOk(Rotate(m, head, p, s), bh, Nowhere, Nowhere, At(t), n) {
      TurnColor(m, head, order, lab, bh, p, t, s, n);
    }
  }

  // Recolouring around a red uncle: the insertion fix-up's first case

  ghost function Flip<P>(m: Memory<P>, g: P, p: P, u: P): Memory<P>
    requires g in m && p in m && u in m
  {
    Paint(Paint(Paint(m, p, Black), u, Black), g, Red)
  }

  ghost function FlipHeights<P>(bh: map<P, int>, p: P, u: P): map<P, int>
    requires p in bh && u in bh
  {
    bh[p := bh[p] + 1][u := bh[u] + 1]
  }

  lemma FlipColor<P>(m: Memory<P>, head: P, bh: map<P, int>, g: P, s: Side, n: P)
    requires Linked(m, head, n) && Linked(m, head, g) && head != g && n != head
    requires var p, u := Kid(m, g, s), Kid(m, g, Other(s));
      && head != p && head != u && p != g && u != g && m[p].col == Red && m[u].col == Red && m[g].par != g
      && ColorOk(m, bh, Nowhere, Nowhere, At(p), n) && BlackOk(m, bh, Nowhere, g)
      && m[g].par != p && m[g].par != u
    requires m[g].col == Black
    ensures var p, u := Kid(m, g, s), Kid(m, g, Other(s));
      ColorOk(Flip(m, g, p, u), FlipHeights(bh, p, u), Nowhere, Nowhere, At(m[g].par), n)
  {
  }

  lemma FlipAll<P>(m: Memory<P>, head: P, order: seq<P>, lab: map<P, Label>, bh: map<P, int>, g: P, s: Side)
    requires IsTree(m, head, order, lab) && g in lab && g in m && Kid(m, g, s) in lab && Kid(m, g, Other(s)) in lab
    requires Kid(m, g, s) in m && Kid(m, g, Other(s)) in m
    requires Colored(m, head, lab, bh, Nowhere, Nowhere, At(Kid(m, g, s)))
    requires m[g].col == Black && m[Kid(m, g, s)].col == Red && m[Kid(m, g, Other(s))].col == Red
    ensures var m' := Flip(m, g, Kid(m, g, s), Kid(m, g, Other(s)));
      && IsTree(m', head, order, lab)
      && Colored(m', head, lab, FlipHeights(bh, Kid(m, g, s), Kid(m, g, Other(s))), Nowhere, Nowhere, At(m[g].par))
  {
    hide NodeOk, OrderOk, ColorOk, RootOk;
    var p, u := Kid(m, g, s), Kid(m, g, Other(s));
    PaintTree(m, head, order, lab, p, Black);
    PaintTree(Paint(m, p, Black), head, order, lab, u, Black);
    PaintTree(Paint(Paint(m, p, Black), u, Black), head, order, lab, g, Red);
    KidIsNoParent(m, head, order, lab, g, s);
    KidIsNoParent(m, head, order, lab, g, Other(s));
    NodeIsLinked(m, head, order, lab, g);
    ParentIsOther(m, head, order, lab, g);
    RootFacts(m, head, order, lab);
    BlackOf(m, bh, Nowhere, Nowhere, At(p), g);
    hide Linked, BlackOk;
    forall n | n in lab
      ensures ColorOk(Flip(m, g, p, u), FlipHeights(bh, p, u), Nowhere, Nowhere, At(m[g].par), n)
    {
      NodeIsLinked(m, head, order, lab, n);
      FlipColor(m, head, bh, g, s, n);
    }
  }

  lemma ParentIsOther<P>(m: Memory<P>, head: P, order: seq<P>, lab: map<P, Label>, n: P)
    requires NodeOk(m, head, order, lab, n) && n != head
    ensures m[n].par != n
  {
  }

  lemma BlackOf<P>(m: Memory<P>, bh: map<P, int>, short: Mark<P>, gone: Mark<P>, exempt: Mark<P>, n: P)
    requires ColorOk(m, bh, short, gone, exempt, n) && gone != At(n)
    ensures BlackOk(m, bh, short, n)
  {
  }

  // A black sibling with black children: the shortage moves to the parent

  ghost function SinkHeights<P>(bh: map<P, int>, w: P, p: P): map<P, int>
    requires w in bh && p in bh
  {
    bh[w := bh[w] - 1][p := bh[p] - 1]
  }

  lemma SinkBlack<P>(m: Memory<P>, head: P, bh: map<P, int>, gone: Mark<P>, p: P, s: Side, n: P)
    requires Linked(m, head, n) && Linked(m, head, p) && head != p && n != head
    requires var fix, w := Kid(m, p, s), Kid(m, p, Other(s));
      && head != fix && head != w && fix in bh && w in bh && p in bh && fix != p && w != p
      && Linked(m, head, w) && Linked(m, head, fix)
      && ColorOk(m, bh, At(fix), gone, At(fix), n) && BlackOk(m, bh, At(fix), p) && 0 <= bh[fix]
      && m[w].col == Black && m[fix].col == Black && m[m[w].left].col == Black && m[m[w].right].col == Black
      && gone != At(p) && gone != At(w)
    requires gone != At(n)
    ensures var fix, w := Kid(m, p, s), Kid(m, p, Other(s));
      BlackOk(Paint(m, w, Red), SinkHeights(bh, w, p), At(p), n)
  {
  }

  lemma SinkRed<P>(m: Memory<P>, head: P, bh: map<P, int>, gone: Mark<P>, p: P, s: Side, n: P)
    requires Linked(m, head, n) && Linked(m, head, p) && head != p && n != head
    requires var fix, w := Kid(m, p, s), Kid(m, p, Other(s));
      && head != fix && head != w && fix in bh && w in bh && p in bh && fix != p && w != p
      && Linked(m, head, w) && Linked(m, head, fix)
      && ColorOk(m, bh, At(fix), gone, At(fix), n) && BlackOk(m, bh, At(fix), p) && 0 <= bh[fix]
      && m[w].col == Black && m[fix].col == Black && m[m[w].left].col == Black && m[m[w].right].col == Black
      && gone != At(p) && gone != At(w)
    requires n != p
    ensures RedOk(Paint(m, Kid(m, p, Other(s)), Red), n)
  {
    hide BlackOk;
  }

  lemma SinkColor<P>(m: Memory<P>, head: P, bh: map<P, int>, gone: Mark<P>, p: P, s: Side, n: P)
    requires Linked(m, head, n) && Linked(m, head, p) && head != p && n != head
    requires var fix, w := Kid(m, p, s), Kid(m, p, Other(s));
      && head != fix && head != w && fix in bh && w in bh && p in bh && fix != p && w != p
      && Linked(m, head, w) && Linked(m, head, fix)
      && ColorOk(m, bh, At(fix), gone, At(fix), n) && BlackOk(m, bh, At(fix), p) && 0 <= bh[fix]
      && m[w].col == Black && m[fix].col == Black && m[m[w].left].col == Black && m[m[w].right].col == Black
      && gone != At(p) && gone != At(w)
    ensures var fix, w := Kid(m, p, s), Kid(m, p, Other(s));
      ColorOk(Paint(m, w, Red), SinkHeights(bh, w, p), At(p), gone, At(p), n)
  {
    if gone != At(n) { SinkBlack(m, head, bh, gone, p, s, n); }
    if n != p { SinkRed(m, head, bh, gone, p, s, n); }
    hide Linked, BlackOk, RedOk;
  }

  /** What the erase fix-up knows at its loop head: the subtree at fix is one black node short. */
  ghost predicate ShortAt<P>(m: Memory<P>, head: P, lab: map<P, Label>, bh: map<P, int>, fix: P, v: P) {
    && Colored(m, head, lab, bh, At(fix), At(v), At(fix))
    && fix in lab && v in lab && v in m && fix in bh && 0 <= bh[fix]
    && lab[fix].lo <= lab[v].pos < lab[fix].hi
    && m[v].left == head == m[v].right
  }

  /** Neither the parent, nor the sibling, nor the sibling's children can be the leaf inside fix's subtree. */
  lemma AwayFromVictim<P>(m: Memory<P>, head: P, order: seq<P>, lab: map<P, Label>, p: P, s: Side, v: P)
    requires NodeOk(m, head, order, lab, p) && Kid(m, p, s) in lab && Kid(m, p, Other(s)) in lab && v in lab &&
             head !in lab
    requires NodeOk(m, head, order, lab, Kid(m, p, Other(s))) && NodeOk(m, head, order, lab, v)
    requires lab[Kid(m, p, s)].lo <= lab[v].pos < lab[Kid(m, p, s)].hi
    ensures v != p && v != Kid(m, p, Other(s))
    ensures v !in {m[Kid(m, p, Other(s))].left, m[Kid(m, p, Other(s))].right}
    ensures lab[p].lo <= lab[v].pos < lab[p].hi
    ensures lab[p].hi - lab[p].lo > lab[Kid(m, p, s)].hi - lab[Kid(m, p, s)].lo
  {
  }

  lemma SinkAll<P>(m: Memory<P>, head: P, order: seq<P>, lab: map<P, Label>, bh: map<P, int>, p: P, s: Side, v: P)
    requires IsTree(m, head, order, lab) && p in lab && p in m && Kid(m, p, s) in lab && Kid(m, p, Other(s)) in lab
    requires Kid(m, p, s) in m && Kid(m, p, Other(s)) in m
    requires ShortAt(m, head, lab, bh, Kid(m, p, s), v)
    requires var w := Kid(m, p, Other(s));
      && m[Kid(m, p, s)].col == Black && m[w].col == Black
      && m[w].left in m && m[w].right in m && m[m[w].left].col == Black && m[m[w].right].col == Black
    ensures var m' := Paint(m, Kid(m, p, Other(s)), Red);
      IsTree(m', head, order, lab) && ShortAt(m', head, lab, SinkHeights(bh, Kid(m, p, Other(s)), p), p, v)
  {
    hide NodeOk, OrderOk, ColorOk, RootOk;
    var fix, w := Kid(m, p, s), Kid(m, p, Other(s));
    PaintTree(m, head, order, lab, w, Red);
    AwayFromVictim(m, head, order, lab, p, s, v);
    KidIsNoParent(m, head, order, lab, p, s);
    KidIsNoParent(m, head, order, lab, p, Other(s));
    NodeIsLinked(m, head, order, lab, p);
    NodeIsLinked(m, head, order, lab, w);
    NodeIsLinked(m, head, order, lab, fix);
    RootFacts(m, head, order, lab);
    BlackOf(m, bh, At(fix), At(v), At(fix), p);
    SinkHeightsOk(m, bh, fix, w, p, s);
    hide Linked, BlackOk;
    forall n | n in lab ensures ColorOk(Paint(m, w, Red), SinkHeights(bh, w, p), At(p), At(v), At(p), n) {
      NodeIsLinked(m, head, order, lab, n);
      SinkColor(m, head, bh, At(v), p, s, n);
    }
  }

  lemma SinkHeightsOk<P>(m: Memory<P>, bh: map<P, int>, fix: P, w: P, p: P, s: Side)
    requires p in m && fix == Kid(m, p, s) && w == Kid(m, p, Other(s)) && fix in bh && w in bh && 0 <= bh[fix] &&
             fix != w
    requires BlackOk(m, bh, At(fix), p)
    ensures bh[p] >= 1 && bh[w] == bh[fix] + 1 && bh[p] == bh[w] + Weight(m[p].col)
  {
  }

  // A black sibling with a red outer child: the shortage ends here

  /** The sibling w of fix takes its parent's colour and is promoted over it; parent and outer child turn black. */
  ghost function Settle<P>(m: Memory<P>, head: P, p: P, s: Side): Memory<P>
    requires p in m && Kid(m, p, Other(s)) in m && Kid(m, Kid(m, p, Other(s)), Other(s)) in m && head in m
  {
    var w := Kid(m, p, Other(s));
    var far := Kid(m, w, Other(s));
    Rotate(Paint(Paint(Paint(m, w, m[p].col), p, Black), far, Black), head, p, s)
  }

  ghost function SettleHeights<P>(bh: map<P, int>, fix: P, p: P, w: P, far: P): map<P, int>
    requires fix in bh && p in bh && w in bh && far in bh
  {
    bh[w := bh[p]][p := bh[fix] + 1][far := bh[far] + 1]
  }

  lemma SettleCell<P>(m: Memory<P>, head: P, p: P, w: P, far: P, s: Side, n: P, k: Side)
    requires p in m && w == Kid(m, p, Other(s)) && w in m && far == Kid(m, w, Other(s)) && far in m && head in m &&
             n in m
    requires w != p && far != w && far != p
    ensures n in Settle(m, head, p, s)
    ensures Kid(Settle(m, head, p, s), n, k) == RotatedKid(m, head, p, s, w, Kid(m, w, s), n, k)
    ensures Settle(m, head, p, s)[n].col == if n == far || n == p then Black else if n == w then m[p].col else m[n].col
  {
  }

  lemma SettleSide<P>(m: Memory<P>, head: P, bh: map<P, int>, gone: Mark<P>, p: P, fix: P, w: P, far: P, s: Side, n: P,
                      k: Side)
    requires Linked(m, head, p) && Linked(m, head, w) && Linked(m, head, n) && head in m && n != head && p != head
    requires fix == Kid(m, p, s) && w == Kid(m, p, Other(s)) && far == Kid(m, w, Other(s)) && w != head &&
             far != head && fix != head
    requires w != p && far != w && far != p && m[p].par != w && m[p].par != far && m[w].par != far && fix != p
    requires BlackOk(m, bh, At(fix), p) && BlackOk(m, bh, At(fix), w) && BlackSide(m, bh, At(fix), n, k) &&
             far in bh && fix in bh
    requires m[w].col == Black && m[far].col == Red
    ensures BlackSide(Settle(m, head, p, s), SettleHeights(bh, fix, p, w, far), Nowhere, n, k)
  {
    SettleCell(m, head, p, w, far, s, n, k);
    hide Settle;
  }

  lemma SettleRed<P>(m: Memory<P>, head: P, fix: P, p: P, w: P, far: P, s: Side, n: P)
    requires Linked(m, head, p) && Linked(m, head, w) && Linked(m, head, n) && head in m && n != head && p != head
    requires fix == Kid(m, p, s) && w == Kid(m, p, Other(s)) && far == Kid(m, w, Other(s)) && w != head &&
             far != head && fix != head
    requires w != p && far != w && far != p && m[p].par != w
    requires m[fix].col == Black && m[w].col == Black && RedOk(m, p) && (n != fix ==> RedOk(m, n)) &&
             m[head].col == Black
    ensures RedOk(Settle(m, head, p, s), n)
  {
    forall k | k == Left || k == Right
      ensures Kid(Settle(m, head, p, s), n, k) == RotatedKid(m, head, p, s, w, Kid(m, w, s), n, k)
    {
      SettleCell(m, head, p, w, far, s, n, k);
    }
    forall c | c in m
      ensures c in Settle(m, head, p, s)
      ensures Settle(m, head, p, s)[c].col ==
              if c == far || c == p then Black else if c == w then m[p].col else m[c].col
    {
      SettleCell(m, head, p, w, far, s, c, Left);
    }
    hide Settle;
  }

  lemma SettleColor<P>(m: Memory<P>, head: P, bh: map<P, int>, gone: Mark<P>, p: P, fix: P, w: P, far: P, s: Side, n: P)
    requires Linked(m, head, p) && Linked(m, head, w) && Linked(m, head, n) && head in m && n != head && p != head
    requires fix == Kid(m, p, s) && w == Kid(m, p, Other(s)) && far == Kid(m, w, Other(s)) && w != head &&
             far != head && fix != head
    requires w != p && far != w && far != p && m[p].par != w && m[p].par != far && m[w].par != far && fix != p
    requires ColorOk(m, bh, At(fix), gone, At(fix), p) && ColorOk(m, bh, At(fix), gone, At(fix), w) &&
             ColorOk(m, bh, At(fix), gone, At(fix), n)
    requires far in bh && fix in bh && 0 <= bh[fix] && 0 <= bh[far] && gone != At(p) && gone != At(w)
    requires m[w].col == Black && m[far].col == Red && m[fix].col == Black && m[head].col == Black
    ensures ColorOk(Settle(m, head, p, s), SettleHeights(bh, fix, p, w, far), Nowhere, gone, Nowhere, n)
  {
    hide Linked, BlackSide, RedOk;
    if gone != At(n) {
      SettleSide(m, head, bh, gone, p, fix, w, far, s, n, Left);
      SettleSide(m, head, bh, gone, p, fix, w, far, s, n, Right);
    }
    SettleRed(m, head, fix, p, w, far, s, n);
  }

  lemma SettleTree<P>(m: Memory<P>, head: P, order: seq<P>, lab: map<P, Label>, p: P, w: P, far: P, s: Side)
    requires IsTree(m, head, order, lab) && p in lab && p in m && w == Kid(m, p, Other(s)) && w in lab && w in m
    requires far == Kid(m, w, Other(s)) && far in m
    ensures head in m && IsTree(Settle(m, head, p, s), head, order, RotateLabels(m, lab, p, s))
  {
    hide NodeOk, OrderOk;
    PaintTree(m, head, order, lab, w, m[p].col);
    PaintTree(Paint(m, w, m[p].col), head, order, lab, p, Black);
    PaintTree(Paint(Paint(m, w, m[p].col), p, Black), head, order, lab, far, Black);
    RotateTree(Paint(Paint(Paint(m, w, m[p].col), p, Black), far, Black), head, order, lab, p, s);
  }

  lemma SettleHead<P>(m: Memory<P>, head: P, bh: map<P, int>, gone: Mark<P>, fix: P, p: P, w: P, far: P, s: Side)
    requires p in m && w == Kid(m, p, Other(s)) && w in m && far == Kid(m, w, Other(s)) && far in m
    requires fix in m && HeadBlack(m, head, bh) && bh.Keys == m.Keys && GoneZero(bh, gone)
    requires head != p && head != w && head != far && gone != At(p) && gone != At(w) && gone != At(far)
    ensures Settle(m, head, p, s).Keys == m.Keys == SettleHeights(bh, fix, p, w, far).Keys
    ensures HeadBlack(Settle(m, head, p, s), head, SettleHeights(bh, fix, p, w, far)) &&
            GoneZero(SettleHeights(bh, fix, p, w, far), gone)
  {
  }

  lemma SettleAll<P>(m: Memory<P>, head: P, order: seq<P>, lab: map<P, Label>, bh: map<P, int>, p: P, fix: P, w: P,
                     far: P, s: Side, v: P)
    requires IsTree(m, head, order, lab) && p in lab && fix in lab && w in lab && far in lab && p in m && fix in m &&
             w in m && far in m
    requires fix == Kid(m, p, s) && w == Kid(m, p, Other(s)) && far == Kid(m, w, Other(s))
    requires ShortAt(m, head, lab, bh, fix, v)
    requires m[w].col == Black && m[far].col == Red && m[fix].col == Black
    ensures head in m && IsTree(Settle(m, head, p, s), head, order, RotateLabels(m, lab, p, s))
    ensures Colored(Settle(m, head, p, s), head, RotateLabels(m, lab, p, s), SettleHeights(bh, fix, p, w, far), Nowhere,
      At(v), Nowhere)
  {
    hide NodeOk, OrderOk, ColorOk, RootOk;
    RootFacts(m, head, order, lab);
    AwayFromVictim(m, head, order, lab, p, s, v);
    SettleTree(m, head, order, lab, p, w, far, s);
    SettleHead(m, head, bh, At(v), fix, p, w, far, s);
    KidIsNoParent(m, head, order, lab, p, s);
    KidIsNoParent(m, head, order, lab, p, Other(s));
    KidIsNoParent(m, head, order, lab, w, Other(s));
    GrandKidIsOther(m, head, order, lab, p, s);
    NodeIsLinked(m, head, order, lab, p);
    NodeIsLinked(m, head, order, lab, w);
    BlackOf(m, bh, At(fix), At(v), At(fix), far);
    hide Linked, BlackSide, HeadBlack, GoneZero;
    forall n | n in lab
      ensures ColorOk(Settle(m, head, p, s), SettleHeights(bh, fix, p, w, far), Nowhere, At(v), Nowhere, n)
    {
      NodeIsLinked(m, head, order, lab, n);
      SettleColor(m, head, bh, At(v), p, fix, w, far, s, n);
    }
  }

  lemma GrandKidIsOther<P>(m: Memory<P>, head: P, order: seq<P>, lab: map<P, Label>, p: P, s: Side)
    requires NodeOk(m, head, order, lab, p) && head !in lab && Kid(m, p, Other(s)) in lab
    requires NodeOk(m, head, order, lab, Kid(m, p, Other(s)))
    requires var far := Kid(m, Kid(m, p, Other(s)), Other(s)); far in lab && NodeOk(m, head, order, lab, far)
    ensures var far := Kid(m, Kid(m, p, Other(s)), Other(s)); far != p && m[p].par != far
  {
  }
}
