/** The node memory of a search tree, seen as a finite map from node addresses to cells. */
module TreeMemory {
  import opened Sequences

  datatype Color = Red | Black

  datatype Side = Left | Right

  datatype Cell<P> = Cell(par: P, left: P, right: P, col: Color)

  type Memory<P(==)> = map<P, Cell<P>>

  /** Where a node's subtree sits in the in-order sequence: it occupies [lo, hi) and the node itself pos. */
  datatype Label = Label(lo: int, pos: int, hi: int)

  function Kid<P>(m: Memory<P>, n: P, s: Side): P
    requires n in m
  {
    if s == Left then m[n].left else m[n].right
  }

  function Other(s: Side): Side { if s == Left then Right else Left }

  /** The left link of n and the label of what it leads to. */
  ghost predicate LeftOk<P>(m: Memory<P>, head: P, lab: map<P, Label>, n: P)
    requires n in m && n in lab
  {
    var c := m[n].left;
    if c == head then lab[n].lo == lab[n].pos
    else c in lab && c in m && m[c].par == n && lab[c].lo == lab[n].lo && lab[c].hi == lab[n].pos
  }

  ghost predicate RightOk<P>(m: Memory<P>, head: P, lab: map<P, Label>, n: P)
    requires n in m && n in lab
  {
    var c := m[n].right;
    if c == head then lab[n].hi == lab[n].pos + 1
    else c in lab && c in m && m[c].par == n && lab[c].lo == lab[n].pos + 1 && lab[c].hi == lab[n].hi
  }

  ghost predicate ParentOk<P>(m: Memory<P>, head: P, lab: map<P, Label>, n: P)
    requires n in m && head in m
  {
    var p := m[n].par;
    if p == head then m[head].par == n
    else p in lab && p in m && (m[p].left == n || m[p].right == n)
  }

  ghost predicate SpanOk<P>(order: seq<P>, lab: map<P, Label>, n: P)
    requires n in lab
  {
    0 <= lab[n].lo <= lab[n].pos < lab[n].hi <= |order| && order[lab[n].pos] == n
  }

  ghost predicate NodeOk<P>(m: Memory<P>, head: P, order: seq<P>, lab: map<P, Label>, n: P) {
    && head in m && n in m && n in lab
    && SpanOk(order, lab, n)
    && LeftOk(m, head, lab, n)
    && RightOk(m, head, lab, n)
    && ParentOk(m, head, lab, n)
  }

  ghost predicate RootOk<P>(m: Memory<P>, head: P, order: seq<P>, lab: map<P, Label>) {
    head in m && head !in lab &&
    var r := m[head].par;
    if r == head then |order| == 0
    else r in lab && r in m && m[r].par == head && lab[r].lo == 0 && lab[r].hi == |order|
  }

  ghost predicate OrderOk<P>(order: seq<P>, lab: map<P, Label>) {
    forall i :: 0 <= i < |order| ==> order[i] in lab && lab[order[i]].pos == i
  }

  /** The cells reachable from head form a binary tree whose in-order node sequence is `order`. */
  ghost predicate IsTree<P>(m: Memory<P>, head: P, order: seq<P>, lab: map<P, Label>) {
    && head !in lab && m.Keys == lab.Keys + {head}
    && OrderOk(order, lab)
    && (forall n :: n in lab ==> NodeOk(m, head, order, lab, n))
    && RootOk(m, head, order, lab)
  }

  /** What NodeOk says of n alone. */
  lemma NodeFacts<P>(m: Memory<P>, head: P, order: seq<P>, lab: map<P, Label>, n: P)
    requires NodeOk(m, head, order, lab, n)
    ensures head in m && n in m && n in lab && SpanOk(order, lab, n)
  {
  }

  lemma RootFacts<P>(m: Memory<P>, head: P, order: seq<P>, lab: map<P, Label>)
    requires RootOk(m, head, order, lab)
    ensures head in m && head !in lab && (m[head].par != head ==> m[head].par in lab && m[head].par in m)
    ensures m[head].par == head ==> |order| == 0
  {
  }

  /** The link of n on side k after rotating x towards side s: y is promoted, x adopts b. */
  ghost function RotatedKid<P>(m: Memory<P>, head: P, x: P, s: Side, y: P, b: P, n: P, k: Side): P
    requires x in m && n in m
  {
    if n == y && k == s then x
    else if n == x && k != s then b
    else if n == m[x].par && n != head && Kid(m, n, k) == x then y
    else Kid(m, n, k)
  }

  /** What rotating x towards side s leaves in memory; its child on the other side is promoted over it. */
  ghost function Rotate<P>(m: Memory<P>, head: P, x: P, s: Side): (r: Memory<P>)
    requires x in m && Kid(m, x, Other(s)) in m && head in m
  {
    var y := Kid(m, x, Other(s));
    var b := Kid(m, y, s);
    map n | n in m :: Cell(
      if n == x then y else if n == y then m[x].par else if n == b && b != head then x
      else if n == head && m[head].par == x then y else m[n].par,
      RotatedKid(m, head, x, s, y, b, n, Left),
      RotatedKid(m, head, x, s, y, b, n, Right),
      m[n].col)
  }

  lemma RotateCell<P>(m: Memory<P>, head: P, x: P, s: Side, y: P, n: P)
    requires x in m && y == Kid(m, x, Other(s)) && y in m && head in m && n in m
    ensures n in Rotate(m, head, x, s)
    ensures Rotate(m, head, x, s)[n].par ==
      if n == x then y else if n == y then m[x].par else if n == Kid(m, y, s) && n != head then x
      else if n == head && m[head].par == x then y else m[n].par
    ensures Rotate(m, head, x, s)[n].left == RotatedKid(m, head, x, s, y, Kid(m, y, s), n, Left)
    ensures Rotate(m, head, x, s)[n].right == RotatedKid(m, head, x, s, y, Kid(m, y, s), n, Right)
    ensures Rotate(m, head, x, s)[n].col == m[n].col
  {
  }

  ghost function RotateLabels<P>(m: Memory<P>, lab: map<P, Label>, x: P, s: Side): map<P, Label>
    requires x in m && x in lab && Kid(m, x, Other(s)) in lab
  {
    var y := Kid(m, x, Other(s));
    if s == Left then lab[x := lab[x].(hi := lab[y].pos)][y := lab[y].(lo := lab[x].lo)]
    else lab[x := lab[x].(lo := lab[y].pos + 1)][y := lab[y].(hi := lab[x].hi)]
  }

  lemma RotateKeepsSpan<P>(m: Memory<P>, head: P, order: seq<P>, lab: map<P, Label>, x: P, s: Side, n: P)
    requires NodeOk(m, head, order, lab, x) && Kid(m, x, Other(s)) in lab && head !in lab
    requires NodeOk(m, head, order, lab, Kid(m, x, Other(s))) && NodeOk(m, head, order, lab, n)
    requires lab.Keys <= m.Keys
    ensures SpanOk(order, RotateLabels(m, lab, x, s), n)
  {
  }

  lemma RotateKeepsLeft<P>(m: Memory<P>, head: P, order: seq<P>, lab: map<P, Label>, x: P, s: Side, n: P)
    requires NodeOk(m, head, order, lab, x) && Kid(m, x, Other(s)) in lab && head !in lab
    requires NodeOk(m, head, order, lab, Kid(m, x, Other(s))) && NodeOk(m, head, order, lab, n)
    requires lab.Keys <= m.Keys
    ensures LeftOk(Rotate(m, head, x, s), head, RotateLabels(m, lab, x, s), n)
  {
  }

  lemma RotateKeepsRight<P>(m: Memory<P>, head: P, order: seq<P>, lab: map<P, Label>, x: P, s: Side, n: P)
    requires NodeOk(m, head, order, lab, x) && Kid(m, x, Other(s)) in lab && head !in lab
    requires NodeOk(m, head, order, lab, Kid(m, x, Other(s))) && NodeOk(m, head, order, lab, n)
    requires lab.Keys <= m.Keys
    ensures RightOk(Rotate(m, head, x, s), head, RotateLabels(m, lab, x, s), n)
  {
  }

  lemma RotateKeepsParent<P>(m: Memory<P>, head: P, order: seq<P>, lab: map<P, Label>, x: P, s: Side, n: P)
    requires NodeOk(m, head, order, lab, x) && Kid(m, x, Other(s)) in lab && head !in lab
    requires NodeOk(m, head, order, lab, Kid(m, x, Other(s))) && NodeOk(m, head, order, lab, n)
    requires lab.Keys <= m.Keys
    ensures ParentOk(Rotate(m, head, x, s), head, RotateLabels(m, lab, x, s), n)
  {
  }

  lemma RotateNode<P>(m: Memory<P>, head: P, order: seq<P>, lab: map<P, Label>, x: P, s: Side, n: P)
    requires NodeOk(m, head, order, lab, x) && Kid(m, x, Other(s)) in lab && head !in lab
    requires NodeOk(m, head, order, lab, Kid(m, x, Other(s))) && NodeOk(m, head, order, lab, n)
    requires lab.Keys <= m.Keys
    ensures NodeOk(Rotate(m, head, x, s), head, order, RotateLabels(m, lab, x, s), n)
  {
    hide SpanOk, LeftOk, RightOk, ParentOk;
    RotateKeepsSpan(m, head, order, lab, x, s, n);
    RotateKeepsLeft(m, head, order, lab, x, s, n);
    RotateKeepsRight(m, head, order, lab, x, s, n);
    RotateKeepsParent(m, head, order, lab, x, s, n);
  }

  lemma RotateRoot<P>(m: Memory<P>, head: P, order: seq<P>, lab: map<P, Label>, x: P, s: Side)
    requires NodeOk(m, head, order, lab, x) && Kid(m, x, Other(s)) in lab && head !in lab
    requires NodeOk(m, head, order, lab, Kid(m, x, Other(s))) && RootOk(m, head, order, lab)
    ensures RootOk(Rotate(m, head, x, s), head, order, RotateLabels(m, lab, x, s))
  {
  }

  lemma RotateTree<P>(m: Memory<P>, head: P, order: seq<P>, lab: map<P, Label>, x: P, s: Side)
    requires IsTree(m, head, order, lab) && x in lab && x in m && Kid(m, x, Other(s)) in lab
    ensures IsTree(Rotate(m, head, x, s), head, order, RotateLabels(m, lab, x, s))
  {
    hide NodeOk, RootOk;
    var y := Kid(m, x, Other(s));
    var m', lab' := Rotate(m, head, x, s), RotateLabels(m, lab, x, s);
    forall n | n in lab' ensures NodeOk(m', head, order, lab', n) {
      RotateNode(m, head, order, lab, x, s, n);
    }
    RotateRoot(m, head, order, lab, x, s);
  }

  // Exchanging two nodes

  ghost function Swapped<P>(a: P, b: P, n: P): P {
    if n == a then b else if n == b then a else n
  }

  /** Memory after a and b have exchanged their places, colours included; head keeps its end links. */
  ghost function SwapNodes<P>(m: Memory<P>, head: P, a: P, b: P): Memory<P>
    requires a in m && b in m
  {
    map n | n in m ::
      if n == head then m[n].(par := Swapped(a, b, m[n].par))
      else
        var c := m[Swapped(a, b, n)];
        Cell(Swapped(a, b, c.par), Swapped(a, b, c.left), Swapped(a, b, c.right), c.col)
  }

  ghost function SwapLabels<P, V>(lab: map<P, V>, a: P, b: P): map<P, V>
    requires a in lab && b in lab
  {
    map n | n in lab :: lab[Swapped(a, b, n)]
  }

  ghost function SwapOrder<P>(order: seq<P>, i: int, j: int): seq<P>
    requires 0 <= i < |order| && 0 <= j < |order|
  {
    order[i := order[j]][j := order[i]]
  }

  lemma SwapNode<P>(m: Memory<P>, head: P, order: seq<P>, lab: map<P, Label>, a: P, b: P, n: P)
    requires NodeOk(m, head, order, lab, a) && NodeOk(m, head, order, lab, b) && head !in lab && a != b
    requires NodeOk(m, head, order, lab, Swapped(a, b, n)) && lab.Keys <= m.Keys
    ensures NodeOk(SwapNodes(m, head, a, b), head, SwapOrder(order, lab[a].pos, lab[b].pos), SwapLabels(lab, a, b), n)
  {
  }

  lemma SwapKeepsOrder<P>(order: seq<P>, lab: map<P, Label>, a: P, b: P)
    requires OrderOk(order, lab) && a in lab && b in lab && SpanOk(order, lab, a) && SpanOk(order, lab, b)
    ensures OrderOk(SwapOrder(order, lab[a].pos, lab[b].pos), SwapLabels(lab, a, b))
  {
  }

  lemma SwapRoot<P>(m: Memory<P>, head: P, order: seq<P>, lab: map<P, Label>, a: P, b: P)
    requires RootOk(m, head, order, lab) && NodeOk(m, head, order, lab, a) && NodeOk(m, head, order, lab, b)
    ensures RootOk(SwapNodes(m, head, a, b), head, SwapOrder(order, lab[a].pos, lab[b].pos), SwapLabels(lab, a, b))
  {
  }

  lemma SwapTree<P>(m: Memory<P>, head: P, order: seq<P>, lab: map<P, Label>, a: P, b: P)
    requires IsTree(m, head, order, lab) && a in lab && b in lab && a != b
    requires NodeOk(m, head, order, lab, a) && NodeOk(m, head, order, lab, b)
    ensures IsTree(SwapNodes(m, head, a, b), head, SwapOrder(order, lab[a].pos, lab[b].pos), SwapLabels(lab, a, b))
  {
    hide NodeOk, RootOk, OrderOk;
    NodeFacts(m, head, order, lab, a);
    NodeFacts(m, head, order, lab, b);
    var m', lab' := SwapNodes(m, head, a, b), SwapLabels(lab, a, b);
    SwapKeepsOrder(order, lab, a, b);
    SwapRoot(m, head, order, lab, a, b);
    var order' := SwapOrder(order, lab[a].pos, lab[b].pos);
    forall n | n in lab' ensures NodeOk(m', head, order', lab', n) {
      SwapNode(m, head, order, lab, a, b, n);
    }
  }

  // Attaching and detaching a leaf

  ghost function Attach<P>(m: Memory<P>, head: P, p: P, s: Side, new': P): Memory<P>
    requires p in m
  {
    map n | n in m.Keys + {new'} ::
      if n == new' then Cell(p, head, head, Red)
      else if n == p then (if s == Left then m[n].(left := new') else m[n].(right := new'))
      else m[n]
  }

  function Slide(l: Label, k: int, s: Side): Label {
    Label(if l.lo > k || (s == Right && l.lo == k) then l.lo + 1 else l.lo,
          if l.pos >= k then l.pos + 1 else l.pos,
          if l.hi > k || (s == Right && l.hi == k) then l.hi + 1 else l.hi)
  }

  ghost function AttachLabels<P>(lab: map<P, Label>, new': P, k: int, s: Side): map<P, Label> {
    map n | n in lab.Keys + {new'} :: if n == new' then Label(k, k, k + 1) else Slide(lab[n], k, s)
  }

  /** The in-order index a new leaf takes when attached below p on side s. */
  ghost function SlotIndex<P>(lab: map<P, Label>, p: P, s: Side): int
    requires p in lab
  {
    if s == Left then lab[p].pos else lab[p].pos + 1
  }

  lemma AttachKeepsSpan<P>(m: Memory<P>, head: P, order: seq<P>, lab: map<P, Label>, p: P, s: Side, new': P, n: P)
    requires NodeOk(m, head, order, lab, p) && head !in lab && new' !in m && lab.Keys <= m.Keys && Kid(m, p, s) == head
    requires n != new' ==> NodeOk(m, head, order, lab, n)
    ensures var k := SlotIndex(lab, p, s);
      0 <= k <= |order| && SpanOk(Inserted(order, k, new'), AttachLabels(lab, new', k, s), n)
  {
  }

  lemma AttachKeepsLeft<P>(m: Memory<P>, head: P, order: seq<P>, lab: map<P, Label>, p: P, s: Side, new': P, n: P)
    requires NodeOk(m, head, order, lab, p) && head !in lab && new' !in m && lab.Keys <= m.Keys && Kid(m, p, s) == head
    requires n != new' ==> NodeOk(m, head, order, lab, n)
    ensures var k := SlotIndex(lab, p, s);
      0 <= k <= |order| && head in Attach(m, head, p, s, new') && n in Attach(m, head, p, s, new')
      && LeftOk(Attach(m, head, p, s, new'), head, AttachLabels(lab, new', k, s), n)
  {
    hide RightOk, ParentOk;
  }

  lemma AttachKeepsRight<P>(m: Memory<P>, head: P, order: seq<P>, lab: map<P, Label>, p: P, s: Side, new': P, n: P)
    requires NodeOk(m, head, order, lab, p) && head !in lab && new' !in m && lab.Keys <= m.Keys && Kid(m, p, s) == head
    requires n != new' ==> NodeOk(m, head, order, lab, n)
    ensures var k := SlotIndex(lab, p, s);
      0 <= k <= |order| && head in Attach(m, head, p, s, new') && n in Attach(m, head, p, s, new')
      && RightOk(Attach(m, head, p, s, new'), head, AttachLabels(lab, new', k, s), n)
  {
    hide LeftOk, ParentOk;
  }

  lemma AttachKeepsParent<P>(m: Memory<P>, head: P, order: seq<P>, lab: map<P, Label>, p: P, s: Side, new': P, n: P)
    requires NodeOk(m, head, order, lab, p) && head !in lab && new' !in m && lab.Keys <= m.Keys && Kid(m, p, s) == head
    requires n != new' ==> NodeOk(m, head, order, lab, n)
    ensures var k := SlotIndex(lab, p, s);
      0 <= k <= |order| && head in Attach(m, head, p, s, new') && n in Attach(m, head, p, s, new')
      && ParentOk(Attach(m, head, p, s, new'), head, AttachLabels(lab, new', k, s), n)
  {
  }

  lemma AttachNode<P>(m: Memory<P>, head: P, order: seq<P>, lab: map<P, Label>, p: P, s: Side, new': P, n: P)
    requires NodeOk(m, head, order, lab, p) && head !in lab && new' !in m && lab.Keys <= m.Keys && Kid(m, p, s) == head
    requires n != new' ==> NodeOk(m, head, order, lab, n)
    ensures var k := SlotIndex(lab, p, s);
      0 <= k <= |order| &&
        NodeOk(Attach(m, head, p, s, new'), head, Inserted(order, k, new'), AttachLabels(lab, new', k, s), n)
  {
    hide SpanOk, LeftOk, RightOk, ParentOk;
    AttachKeepsSpan(m, head, order, lab, p, s, new', n);
    AttachKeepsLeft(m, head, order, lab, p, s, new', n);
    AttachKeepsRight(m, head, order, lab, p, s, new', n);
    AttachKeepsParent(m, head, order, lab, p, s, new', n);
  }

  lemma AttachKeepsOrder<P>(order: seq<P>, lab: map<P, Label>, k: int, s: Side, new': P)
    requires OrderOk(order, lab) && 0 <= k <= |order| && new' !in lab
    ensures OrderOk(Inserted(order, k, new'), AttachLabels(lab, new', k, s))
  {
  }

  lemma AttachRoot<P>(m: Memory<P>, head: P, order: seq<P>, lab: map<P, Label>, p: P, s: Side, new': P)
    requires RootOk(m, head, order, lab) && NodeOk(m, head, order, lab, p) && new' !in m
    ensures var k := SlotIndex(lab, p, s);
      0 <= k <= |order| &&
        RootOk(Attach(m, head, p, s, new'), head, Inserted(order, k, new'), AttachLabels(lab, new', k, s))
  {
  }

  lemma AttachTree<P>(m: Memory<P>, head: P, order: seq<P>, lab: map<P, Label>, p: P, s: Side, new': P)
    requires IsTree(m, head, order, lab) && NodeOk(m, head, order, lab, p) && new' !in m && Kid(m, p, s) == head
    ensures var k := SlotIndex(lab, p, s);
      0 <= k <= |order| &&
        IsTree(Attach(m, head, p, s, new'), head, Inserted(order, k, new'), AttachLabels(lab, new', k, s))
  {
    hide NodeOk, RootOk, OrderOk;
    NodeFacts(m, head, order, lab, p);
    var k := SlotIndex(lab, p, s);
    AttachKeepsOrder(order, lab, k, s, new');
    AttachRoot(m, head, order, lab, p, s, new');
    var m', lab', order' := Attach(m, head, p, s, new'), AttachLabels(lab, new', k, s), Inserted(order, k, new');
    forall n | n in lab' ensures NodeOk(m', head, order', lab', n) {
      AttachNode(m, head, order, lab, p, s, new', n);
    }
  }

  /** Memory once the leaf v has been cut off and freed. */
  ghost function Detach<P>(m: Memory<P>, head: P, v: P): Memory<P>
    requires v in m
  {
    map n | n in m.Keys - {v} ::
      if n == head then (if m[head].par == v then m[n].(par := head) else m[n])
      else if n == m[v].par then
        (if m[n].left == v then m[n].(left := head) else m[n].(right := head))
      else m[n]
  }

  ghost function DetachLabels<P>(lab: map<P, Label>, v: P): map<P, Label>
    requires v in lab
  {
    var k := lab[v].pos;
    map n | n in lab.Keys - {v} ::
      Label(if lab[n].lo > k then lab[n].lo - 1 else lab[n].lo,
            if lab[n].pos > k then lab[n].pos - 1 else lab[n].pos,
            if lab[n].hi > k then lab[n].hi - 1 else lab[n].hi)
  }

  lemma DetachNode<P>(m: Memory<P>, head: P, order: seq<P>, lab: map<P, Label>, v: P, n: P)
    requires NodeOk(m, head, order, lab, v) && head !in lab && lab.Keys <= m.Keys && m[v].left == head == m[v].right
    requires NodeOk(m, head, order, lab, n) && n != v
    ensures NodeOk(Detach(m, head, v), head, Removed(order, lab[v].pos), DetachLabels(lab, v), n)
  {
  }

  lemma DetachKeepsOrder<P>(order: seq<P>, lab: map<P, Label>, v: P)
    requires OrderOk(order, lab) && v in lab && SpanOk(order, lab, v)
    ensures OrderOk(Removed(order, lab[v].pos), DetachLabels(lab, v))
  {
  }

  lemma DetachRoot<P>(m: Memory<P>, head: P, order: seq<P>, lab: map<P, Label>, v: P)
    requires RootOk(m, head, order, lab) && NodeOk(m, head, order, lab, v) && m[v].left == head == m[v].right
    requires m[head].par in lab ==> m[head].par in m && SpanOk(order, lab, m[head].par)
    ensures RootOk(Detach(m, head, v), head, Removed(order, lab[v].pos), DetachLabels(lab, v))
  {
  }

  lemma DetachTree<P>(m: Memory<P>, head: P, order: seq<P>, lab: map<P, Label>, v: P)
    requires IsTree(m, head, order, lab) && NodeOk(m, head, order, lab, v) && m[v].left == head == m[v].right
    ensures IsTree(Detach(m, head, v), head, Removed(order, lab[v].pos), DetachLabels(lab, v))
  {
    hide NodeOk, RootOk, OrderOk;
    NodeFacts(m, head, order, lab, v);
    RootFacts(m, head, order, lab);
    if m[head].par in lab { NodeFacts(m, head, order, lab, m[head].par); }
    DetachKeepsOrder(order, lab, v);
    DetachRoot(m, head, order, lab, v);
    var m', lab', order' := Detach(m, head, v), DetachLabels(lab, v), Removed(order, lab[v].pos);
    forall n | n in lab' ensures NodeOk(m', head, order', lab', n) {
      DetachNode(m, head, order, lab, v, n);
    }
  }
}
