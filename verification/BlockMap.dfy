/** The circular block map under `deque`: block pointers in a table, raw or constructed cells in each block. */
module BlockMap {
  import opened Division
  import opened Options

  const BLOCK_SIZE := 4

  /** The heap of allocated blocks; a cell is None while it is raw memory, Some once an object is constructed in it. */
  type Heap<Ptr, T> = map<Ptr, seq<Option<T>>>

  function GetBlock(offset: nat, capacity: nat): nat
    requires capacity > 0
  {
    offset / BLOCK_SIZE % capacity
  }

  ghost predicate Live<Ptr, T>(table: seq<Option<Ptr>>, heap: Heap<Ptr, T>, b: int) {
    0 <= b < |table| && table[b].Some? && table[b].value in heap && |heap[table[b].value]| == BLOCK_SIZE
  }

  /** The table's pointers own the blocks of the heap: none dangles, none is shared, none is leaked. */
  ghost predicate Owns<Ptr, T>(table: seq<Option<Ptr>>, heap: Heap<Ptr, T>) {
    && (forall b :: 0 <= b < |table| && table[b].Some? ==> Live(table, heap, b))
    && (forall a, b :: 0 <= a < b < |table| && table[a].Some? ==> table[a] != table[b])
    && (forall p :: p in heap ==> Some(p) in table)
  }

  /** What cell c of block b holds; a block not allocated yet holds nothing. */
  ghost function CellAt<Ptr, T>(table: seq<Option<Ptr>>, heap: Heap<Ptr, T>, b: int, c: int): Option<T> {
    if Live(table, heap, b) && 0 <= c < BLOCK_SIZE then heap[table[b].value][c] else None
  }

  /** What the slot of an offset holds. */
  ghost function Cell<Ptr, T>(table: seq<Option<Ptr>>, heap: Heap<Ptr, T>, offset: int): Option<T> {
    if offset >= 0 && |table| > 0 then CellAt(table, heap, GetBlock(offset, |table|), offset % BLOCK_SIZE) else None
  }

  ghost predicate CellOk<Ptr, T>(table: seq<Option<Ptr>>, heap: Heap<Ptr, T>, first: int, s: seq<T>, i: int) {
    Cell(table, heap, first + i) == if 0 <= i < |s| then Some(s[i]) else None
  }

  /** Going once round the table from `first`, the cells hold s and then nothing. */
  ghost predicate Holds<Ptr, T>(table: seq<Option<Ptr>>, heap: Heap<Ptr, T>, first: int, s: seq<T>) {
    && first >= 0
    && 2 < |table|
    && |s| <= (|table| - 1) * BLOCK_SIZE
    && forall i :: 0 <= i < |table| * BLOCK_SIZE ==> CellOk(table, heap, first, s, i)
  }

  /** An offset's block and cell are those of its remainder by the number of slots. */
  lemma SlotOf(o: nat, capacity: int)
    requires capacity > 0
    ensures GetBlock(o, capacity) == o % (capacity * BLOCK_SIZE) / BLOCK_SIZE < capacity
    ensures o % BLOCK_SIZE == o % (capacity * BLOCK_SIZE) % BLOCK_SIZE
  {
    var k, r := Divided(capacity * BLOCK_SIZE, o);
    assert o / 4 == capacity * k + r / 4;
    Quotient(capacity, k, r / 4, o / 4);
  }

  /** Offsets less than one turn apart never share a slot. */
  lemma SlotsApart(o: nat, p: nat, capacity: int)
    requires capacity > 0 && o < p < o + capacity * BLOCK_SIZE
    ensures GetBlock(o, capacity) != GetBlock(p, capacity) || o % BLOCK_SIZE != p % BLOCK_SIZE
  {
    SlotOf(o, capacity);
    SlotOf(p, capacity);
    var n := capacity * BLOCK_SIZE;
    var k, r := Divided(n, o);
    if r + (p - o) < n {
      Quotient(n, k, r + (p - o), p);
    } else {
      Quotient(n, k + 1, r + (p - o) - n, p);
    }
  }

  lemma OneTurn(o: nat, capacity: int)
    requires capacity > 0
    ensures GetBlock(o + capacity * BLOCK_SIZE, capacity) == GetBlock(o, capacity)
  {
    var k, r := Divided(capacity, o / 4);
    Quotient(capacity, k + 1, r, o / 4 + capacity);
  }

  /** Every slot is met once in the turn that starts at `first`. */
  lemma SlotReached(first: nat, o: nat, capacity: int) returns (i: int)
    requires capacity > 0
    ensures 0 <= i < capacity * BLOCK_SIZE
    ensures GetBlock(first + i, capacity) == GetBlock(o, capacity) && (first + i) % BLOCK_SIZE == o % BLOCK_SIZE
  {
    var n := capacity * BLOCK_SIZE;
    var k, f := Divided(n, first);
    var j, r := Divided(n, o);
    SlotOf(o, capacity);
    if f <= r {
      i := r - f;
      Quotient(n, k, r, first + i);
    } else {
      i := r - f + n;
      Quotient(n, k + 1, r, first + i);
    }
    SlotOf(first + i, capacity);
  }

  // Writing one cell, and allocating one block.

  lemma WriteCell<Ptr, T>(table: seq<Option<Ptr>>, heap: Heap<Ptr, T>, o: nat, x: Option<T>, p: nat)
    requires Owns(table, heap) && |table| > 0 && Live(table, heap, GetBlock(o, |table|))
    requires o - |table| * BLOCK_SIZE < p < o + |table| * BLOCK_SIZE
    ensures var ptr := table[GetBlock(o, |table|)].value;
      Cell(table, heap[ptr := heap[ptr][o % BLOCK_SIZE := x]], p) == if p == o then x else Cell(table, heap, p)
  {
    if p < o {
      SlotsApart(p, o, |table|);
    } else if o < p {
      SlotsApart(o, p, |table|);
    }
    var b, a := GetBlock(o, |table|), GetBlock(p, |table|);
    SlotOf(p, |table|);
    SlotOf(o, |table|);
    hide GetBlock;
    assert a < b || b < a || a == b;
  }

  lemma WriteOwns<Ptr, T>(table: seq<Option<Ptr>>, heap: Heap<Ptr, T>, ptr: Ptr, c: int, x: Option<T>)
    requires Owns(table, heap) && ptr in heap && 0 <= c < |heap[ptr]|
    ensures Owns(table, heap[ptr := heap[ptr][c := x]])
  {
    forall b | 0 <= b < |table| && table[b].Some? ensures Live(table, heap[ptr := heap[ptr][c := x]], b) {
      assert Live(table, heap, b);
    }
  }

  function RawBlock<T>(): seq<Option<T>> {
    [None, None, None, None]
  }

  lemma Allocate<Ptr, T>(table: seq<Option<Ptr>>, heap: Heap<Ptr, T>, b: int, ptr: Ptr)
    requires Owns(table, heap) && 0 <= b < |table| && table[b].None? && ptr !in heap
    ensures Owns(table[b := Some(ptr)], heap[ptr := RawBlock()])
    ensures forall o :: Cell(table[b := Some(ptr)], heap[ptr := RawBlock()], o) == Cell(table, heap, o)
  {
    var t, h := table[b := Some(ptr)], heap[ptr := RawBlock()];
    forall a | 0 <= a < |t| && t[a].Some? ensures Live(t, h, a) {
      assert a != b ==> Live(table, heap, a);
    }
    forall a | 0 <= a < |table| ensures a != b ==> table[a] != Some(ptr) {
      assert table[a].Some? ==> Live(table, heap, a);
    }
    forall p | p in h ensures Some(p) in t {
      if p == ptr {
        assert t[b] == Some(p);
      } else {
        var a :| 0 <= a < |table| && table[a] == Some(p);
        assert t[a] == Some(p);
      }
    }
    forall o ensures Cell(t, h, o) == Cell(table, heap, o) {
      AllocateCell(table, heap, b, ptr, o);
    }
  }

  lemma AllocateCell<Ptr, T>(table: seq<Option<Ptr>>, heap: Heap<Ptr, T>, b: int, ptr: Ptr, o: int)
    requires Owns(table, heap) && 0 <= b < |table| && table[b].None? && ptr !in heap
    ensures Cell(table[b := Some(ptr)], heap[ptr := RawBlock()], o) == Cell(table, heap, o)
  {
    if o >= 0 {
      SlotOf(o, |table|);
      var a := GetBlock(o, |table|);
      hide GetBlock;
      assert a != b && table[a].Some? ==> Live(table, heap, a);
    }
  }

  // How the contents move with the cells.

  /** Within one turn of offset o, the only cell that changed is the one at o, which became x. */
  ghost predicate Written<Ptr, T>(table: seq<Option<Ptr>>, heap: Heap<Ptr, T>, table': seq<Option<Ptr>>,
                                  heap': Heap<Ptr, T>, o: int, x: Option<T>) {
    && |table'| == |table|
    && forall p :: o - |table| * BLOCK_SIZE < p < o + |table| * BLOCK_SIZE && p >= 0 ==>
                     Cell(table', heap', p) == if p == o then x else Cell(table, heap, p)
  }

  lemma WriteAll<Ptr, T>(table: seq<Option<Ptr>>, heap: Heap<Ptr, T>, o: nat, x: Option<T>)
    requires Owns(table, heap) && |table| > 0 && Live(table, heap, GetBlock(o, |table|))
    ensures var ptr := table[GetBlock(o, |table|)].value;
      var heap' := heap[ptr := heap[ptr][o % BLOCK_SIZE := x]];
      Owns(table, heap') && Written(table, heap, table, heap', o, x)
  {
    var ptr := table[GetBlock(o, |table|)].value;
    WriteOwns(table, heap, ptr, o % BLOCK_SIZE, x);
    var heap' := heap[ptr := heap[ptr][o % BLOCK_SIZE := x]];
    forall p | o - |table| * BLOCK_SIZE < p < o + |table| * BLOCK_SIZE && p >= 0
      ensures Cell(table, heap', p) == if p == o then x else Cell(table, heap, p)
    {
      WriteCell(table, heap, o, x, p);
    }
  }

  lemma HoldsAppended<Ptr, T>(table: seq<Option<Ptr>>, heap: Heap<Ptr, T>, table': seq<Option<Ptr>>,
                              heap': Heap<Ptr, T>, first: int, s: seq<T>, x: T)
    requires Holds(table, heap, first, s) && |s| < (|table| - 1) * BLOCK_SIZE
    requires Written(table, heap, table', heap', first + |s|, Some(x))
    ensures Holds(table', heap', first, s + [x])
  {
    hide Cell;
    forall i | 0 <= i < |table| * BLOCK_SIZE ensures CellOk(table', heap', first, s + [x], i) {
      assert CellOk(table, heap, first, s, i);
    }
  }

  lemma HoldsWithoutLast<Ptr, T>(table: seq<Option<Ptr>>, heap: Heap<Ptr, T>, table': seq<Option<Ptr>>,
                                 heap': Heap<Ptr, T>, first: int, s: seq<T>)
    requires Holds(table, heap, first, s) && |s| > 0
    requires Written(table, heap, table', heap', first + |s| - 1, None)
    ensures Holds(table', heap', first, s[..|s| - 1])
  {
    hide Cell;
    var t := s[..|s| - 1];
    forall i | 0 <= i < |table| * BLOCK_SIZE ensures CellOk(table', heap', first, t, i) {
      assert CellOk(table, heap, first, s, i);
    }
  }

  lemma HoldsPrepended<Ptr, T>(table: seq<Option<Ptr>>, heap: Heap<Ptr, T>, table': seq<Option<Ptr>>,
                               heap': Heap<Ptr, T>, first: int, s: seq<T>, x: T)
    requires Holds(table, heap, first, s) && first > 0 && |s| < (|table| - 1) * BLOCK_SIZE
    requires Written(table, heap, table', heap', first - 1, Some(x))
    ensures Holds(table', heap', first - 1, [x] + s)
  {
    hide Cell;
    var first', t := first - 1, [x] + s;
    forall i | 0 <= i < |table| * BLOCK_SIZE ensures CellOk(table', heap', first', t, i) {
      assert i > 0 ==> CellOk(table, heap, first, s, i - 1);
    }
  }

  lemma CellTurn<Ptr, T>(table: seq<Option<Ptr>>, heap: Heap<Ptr, T>, o: nat)
    requires |table| > 0
    ensures Cell(table, heap, o + |table| * BLOCK_SIZE) == Cell(table, heap, o)
  {
    OneTurn(o, |table|);
    hide GetBlock, CellAt;
    assert (o + |table| * BLOCK_SIZE) % BLOCK_SIZE == o % BLOCK_SIZE;
  }

  lemma HoldsWithoutFirst<Ptr, T>(table: seq<Option<Ptr>>, heap: Heap<Ptr, T>, table': seq<Option<Ptr>>,
                                  heap': Heap<Ptr, T>, first: int, s: seq<T>)
    requires Holds(table, heap, first, s) && |s| > 0
    requires Written(table, heap, table', heap', first, None)
    ensures Holds(table', heap', first + 1, s[1..])
  {
    CellTurn(table', heap', first);
    hide Cell;
    var first', t := first + 1, s[1..];
    forall i | 0 <= i < |table| * BLOCK_SIZE ensures CellOk(table', heap', first', t, i) {
      assert i + 1 < |table| * BLOCK_SIZE ==> CellOk(table, heap, first, s, i + 1);
    }
  }

  lemma HoldsUpdated<Ptr, T>(table: seq<Option<Ptr>>, heap: Heap<Ptr, T>, table': seq<Option<Ptr>>, heap': Heap<Ptr, T>,
                             first: int, s: seq<T>, j: int, x: T)
    requires Holds(table, heap, first, s) && 0 <= j < |s|
    requires Written(table, heap, table', heap', first + j, Some(x))
    ensures Holds(table', heap', first, s[j := x])
  {
    hide Cell;
    var t := s[j := x];
    forall i | 0 <= i < |table| * BLOCK_SIZE ensures CellOk(table', heap', first, t, i) {
      assert CellOk(table, heap, first, s, i);
    }
  }

  lemma HoldsOneTurnOn<Ptr, T>(table: seq<Option<Ptr>>, heap: Heap<Ptr, T>, first: int, s: seq<T>)
    requires Holds(table, heap, first, s)
    ensures Holds(table, heap, first + |table| * BLOCK_SIZE, s)
  {
    var first' := first + |table| * BLOCK_SIZE;
    forall i | 0 <= i < |table| * BLOCK_SIZE ensures CellOk(table, heap, first', s, i) {
      CellTurn(table, heap, first + i);
      hide Cell;
      assert CellOk(table, heap, first, s, i);
    }
  }

  /** An empty deque is empty from wherever one starts. */
  lemma HoldsNothing<Ptr, T>(table: seq<Option<Ptr>>, heap: Heap<Ptr, T>, first: int, first': nat)
    requires Holds(table, heap, first, [])
    ensures Holds(table, heap, first', [])
  {
    forall i | 0 <= i < |table| * BLOCK_SIZE ensures CellOk(table, heap, first', [], i) {
      var j := SlotReached(first, first' + i, |table|);
      assert CellOk(table, heap, first, [], j);
    }
  }

  /** The slots next to the elements are raw. */
  lemma RawBefore<Ptr, T>(table: seq<Option<Ptr>>, heap: Heap<Ptr, T>, first: int, s: seq<T>)
    requires Holds(table, heap, first, s) && first > 0
    ensures Cell(table, heap, first - 1) == None
  {
    CellTurn(table, heap, first - 1);
    assert CellOk(table, heap, first, s, |table| * BLOCK_SIZE - 1);
  }

  lemma RawAfter<Ptr, T>(table: seq<Option<Ptr>>, heap: Heap<Ptr, T>, first: int, s: seq<T>)
    requires Holds(table, heap, first, s)
    ensures Cell(table, heap, first + |s|) == None
  {
    assert CellOk(table, heap, first, s, |s|);
  }

  /** The i-th element is live: its block is allocated, and its cell constructed. */
  lemma ElementLive<Ptr, T>(table: seq<Option<Ptr>>, heap: Heap<Ptr, T>, first: int, s: seq<T>, i: int)
    requires Holds(table, heap, first, s) && 0 <= i < |s|
    ensures var b := GetBlock(first + i, |table|);
      && Live(table, heap, b)
      && heap[table[b].value][(first + i) % BLOCK_SIZE] == Cell(table, heap, first + i) == Some(s[i])
  {
    assert CellOk(table, heap, first, s, i);
  }

  lemma EmptyHolds<Ptr, T>(table: seq<Option<Ptr>>, first: nat)
    requires 2 < |table| && forall b :: 0 <= b < |table| ==> table[b] == None
    ensures Holds<Ptr, T>(table, map[], first, [])
  {
    forall i | 0 <= i < |table| * BLOCK_SIZE ensures CellOk<Ptr, T>(table, map[], first, [], i) {
    }
  }

  // Growing: the table's pointers move to a longer table, from the block of the first element on.

  /** The number of blocks after the first one that the elements first .. first + size - 1 reach into. */
  function Span(first: nat, size: nat): int
  {
    (first % BLOCK_SIZE + size - 1) / BLOCK_SIZE
  }

  /** The block k steps round the table from `start`, and the steps to reach a block. */
  function Around(start: int, k: int, capacity: int): int {
    if start + k < capacity then start + k else start + k - capacity
  }

  function Steps(start: int, b: int, capacity: int): int {
    if start <= b then b - start else b - start + capacity
  }

  /** The step the loop takes, with its wrap at the end of the table, is adding one modulo the capacity. */
  lemma NextBlock(q: nat, capacity: int)
    requires capacity > 0
    ensures (q + 1) % capacity == if q % capacity == capacity - 1 then 0 else q % capacity + 1
  {
    var k, r := Divided(capacity, q);
    if r == capacity - 1 {
      Quotient(capacity, k + 1, 0, q + 1);
    } else {
      Quotient(capacity, k, r + 1, q + 1);
    }
  }

  /** So k steps from the block of one offset lead to the block k blocks further on. */
  lemma {:induction false} AroundIsModular(q: nat, k: nat, capacity: int)
    requires k < capacity
    ensures Around(q % capacity, k, capacity) == (q + k) % capacity
  {
    if k > 0 {
      AroundIsModular(q, k - 1, capacity);
      NextBlock(q + k - 1, capacity);
    }
  }

  lemma SplitOffset(first: nat, i: nat, capacity: int)
    requires capacity > 0 && (first % BLOCK_SIZE + i) / BLOCK_SIZE < capacity
    ensures GetBlock(first + i, capacity) ==
      Around(GetBlock(first, capacity), (first % BLOCK_SIZE + i) / BLOCK_SIZE, capacity)
    ensures (first + i) % BLOCK_SIZE == (first % BLOCK_SIZE + i) % BLOCK_SIZE
  {
    assert (first + i) / 4 == first / 4 + (first % 4 + i) / 4;
    AroundIsModular(first / 4, (first % 4 + i) / 4, capacity);
  }

  /** A deque that must grow has its first and its last element in different blocks. */
  lemma EndsApart(first: nat, size: nat, capacity: int)
    requires capacity > 2 && size == (capacity - 1) * BLOCK_SIZE
    ensures capacity - 2 <= Span(first, size) < capacity
    ensures GetBlock(first + size - 1, capacity) == Around(GetBlock(first, capacity), Span(first, size), capacity)
    ensures GetBlock(first + size - 1, capacity) != GetBlock(first, capacity)
  {
    SplitOffset(first, size - 1, capacity);
  }

  /** The longer table starts with the n + 1 blocks from `start` on, and is empty after them. */
  ghost predicate Moved<Ptr>(table: seq<Option<Ptr>>, table': seq<Option<Ptr>>, start: int, n: int) {
    && 0 <= start < |table|
    && 0 <= n < |table| <= |table'|
    && forall k :: 0 <= k < |table'| ==> table'[k] == if k <= n then table[Around(start, k, |table|)] else None
  }

  /** The first k of the blocks from `start` on have moved to the longer table, ... */
  ghost predicate PointersMoved<Ptr>(table: seq<Option<Ptr>>, table': seq<Option<Ptr>>, start: int, k: int) {
    && 0 <= start < |table| && 0 <= k <= |table| <= |table'|
    && forall j :: 0 <= j < |table'| ==> table'[j] == if j < k then table[Around(start, j, |table|)] else None
  }

  /** ... and are null in the old one. */
  ghost predicate PointersLeft<Ptr>(table: seq<Option<Ptr>>, left: seq<Option<Ptr>>, start: int, k: int) {
    && |left| == |table|
    && forall b :: 0 <= b < |table| ==> left[b] == if Steps(start, b, |table|) < k then None else table[b]
  }

  lemma NoPointerMoved<Ptr>(table: seq<Option<Ptr>>, table': seq<Option<Ptr>>, start: int)
    requires 0 <= start < |table| <= |table'| && forall k :: 0 <= k < |table'| ==> table'[k] == None
    ensures PointersMoved(table, table', start, 0) && PointersLeft(table, table, start, 0)
  {
  }

  lemma MoveOnePointer<Ptr>(table: seq<Option<Ptr>>, left: seq<Option<Ptr>>, table': seq<Option<Ptr>>, start: int,
                            k: int)
    requires PointersMoved(table, table', start, k) && PointersLeft(table, left, start, k) && k < |table|
    ensures var b := Around(start, k, |table|);
      && 0 <= b < |table|
      && PointersMoved(table, table'[k := left[b]], start, k + 1) && PointersLeft(table, left[b := None], start, k + 1)
  {
    var b := Around(start, k, |table|);
    forall a | 0 <= a < |table| && a != b ensures Steps(start, a, |table|) < k <==> Steps(start, a, |table|) < k + 1 {
    }
  }

  lemma AllPointersMoved<Ptr>(table: seq<Option<Ptr>>, left: seq<Option<Ptr>>, table': seq<Option<Ptr>>, start: int,
                              n: int)
    requires PointersMoved(table, table', start, n + 1) && PointersLeft(table, left, start, n + 1) && 0 <= n < |table|
    ensures Moved(table, table', start, n) && |left| == |table|
    ensures forall b :: 0 <= b < |table| ==> left[b] == if Steps(start, b, |table|) <= n then None else table[b]
  {
  }

  lemma BlockInTable(first: nat, size: nat, capacity: int)
    requires capacity > 0
    ensures 0 <= GetBlock(first, capacity) < capacity
    ensures Around(GetBlock(first, capacity), 0, capacity) == GetBlock(first, capacity)
    ensures size > 0 ==> 0 <= Span(first, size)
  {
  }

  /** Before the last of the blocks, the next one is one step on, round the end of the table. */
  lemma AroundNext(start: int, k: int, n: int, capacity: int)
    requires 0 <= start < capacity && 0 <= k <= n < capacity && Around(start, k, capacity) != Around(start, n, capacity)
    ensures k < n && 0 <= Around(start, k, capacity) < capacity && 0 <= Around(start, k + 1, capacity) < capacity
    ensures var b := Around(start, k, capacity);
      Around(start, k + 1, capacity) == if b == capacity - 1 then 0 else b + 1
  {
  }

  lemma AroundOnce(start: int, k: int, n: int, capacity: int)
    requires 0 <= start < capacity && 0 <= k <= n < capacity && Around(start, k, capacity) == Around(start, n, capacity)
    ensures k == n && 0 <= Around(start, k, capacity) < capacity
  {
  }

  ghost function Kept<Ptr, T>(heap: Heap<Ptr, T>, table: seq<Option<Ptr>>): Heap<Ptr, T> {
    map p | p in heap && Some(p) in table :: heap[p]
  }

  lemma MovedOrLeft<Ptr, T>(table: seq<Option<Ptr>>, heap: Heap<Ptr, T>, table': seq<Option<Ptr>>,
                            left: seq<Option<Ptr>>, start: int, n: int, b: int)
    requires Owns(table, heap) && Moved(table, table', start, n) && |left| == |table| && 0 <= b < |table| &&
             table[b].Some?
    requires forall b :: 0 <= b < |table| ==> left[b] == if Steps(start, b, |table|) <= n then None else table[b]
    ensures table[b] in table' <==> table[b] !in left
  {
    var k := Steps(start, b, |table|);
    if k <= n {
      assert table'[k] == table[b];
      forall a | 0 <= a < |left| ensures left[a] != table[b] {
        assert a < b || b < a || a == b;
      }
    } else {
      assert left[b] == table[b];
      forall j | 0 <= j < |table'| ensures table'[j] != table[b] {
        var a := Around(start, j, |table|);
        assert j <= n ==> a < b || b < a;
      }
    }
  }

  /** What is left in the old table after the move is what the new table does not own. */
  lemma LeftOver<Ptr, T>(table: seq<Option<Ptr>>, heap: Heap<Ptr, T>, table': seq<Option<Ptr>>, left: seq<Option<Ptr>>,
                         start: int, n: int)
    requires Owns(table, heap) && Moved(table, table', start, n) && |left| == |table|
    requires forall b :: 0 <= b < |table| ==> left[b] == if Steps(start, b, |table|) <= n then None else table[b]
    ensures Kept(heap, table') == map p | p in heap && Some(p) !in left :: heap[p]
  {
    forall p | p in heap ensures Some(p) in table' <==> Some(p) !in left {
      var b :| 0 <= b < |table| && table[b] == Some(p);
      MovedOrLeft(table, heap, table', left, start, n, b);
    }
    hide Owns, Moved, Steps;
  }

  lemma MovedOwns<Ptr, T>(table: seq<Option<Ptr>>, heap: Heap<Ptr, T>, table': seq<Option<Ptr>>, start: int, n: int)
    requires Owns(table, heap) && Moved(table, table', start, n)
    ensures Owns(table', Kept(heap, table'))
  {
    forall k | 0 <= k < |table'| && table'[k].Some? ensures Live(table', Kept(heap, table'), k) {
      assert Live(table, heap, Around(start, k, |table|));
      assert table'[k] in table';
    }
    forall j, k | 0 <= j < k < |table'| && table'[j].Some? ensures table'[j] != table'[k] {
      var a, b := Around(start, j, |table|), Around(start, k, |table|);
      if k <= n {
        assert a < b || b < a;
      }
    }
  }

  lemma MovedAt<Ptr, T>(table: seq<Option<Ptr>>, heap: Heap<Ptr, T>, table': seq<Option<Ptr>>, start: int, n: int,
                        k: int, c: int)
    requires Owns(table, heap) && Moved(table, table', start, n) && 0 <= k <= n
    ensures CellAt(table', Kept(heap, table'), k, c) == CellAt(table, heap, Around(start, k, |table|), c)
  {
    var b := Around(start, k, |table|);
    assert table[b].Some? ==> Live(table, heap, b);
    assert table'[k] in table';
  }

  /** The cells before the last element's block and in it hold what they held, in the same order. */
  lemma MovedAhead<Ptr, T>(table: seq<Option<Ptr>>, heap: Heap<Ptr, T>, table': seq<Option<Ptr>>, first: nat, n: int,
                           i: nat)
    requires Owns(table, heap) && |table| > 0 && Moved(table, table', GetBlock(first, |table|), n)
    requires (first % BLOCK_SIZE + i) / BLOCK_SIZE <= n
    ensures Cell(table', Kept(heap, table'), first % BLOCK_SIZE + i) == Cell(table, heap, first + i)
  {
    var k := (first % BLOCK_SIZE + i) / BLOCK_SIZE;
    Quotient(|table'|, 0, k, k);
    SplitOffset(first, i, |table|);
    MovedAt(table, heap, table', GetBlock(first, |table|), n, k, (first + i) % BLOCK_SIZE);
    hide CellAt, Moved, Owns, Around, Kept;
  }

  /** Past the last element's block the longer table has no block. */
  lemma MovedBeyond<Ptr, T>(table: seq<Option<Ptr>>, heap: Heap<Ptr, T>, table': seq<Option<Ptr>>, first: nat, n: int,
                            i: nat)
    requires |table| > 0 && Moved(table, table', GetBlock(first, |table|), n)
    requires n < (first % BLOCK_SIZE + i) / BLOCK_SIZE < |table'|
    ensures Cell(table', heap, first % BLOCK_SIZE + i) == None
  {
    var k := (first % BLOCK_SIZE + i) / BLOCK_SIZE;
    Quotient(|table'|, 0, k, k);
  }

  /** The cells of the first block before the first element come last in a turn: they were last in the old one too. */
  lemma MovedLast<Ptr, T>(table: seq<Option<Ptr>>, heap: Heap<Ptr, T>, table': seq<Option<Ptr>>, first: nat, n: int,
                          c: nat)
    requires Owns(table, heap) && |table| > 0 && Moved(table, table', GetBlock(first, |table|), n)
    requires c < first % BLOCK_SIZE
    ensures Cell(table', Kept(heap, table'), |table'| * BLOCK_SIZE + c) ==
            Cell(table, heap, first - first % BLOCK_SIZE + c + |table| * BLOCK_SIZE)
  {
    hide CellAt, Moved, Owns, Kept, GetBlock, Cell;
    var o := first - first % BLOCK_SIZE + c;
    MovedFirst(table, heap, table', first, n, c);
    TurnStart(|table'|, c);
    CellIs(table', Kept(heap, table'), |table'| * BLOCK_SIZE + c, 0, c);
    SameBlock(first, c, |table|);
    CellIs(table, heap, o, GetBlock(first, |table|), c);
    CellTurn(table, heap, o);
  }

  lemma MovedFirst<Ptr, T>(table: seq<Option<Ptr>>, heap: Heap<Ptr, T>, table': seq<Option<Ptr>>, first: nat, n: int,
                           c: int)
    requires Owns(table, heap) && |table| > 0 && Moved(table, table', GetBlock(first, |table|), n)
    ensures |table'| > 0
    ensures CellAt(table', Kept(heap, table'), 0, c) == CellAt(table, heap, GetBlock(first, |table|), c)
  {
    MovedAt(table, heap, table', GetBlock(first, |table|), n, 0, c);
    hide CellAt, Owns, Kept, GetBlock;
  }

  lemma TurnStart(capacity: int, c: nat)
    requires capacity > 0 && c < BLOCK_SIZE
    ensures GetBlock(capacity * BLOCK_SIZE + c, capacity) == 0 && (capacity * BLOCK_SIZE + c) % BLOCK_SIZE == c
  {
    Quotient(capacity, 1, 0, capacity);
  }

  lemma SameBlock(first: nat, c: nat, capacity: int)
    requires capacity > 0 && c < BLOCK_SIZE
    ensures var o := first - first % BLOCK_SIZE + c;
      o >= 0 && GetBlock(o, capacity) == GetBlock(first, capacity) && o % BLOCK_SIZE == c
  {
    var o := first - first % BLOCK_SIZE + c;
    assert o / 4 == first / 4 && o % 4 == c;
  }

  lemma CellIs<Ptr, T>(table: seq<Option<Ptr>>, heap: Heap<Ptr, T>, o: nat, b: int, c: int)
    requires |table| > 0 && GetBlock(o, |table|) == b && o % BLOCK_SIZE == c
    ensures Cell(table, heap, o) == CellAt(table, heap, b, c)
  {
  }

  lemma HoldsAt<Ptr, T>(table: seq<Option<Ptr>>, heap: Heap<Ptr, T>, first: int, s: seq<T>, i: int)
    requires Holds(table, heap, first, s) && 0 <= i < |table| * BLOCK_SIZE
    ensures first >= 0 && 2 < |table| && CellOk(table, heap, first, s, i)
  {
  }

  lemma MovedCell<Ptr, T>(table: seq<Option<Ptr>>, heap: Heap<Ptr, T>, table': seq<Option<Ptr>>, first: nat, s: seq<T>,
                          i: int)
    requires Owns(table, heap) && Holds(table, heap, first, s) && |s| == (|table| - 1) * BLOCK_SIZE
    requires Moved(table, table', GetBlock(first, |table|), Span(first, |s|)) && 0 <= i < |table'| * BLOCK_SIZE
    ensures CellOk(table', Kept(heap, table'), first % BLOCK_SIZE, s, i)
  {
    hide Cell, Moved, Owns, Kept, Holds, GetBlock;
    var f, n := first % BLOCK_SIZE, Span(first, |s|);
    HoldsAt(table, heap, first, s, 0);
    if (f + i) / BLOCK_SIZE <= n {
      MovedAhead(table, heap, table', first, n, i);
      assert n < |table|;
      HoldsAt(table, heap, first, s, i);
    } else if (f + i) / BLOCK_SIZE < |table'| {
      MovedBeyond(table, Kept(heap, table'), table', first, n, i);
    } else {
      var c := f + i - |table'| * BLOCK_SIZE;
      MovedLast(table, heap, table', first, n, c);
      HoldsAt(table, heap, first, s, |table| * BLOCK_SIZE + c - f);
    }
  }

  lemma MovedHolds<Ptr, T>(table: seq<Option<Ptr>>, heap: Heap<Ptr, T>, table': seq<Option<Ptr>>, first: nat, s: seq<T>)
    requires Owns(table, heap) && Holds(table, heap, first, s) && |s| == (|table| - 1) * BLOCK_SIZE
    requires Moved(table, table', GetBlock(first, |table|), Span(first, |s|))
    ensures Holds(table', Kept(heap, table'), first % BLOCK_SIZE, s)
    ensures Owns(table', Kept(heap, table'))
  {
    MovedOwns(table, heap, table', GetBlock(first, |table|), Span(first, |s|));
    var first', heap' := first % BLOCK_SIZE, Kept(heap, table');
    forall i | 0 <= i < |table'| * BLOCK_SIZE ensures CellOk(table', heap', first', s, i) {
      MovedCell(table, heap, table', first, s, i);
    }
  }
}
