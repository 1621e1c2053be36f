/** `deque`: a circular table of blocks of four cells, refined to a plain sequence. */
module Deque {
  import opened BlockMap
  import opened Options
  import opened Sequences

  const DEFAULT_CAPACITY := 8

  /** Each of the elements a .. b - 1 overwritten by the one after it. */
  ghost function Forward<T>(s: seq<T>, a: nat, b: nat): (t: seq<T>)
    requires a <= b < |s|
    ensures |t| == |s|
  {
    s[..a] + s[a + 1..b + 1] + s[b..]
  }

  /** Each of the elements a + 1 .. b overwritten by the one before it. */
  ghost function Backward<T>(s: seq<T>, a: nat, b: nat): (t: seq<T>)
    requires a <= b < |s|
    ensures |t| == |s|
  {
    s[..a + 1] + s[a..b] + s[b + 1..]
  }

  lemma ForwardNone<T>(s: seq<T>, a: nat)
    requires a < |s|
    ensures Forward(s, a, a) == s
  {
  }

  /** The loops of `emplace` and `erase` overwrite one more element in each round. */
  lemma ForwardStep<T>(s: seq<T>, a: nat, k: nat)
    requires a <= k < |s| - 1
    ensures Forward(s, a, k)[k + 1] == s[k + 1] && Forward(s, a, k)[k := s[k + 1]] == Forward(s, a, k + 1)
  {
  }

  lemma BackwardNone<T>(s: seq<T>, b: nat)
    requires b < |s|
    ensures Backward(s, b, b) == s
  {
  }

  lemma BackwardStep<T>(s: seq<T>, k: nat, b: nat)
    requires 0 < k <= b < |s|
    ensures Backward(s, k, b)[k - 1] == s[k - 1] && Backward(s, k, b)[k := s[k - 1]] == Backward(s, k - 1, b)
  {
  }

  /** Putting x at one end, and passing the elements over it up to its place, inserts it. */
  lemma InsertedFromFront<T>(s: seq<T>, x: T, k: nat)
    requires k <= |s|
    ensures Forward([x] + s, 0, k)[k := x] == Inserted(s, k, x)
  {
  }

  lemma InsertedFromBack<T>(s: seq<T>, x: T, k: nat)
    requires k <= |s|
    ensures Backward(s + [x], k, |s|)[k := x] == Inserted(s, k, x)
  {
  }

  /** Overwriting an element from one side, and dropping the end on that side, removes it. */
  lemma RemovedAtFront<T>(s: seq<T>, k: nat)
    requires k < |s|
    ensures Backward(s, 0, k)[1..] == Removed(s, k)
  {
  }

  lemma RemovedAtBack<T>(s: seq<T>, k: nat)
    requires k < |s|
    ensures Forward(s, k, |s| - 1)[..|s| - 1] == Removed(s, k)
  {
  }

  class Deque<Ptr(==), T> {
    var table: array?<Option<Ptr>>
    var capacity: nat
    var first: nat
    var size: nat
    var heap: Heap<Ptr, T>
    ghost var contents: seq<T>

    /** Element i is constructed in the slot of offset first + i, and every other slot of the table is raw. */
    ghost predicate Valid()
      reads this, table
    {
      && size == |contents|
      && (size == 0 ==> first == 0)
      && (table == null ==> capacity == 0 && size == 0 && heap == map[])
      && (table != null ==>
            && table.Length == capacity >= DEFAULT_CAPACITY
            && Owns(table[..], heap)
            && Holds(table[..], heap, first, contents))
    }

    constructor ()
      ensures Valid() && contents == [] && table != null && fresh(table)
    {
      heap := map[];
      contents := [];
      first, size, capacity, table := 0, 0, 0, null;
      new;
      InitMap(DEFAULT_CAPACITY);
    }

    static method CreateEmptyMap(newCapacity: nat) returns (newMap: array<Option<Ptr>>)
      ensures fresh(newMap) && newMap.Length == newCapacity
      ensures forall i :: 0 <= i < newCapacity ==> newMap[i] == None
    {
      newMap := new Option<Ptr>[newCapacity](_ => None);
      var i := 0;
      while i < newCapacity
        invariant 0 <= i <= newCapacity
        invariant forall j :: 0 <= j < i ==> newMap[j] == None
      {
        newMap[i] := None;
        i := i + 1;
      }
    }

    method InitMap(newCapacity: nat)
      requires table == null && heap == map[]
      modifies this
      ensures Valid() && contents == [] && table != null && fresh(table) && heap == map[]
      ensures capacity == if newCapacity < DEFAULT_CAPACITY then DEFAULT_CAPACITY else newCapacity
    {
      var n := if newCapacity < DEFAULT_CAPACITY then DEFAULT_CAPACITY else newCapacity;
      table := CreateEmptyMap(n);
      capacity, size, first := n, 0, 0;
      contents := [];
      EmptyHolds<Ptr, T>(table[..], 0);
    }

    // Memory: a block is allocated the first time one of its cells is needed, an object is constructed in a raw cell
    // only, and only a constructed cell is assigned to or destroyed.

    method AllocateIfNull(b: int, spare: Ptr)
      requires table != null && Owns(table[..], heap) && 0 <= b < table.Length && spare !in heap
      modifies this`heap, table
      ensures Owns(table[..], heap) && Live(table[..], heap, b)
      ensures forall o :: Cell(table[..], heap, o) == Cell(old(table[..]), old(heap), o)
    {
      if table[b] == None {
        Allocate(table[..], heap, b, spare);
        table[b] := Some(spare);
        heap := heap[spare := RawBlock()];
        assert table[..] == old(table[..])[b := Some(spare)];
      } else {
        assert Live(table[..], heap, b);
      }
    }

    method Store(offset: nat, x: Option<T>)
      requires table != null && table.Length == capacity > 0 && Owns(table[..], heap)
      requires Live(table[..], heap, GetBlock(offset, capacity))
      modifies this`heap
      ensures Owns(table[..], heap) && Written(table[..], old(heap), table[..], heap, offset, x)
    {
      var ptr := table[GetBlock(offset, capacity)].value;
      WriteAll(table[..], heap, offset, x);
      heap := heap[ptr := heap[ptr][offset % BLOCK_SIZE := x]];
    }

    method Construct(offset: nat, x: T, spare: Ptr)
      requires table != null && table.Length == capacity > 0 && Owns(table[..], heap) && spare !in heap
      requires Cell(table[..], heap, offset) == None
      modifies this`heap, table
      ensures Owns(table[..], heap) && Written(old(table[..]), old(heap), table[..], heap, offset, Some(x))
    {
      AllocateIfNull(GetBlock(offset, capacity), spare);
      Store(offset, Some(x));
    }

    method Destroy(offset: nat)
      requires table != null && table.Length == capacity > 0 && Owns(table[..], heap)
      requires Live(table[..], heap, GetBlock(offset, capacity)) && Cell(table[..], heap, offset).Some?
      modifies this`heap
      ensures Owns(table[..], heap) && Written(table[..], old(heap), table[..], heap, offset, None)
    {
      Store(offset, None);
    }

    /** `*it` for the iterator with this offset. */
    method Get(offset: nat) returns (x: T)
      requires Valid() && first <= offset < first + size
      ensures x == contents[offset - first]
    {
      ElementLive(table[..], heap, first, contents, offset - first);
      x := heap[table[GetBlock(offset, capacity)].value][offset % BLOCK_SIZE].value;
    }

    /** `*it = x` for the iterator with this offset. */
    method Set(offset: nat, x: T)
      requires Valid() && first <= offset < first + size
      modifies this`heap, this`contents
      ensures Valid() && contents == old(contents)[offset - first := x]
    {
      ElementLive(table[..], heap, first, contents, offset - first);
      ghost var before := heap;
      Store(offset, Some(x));
      HoldsUpdated(table[..], before, table[..], heap, first, contents, offset - first, x);
      contents := contents[offset - first := x];
    }

    // Growing.

    /** The loop of `clear` that frees what blocks are left; a deque that was moved from has none. */
    method FreeBlocks()
      requires capacity == if table == null then 0 else table.Length
      modifies this`heap, table
      ensures table == null ==> heap == old(heap)
      ensures table != null ==> heap == map p | p in old(heap) && Some(p) !in old(table[..]) :: old(heap)[p]
      ensures table != null ==> forall b :: 0 <= b < table.Length ==> table[b] == None
    {
      var i := 0;
      ghost var was := if table == null then [] else table[..];
      while i < capacity
        invariant 0 <= i <= capacity == |was|
        invariant forall b :: 0 <= b < capacity ==> table[b] == if b < i then None else was[b]
        invariant heap == map p | p in old(heap) && Some(p) !in was[..i] :: old(heap)[p]
      {
        assert was[..i + 1] == was[..i] + [was[i]];
        if table[i] != None {
          heap := heap - {table[i].value};
          table[i] := None;
        }
        i := i + 1;
      }
      assert was[..i] == was;
    }

    method MovePointers(newMap: array<Option<Ptr>>)
      requires table != null && table != newMap && size > 0 && table.Length == capacity > 0 && newMap.Length >= capacity
      requires Span(first, size) < capacity
      requires GetBlock(first + size - 1, capacity) == Around(GetBlock(first, capacity), Span(first, size), capacity)
      requires forall k :: 0 <= k < newMap.Length ==> newMap[k] == None
      modifies table, newMap
      ensures Moved(old(table[..]), newMap[..], GetBlock(first, capacity), Span(first, size))
      ensures forall b :: 0 <= b < capacity ==>
        table[b] == if Steps(GetBlock(first, capacity), b, capacity) <= Span(first, size) then None else old(table[b])
    {
      hide GetBlock, Span, PointersMoved, PointersLeft, Around, Steps;
      var firstBlock := GetBlock(first, capacity);
      var lastBlock := GetBlock(first + size - 1, capacity);
      ghost var n, was := Span(first, size), table[..];
      var newBlockIndex, oldBlockIndex := 0, firstBlock;
      BlockInTable(first, size, capacity);
      NoPointerMoved(was, newMap[..], firstBlock);
      while oldBlockIndex != lastBlock
        invariant 0 <= newBlockIndex <= n && oldBlockIndex == Around(firstBlock, newBlockIndex, capacity) < capacity
        invariant PointersMoved(was, newMap[..], firstBlock, newBlockIndex)
        invariant PointersLeft(was, table[..], firstBlock, newBlockIndex)
        decreases n - newBlockIndex
      {
        AroundNext(firstBlock, newBlockIndex, n, capacity);
        MovePointer(newMap, newBlockIndex, oldBlockIndex, was, firstBlock);
        newBlockIndex := newBlockIndex + 1;
        oldBlockIndex := if oldBlockIndex == capacity - 1 then 0 else oldBlockIndex + 1;
      }
      AroundOnce(firstBlock, newBlockIndex, n, capacity);
      MovePointer(newMap, newBlockIndex, oldBlockIndex, was, firstBlock);
      AllPointersMoved(was, table[..], newMap[..], firstBlock, n);
    }

    /** One pointer changes tables. */
    method MovePointer(newMap: array<Option<Ptr>>, newBlockIndex: nat, oldBlockIndex: nat, ghost was: seq<Option<Ptr>>,
                       ghost start: int)
      requires table != null && table != newMap && table.Length == capacity == |was| <= newMap.Length
      requires 0 <= start < capacity && newBlockIndex < capacity
      requires oldBlockIndex == Around(start, newBlockIndex, capacity) < capacity
      requires PointersMoved(was, newMap[..], start, newBlockIndex)
      requires PointersLeft(was, table[..], start, newBlockIndex)
      modifies table, newMap
      ensures PointersMoved(was, newMap[..], start, newBlockIndex + 1)
      ensures PointersLeft(was, table[..], start, newBlockIndex + 1)
    {
      hide *;
      ghost var t, u := table[..], newMap[..];
      MoveOnePointer(was, t, u, start, newBlockIndex);
      newMap[newBlockIndex] := table[oldBlockIndex];
      table[oldBlockIndex] := None;
      assert newMap[..] == u[newBlockIndex := t[oldBlockIndex]] && table[..] == t[oldBlockIndex := None];
    }

    method Reserve(newCapacity: nat)
      requires Valid() && table != null && size == (capacity - 1) * BLOCK_SIZE && newCapacity >= capacity
      modifies this, table
      ensures Valid() && contents == old(contents) && size == old(size)
      ensures fresh(table) && table.Length == newCapacity && first == old(first) % BLOCK_SIZE
      ensures forall p :: p in heap ==> p in old(heap)
    {
      var newFirst := first % BLOCK_SIZE;
      var newMap := CreateEmptyMap(newCapacity);
      EndsApart(first, size, capacity);
      ghost var was := table[..];
      MovePointers(newMap);
      MovedHolds(was, heap, newMap[..], first, contents);
      ghost var left, before := table[..], heap;
      FreeBlocks();
      LeftOver(was, before, newMap[..], left, GetBlock(first, capacity), Span(first, size));
      table, capacity, first := newMap, newCapacity, newFirst;
    }

    method ExtendIfFull()
      requires Valid()
      modifies this, table
      ensures Valid() && contents == old(contents) && size == old(size)
      ensures table != null && size < (capacity - 1) * BLOCK_SIZE
      ensures table == old(table) || fresh(table)
      ensures forall p :: p in heap ==> p in old(heap)
    {
      if table == null {
        InitMap(DEFAULT_CAPACITY);
      } else if size >= (capacity - 1) * BLOCK_SIZE {
        Reserve(2 * capacity);
      }
    }

    // Both ends.

    method EmplaceBack(x: T, spare: Ptr)
      requires Valid() && spare !in heap
      modifies this, table
      ensures Valid() && contents == old(contents) + [x] && size == |contents|
      ensures table != null && (table == old(table) || fresh(table))
    {
      hide Cell, Written, Holds, Owns, GetBlock;
      ExtendIfFull();
      ghost var t, h := table[..], heap;
      RawAfter(t, h, first, contents);
      Construct(first + size, x, spare);
      HoldsAppended(t, h, table[..], heap, first, contents, x);
      contents := contents + [x];
      size := size + 1;
    }

    method PopBack()
      requires Valid()
      modifies this, table
      ensures Valid() && table == old(table)
      ensures contents == if old(contents) == [] then [] else old(contents)[..|old(contents)| - 1]
    {
      hide Cell, Written, Holds, Owns, GetBlock;
      if size != 0 {
        var backOffset := first + size - 1;
        ghost var h := heap;
        ElementLive(table[..], heap, first, contents, size - 1);
        Destroy(backOffset);
        HoldsWithoutLast(table[..], h, table[..], heap, first, contents);
        contents := contents[..|contents| - 1];
        size := size - 1;
        if size == 0 {
          assert contents == [];
          HoldsNothing(table[..], heap, first, 0);
          first := 0;
        }
      }
    }

    method EmplaceFront(x: T, spare: Ptr)
      requires Valid() && spare !in heap
      modifies this, table
      ensures Valid() && contents == [x] + old(contents) && size == |contents|
      ensures table != null && (table == old(table) || fresh(table))
    {
      hide Cell, Written, Holds, Owns, GetBlock;
      ExtendIfFull();
      ghost var t, h := table[..], heap;
      if first == 0 {
        HoldsOneTurnOn(t, h, first, contents);
        first := capacity * BLOCK_SIZE;
      }
      RawBefore(t, h, first, contents);
      first := first - 1;
      Construct(first, x, spare);
      HoldsPrepended(t, h, table[..], heap, first + 1, contents, x);
      contents := [x] + contents;
      size := size + 1;
    }

    method PopFront()
      requires Valid()
      modifies this, table
      ensures Valid() && table == old(table)
      ensures contents == if old(contents) == [] then [] else old(contents)[1..]
    {
      hide Cell, Written, Holds, Owns, GetBlock;
      if size != 0 {
        ghost var h := heap;
        ElementLive(table[..], heap, first, contents, 0);
        Destroy(first);
        HoldsWithoutFirst(table[..], h, table[..], heap, first, contents);
        contents := contents[1..];
        size := size - 1;
        if size == 0 {
          assert contents == [];
          HoldsNothing(table[..], heap, first + 1, 0);
          first := 0;
        } else {
          first := first + 1;
        }
      }
    }

    // The middle: the elements on the shorter side of the position move by one.

    /** The loop that assigns to each iterator from `at` to `stop` the element after it. */
    method ShiftForward(from: nat, stop: nat)
      requires Valid() && first <= from <= stop < first + size
      modifies this`heap, this`contents
      ensures Valid()
      ensures contents == Forward(old(contents), from - first, stop - first)
    {
      assert size == |contents|;
      hide *;
      var it := from;
      ghost var a, k, b, s := from - first, from - first, stop - first, contents;
      ForwardNone(s, a);
      while it != stop
        invariant Valid() && a <= k <= b && it == first + k && |contents| == |s| && contents == Forward(s, a, k)
        decreases b - k
      {
        ForwardStep(s, a, k);
        var x := Get(it + 1);
        Set(it, x);
        it, k := it + 1, k + 1;
      }
    }

    /** The loop that assigns to each iterator from `at` back to `stop` the element before it. */
    method ShiftBackward(from: nat, stop: nat)
      requires Valid() && first <= stop <= from < first + size
      modifies this`heap, this`contents
      ensures Valid()
      ensures contents == Backward(old(contents), stop - first, from - first)
    {
      assert size == |contents|;
      hide *;
      var it := from;
      ghost var a, k, b, s := stop - first, from - first, from - first, contents;
      BackwardNone(s, b);
      while it != stop
        invariant Valid() && a <= k <= b && it == first + k && |contents| == |s| && contents == Backward(s, k, b)
        decreases k - a
      {
        BackwardStep(s, k, b);
        var x := Get(it - 1);
        Set(it, x);
        it, k := it - 1, k - 1;
      }
    }

    /** `emplace` closer to the front. */
    method EmplaceNearFront(off: nat, x: T, spare: Ptr)
      requires Valid() && spare !in heap && off <= size
      modifies this, table
      ensures Valid() && (table == old(table) || fresh(table))
      ensures contents == Inserted(old(contents), off, x)
    {
      assert size == |contents|;
      hide *;
      EmplaceFront(x, spare);
      var val := Get(first);
      assert val == x;
      ShiftForward(first, first + off);
      assert contents == Forward([x] + old(contents), 0, off);
      Set(first + off, val);
      InsertedFromFront(old(contents), x, off);
    }

    /** `emplace` closer to the back. */
    method EmplaceNearBack(off: nat, x: T, spare: Ptr)
      requires Valid() && spare !in heap && off <= size
      modifies this, table
      ensures Valid() && (table == old(table) || fresh(table))
      ensures contents == Inserted(old(contents), off, x)
    {
      assert size == |contents|;
      hide *;
      EmplaceBack(x, spare);
      var val := Get(first + size - 1);
      assert val == x;
      ShiftBackward(first + size - 1, first + off);
      assert contents == Backward(old(contents) + [x], off, |old(contents)|);
      Set(first + off, val);
      InsertedFromBack(old(contents), x, off);
    }

    method Emplace(pos: nat, x: T, spare: Ptr) returns (it: nat)
      requires Valid() && spare !in heap && first <= pos <= first + size
      modifies this, table
      ensures Valid() && (table == old(table) || fresh(table))
      ensures contents == Inserted(old(contents), pos - old(first), x) && it == first + (pos - old(first))
    {
      assert size == |contents|;
      hide *;
      var off := pos - first;
      if off <= size / 2 {
        EmplaceNearFront(off, x, spare);
      } else {
        EmplaceNearBack(off, x, spare);
      }
      return first + off;
    }

    /** `erase` closer to the front. */
    method EraseNearFront(off: nat)
      requires Valid() && off < size
      modifies this, table
      ensures Valid() && table == old(table) && contents == Removed(old(contents), off)
    {
      assert size == |contents|;
      hide *;
      ShiftBackward(first + off, first);
      RemovedAtFront(old(contents), off);
      PopFront();
    }

    /** `erase` closer to the back. */
    method EraseNearBack(off: nat)
      requires Valid() && off < size
      modifies this, table
      ensures Valid() && table == old(table) && contents == Removed(old(contents), off)
    {
      assert size == |contents|;
      hide *;
      ShiftForward(first + off, first + size - 1);
      RemovedAtBack(old(contents), off);
      PopBack();
    }

    /** An iterator at the end throws `out_of_range` and changes nothing. */
    method Erase(pos: nat) returns (ok: bool, it: nat)
      requires Valid() && first <= pos <= first + size
      modifies this, table
      ensures Valid() && table == old(table)
      ensures ok <==> pos < old(first) + |old(contents)|
      ensures !ok ==> contents == old(contents)
      ensures ok ==> contents == Removed(old(contents), pos - old(first)) && it == first + (pos - old(first))
    {
      assert size == |contents|;
      hide *;
      if pos == first + size {
        return false, pos;
      }
      var off := pos - first;
      if off <= size / 2 {
        EraseNearFront(off);
      } else {
        EraseNearBack(off);
      }
      return true, first + off;
    }

    /** `at`: None stands for the `out_of_range` it throws. */
    method At(index: nat) returns (x: Option<T>)
      requires Valid()
      ensures x == if index < |contents| then Some(contents[index]) else None
    {
      if index >= size {
        return None;
      }
      var value := Get(first + index);
      return Some(value);
    }

    /**
     * Every element is destroyed, then every block is deallocated; the table stays. A deque that was moved from
     * has no table and stays without.
     */
    method Clear()
      requires Valid()
      modifies this, table
      ensures Valid() && table == old(table) && contents == [] && first == 0 && heap == map[]
      ensures table != null ==> forall b :: 0 <= b < table.Length ==> table[b] == None
    {
      while size != 0
        invariant Valid() && table == old(table)
        decreases size
      {
        PopBack();
      }
      ghost var t := if table == null then [] else table[..];
      assert forall p :: p in heap ==> Some(p) in t;
      FreeBlocks();
      if table != null {
        EmptyHolds<Ptr, T>(table[..], first);
      }
    }

    /** Frees the table but leaves its capacity, which whoever calls this overwrites next. */
    method CleanUpMap()
      requires Valid()
      modifies this, table
      ensures table == null && contents == [] && heap == map[]
      ensures size == 0 && first == 0 && capacity == old(capacity)
    {
      if table != null {
        Clear();
        table := null;
      }
    }

    /** Move assignment takes over the other's blocks and leaves the other without a table, but usable. */
    method MoveFrom(other: Deque<Ptr, T>)
      requires Valid() && other.Valid() && this != other && (table == null || table != other.table)
      modifies this, table, other
      ensures Valid() && contents == old(other.contents) && table == old(other.table)
      ensures other.Valid() && other.contents == [] && other.table == null
    {
      if table != other.table {
        CleanUpMap();
        table, other.table := other.table, null;
        capacity, other.capacity := other.capacity, 0;
        size, other.size := other.size, 0;
        first, other.first := other.first, 0;
        heap, other.heap := other.heap, map[];
        contents, other.contents := other.contents, [];
      }
    }
  }
}
