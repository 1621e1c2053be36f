/** `priority_queue`: a heap in an array, largest element first. */
module PriorityQueue {
  import opened Merging

  // Index arithmetic.

  function Parent(index: nat): (p: nat)
    ensures index > 0 ==> p < index
  {
    if index > 0 then (index + 1) / 2 - 1 else index
  }

  function MaxChild<T>(less: (T, T) -> bool, s: seq<T>, index: nat): int
    requires index < |s|
  {
    var leftChild := (index + 1) * 2 - 1;
    var rightChild := leftChild + 1;
    if leftChild + rightChild >= 2 * |s| then index
    else if rightChild >= |s| then leftChild
    else if leftChild >= |s| then rightChild
    else if less(s[rightChild], s[leftChild]) then leftChild
    else rightChild
  }

  /**
   * The test on the sum of the two child indices finds exactly the leaves, and otherwise no child is above the one
   * chosen.
   */
  lemma MaxChildChosen<T(!new)>(less: (T, T) -> bool, s: seq<T>, index: nat)
    requires StrictWeakOrder(less) && index < |s|
    ensures var c := MaxChild(less, s, index);
      && c < |s|
      && (c == index <==> forall i :: 0 < i < |s| ==> Parent(i) != index)
      && (c != index ==> c > index && Parent(c) == index)
      && (forall i :: 0 < i < |s| && Parent(i) == index ==> !less(s[c], s[i]))
  {
    var left := 2 * index + 1;
    assert Parent(left) == index && Parent(left + 1) == index;
    forall i | 0 < i < |s| && Parent(i) == index ensures i == left || i == left + 1 {
    }
  }

  ghost predicate HeapAt<T>(less: (T, T) -> bool, s: seq<T>, i: int) {
    0 < i < |s| ==> !less(s[Parent(i)], s[i])
  }

  /** No element is above its parent. */
  ghost predicate Heap<T>(less: (T, T) -> bool, s: seq<T>) {
    forall i :: 0 < i < |s| ==> HeapAt(less, s, i)
  }

  /** The element at k is not above its grandparent. */
  ghost predicate BelowGrandparent<T>(less: (T, T) -> bool, s: seq<T>, i: int) {
    0 < i < |s| && Parent(i) > 0 ==> !less(s[Parent(Parent(i))], s[i])
  }

  /** A heap but for the element at k, which may be above its parent. */
  ghost predicate HeapAbove<T>(less: (T, T) -> bool, s: seq<T>, k: int) {
    && (forall i :: 0 < i < |s| && i != k ==> HeapAt(less, s, i))
    && (forall i :: 0 < i < |s| && Parent(i) == k ==> BelowGrandparent(less, s, i))
  }

  /** A heap but for the element at k, which may be below its children. */
  ghost predicate HeapBelow<T>(less: (T, T) -> bool, s: seq<T>, k: int) {
    && (forall i :: 0 < i < |s| && Parent(i) != k ==> HeapAt(less, s, i))
    && (forall i :: 0 < i < |s| && Parent(i) == k ==> BelowGrandparent(less, s, i))
  }

  function Swap<T>(s: seq<T>, i: int, j: int): (t: seq<T>)
    requires 0 <= i < |s| && 0 <= j < |s|
    ensures |t| == |s|
    ensures multiset(t) == multiset(s)
  {
    s[i := s[j]][j := s[i]]
  }

  /** What `_heap_push_adjust` leaves when the element at index is the one that may be out of place. */
  function SiftUp<T>(less: (T, T) -> bool, s: seq<T>, index: nat): (t: seq<T>)
    requires index < |s|
    ensures |t| == |s|
    decreases index
  {
    if index > 0 && less(s[Parent(index)], s[index])
    then SiftUp(less, Swap(s, Parent(index), index), Parent(index))
    else s
  }

  /** What `_heap_pop_adjust` leaves. */
  function SiftDown<T>(less: (T, T) -> bool, s: seq<T>, index: nat): (t: seq<T>)
    requires index < |s|
    ensures |t| == |s|
    decreases |s| - index
  {
    var c := MaxChild(less, s, index);
    if c != index && less(s[index], s[c]) then SiftDown(less, Swap(s, index, c), c) else s
  }

  lemma SwapUpAt<T(!new)>(less: (T, T) -> bool, s: seq<T>, k: nat, i: nat)
    requires StrictWeakOrder(less) && HeapAbove(less, s, k) && 0 < k < |s| && less(s[Parent(k)], s[k]) && 0 < i < |s|
    ensures i != Parent(k) ==> HeapAt(less, Swap(s, Parent(k), k), i)
    ensures Parent(i) == Parent(k) ==> BelowGrandparent(less, Swap(s, Parent(k), k), i)
  {
    var p := Parent(k);
    assert i != k ==> HeapAt(less, s, i);
    assert p > 0 ==> HeapAt(less, s, p);
    assert Parent(i) == k ==> BelowGrandparent(less, s, i);
  }

  lemma SwapDownAt<T(!new)>(less: (T, T) -> bool, s: seq<T>, k: nat, c: nat, i: nat)
    requires StrictWeakOrder(less) && HeapBelow(less, s, k) && k < c < |s| && Parent(c) == k && less(s[k], s[c])
    requires 0 < i < |s| && (Parent(i) == k ==> !less(s[c], s[i]))
    ensures Parent(i) != c ==> HeapAt(less, Swap(s, k, c), i)
    ensures Parent(i) == c ==> BelowGrandparent(less, Swap(s, k, c), i)
  {
    assert Parent(i) != k ==> HeapAt(less, s, i);
    assert Parent(i) == k ==> BelowGrandparent(less, s, i);
    assert BelowGrandparent(less, s, c);
  }

  lemma {:induction false} SiftUpHeap<T(!new)>(less: (T, T) -> bool, s: seq<T>, k: nat)
    requires StrictWeakOrder(less) && k < |s| && HeapAbove(less, s, k)
    ensures Heap(less, SiftUp(less, s, k)) && multiset(SiftUp(less, s, k)) == multiset(s)
    decreases k
  {
    if k > 0 && less(s[Parent(k)], s[k]) {
      var t := Swap(s, Parent(k), k);
      forall i: int | 0 < i < |t|
        ensures i != Parent(k) ==> HeapAt(less, t, i)
        ensures Parent(i) == Parent(k) ==> BelowGrandparent(less, t, i)
      {
        SwapUpAt(less, s, k, i);
      }
      SiftUpHeap(less, t, Parent(k));
    }
  }

  lemma {:induction false} SiftDownHeap<T(!new)>(less: (T, T) -> bool, s: seq<T>, k: nat)
    requires StrictWeakOrder(less) && k < |s| && HeapBelow(less, s, k)
    ensures Heap(less, SiftDown(less, s, k)) && multiset(SiftDown(less, s, k)) == multiset(s)
    decreases |s| - k
  {
    var c := MaxChild(less, s, k);
    MaxChildChosen(less, s, k);
    if c != k && less(s[k], s[c]) {
      var t := Swap(s, k, c);
      forall i: int | 0 < i < |t|
        ensures Parent(i) != c ==> HeapAt(less, t, i)
        ensures Parent(i) == c ==> BelowGrandparent(less, t, i)
      {
        SwapDownAt(less, s, k, c, i);
      }
      SiftDownHeap(less, t, c);
    } else {
      forall i | 0 < i < |s| ensures HeapAt(less, s, i) {
      }
    }
  }

  // The queue as a value.

  function Pushed<T>(less: (T, T) -> bool, s: seq<T>, x: T): (t: seq<T>)
    ensures |t| == |s| + 1
  {
    SiftUp(less, s + [x], |s|)
  }

  function Popped<T>(less: (T, T) -> bool, s: seq<T>): (t: seq<T>)
    ensures |t| == if s == [] then 0 else |s| - 1
  {
    if s == [] then s
    else
      var t := Swap(s, 0, |s| - 1)[..|s| - 1];
      if t == [] then t else SiftDown(less, t, 0)
  }

  lemma PushedHeap<T(!new)>(less: (T, T) -> bool, s: seq<T>, x: T)
    requires StrictWeakOrder(less) && Heap(less, s)
    ensures Heap(less, Pushed(less, s, x)) && multiset(Pushed(less, s, x)) == multiset(s) + multiset{x}
  {
    var t := s + [x];
    forall i | 0 < i < |t| && i != |s| ensures HeapAt(less, t, i) {
      assert HeapAt(less, s, i);
    }
    SiftUpHeap(less, t, |s|);
  }

  lemma PoppedHeap<T(!new)>(less: (T, T) -> bool, s: seq<T>)
    requires StrictWeakOrder(less) && Heap(less, s)
    ensures Heap(less, Popped(less, s))
    ensures s != [] ==> multiset(Popped(less, s)) == multiset(s) - multiset{s[0]}
  {
    if s != [] {
      var u := Swap(s, 0, |s| - 1);
      var t := u[..|s| - 1];
      assert u == t + [s[0]];
      forall i | 0 < i < |t| && Parent(i) != 0 ensures HeapAt(less, t, i) {
        assert HeapAt(less, s, i);
      }
      if t != [] {
        SiftDownHeap(less, t, 0);
      }
    }
  }

  /** `front` is a largest element. */
  lemma {:induction false} FrontIsLargest<T(!new)>(less: (T, T) -> bool, s: seq<T>, i: nat)
    requires StrictWeakOrder(less) && Heap(less, s) && i < |s|
    ensures !less(s[0], s[i])
    decreases i
  {
    if i > 0 {
      FrontIsLargest(less, s, Parent(i));
      assert HeapAt(less, s, i);
    }
  }

  // Whole runs.

  datatype Call<T> = Emplace(x: T) | Pop

  function After<T>(less: (T, T) -> bool, s: seq<T>, c: Call<T>): seq<T> {
    match c
    case Emplace(x) => Pushed(less, s, x)
    case Pop => Popped(less, s)
  }

  function Run<T>(less: (T, T) -> bool, calls: seq<Call<T>>): (s: seq<T>) {
    if calls == [] then [] else After(less, Run(less, calls[..|calls| - 1]), calls[|calls| - 1])
  }

  /** A bag that each pop takes a largest element from, the simplest thing a priority queue may be. */
  ghost predicate BagStep<T(!new)>(less: (T, T) -> bool, bag: multiset<T>, c: Call<T>, bag': multiset<T>) {
    match c
    case Emplace(x) => bag' == bag + multiset{x}
    case Pop =>
      if bag == multiset{} then bag' == bag
      else exists x :: x in bag && bag' == bag - multiset{x} && forall y :: y in bag ==> !less(x, y)
  }

  lemma AfterIsBagStep<T(!new)>(less: (T, T) -> bool, s: seq<T>, c: Call<T>)
    requires StrictWeakOrder(less) && Heap(less, s)
    ensures Heap(less, After(less, s, c)) && BagStep(less, multiset(s), c, multiset(After(less, s, c)))
  {
    match c
    case Emplace(x) => PushedHeap(less, s, x);
    case Pop =>
      PoppedHeap(less, s);
      if s != [] {
        assert s[0] in multiset(s);
        forall y | y in multiset(s) ensures !less(s[0], y) {
          var i :| 0 <= i < |s| && s[i] == y;
          FrontIsLargest(less, s, i);
        }
      }
  }

  /** From empty, every run keeps the heap, and every call in it is a step of the bag. */
  lemma {:induction false} RunRefinesBag<T(!new)>(less: (T, T) -> bool, calls: seq<Call<T>>, k: nat)
    requires StrictWeakOrder(less) && k < |calls|
    ensures Heap(less, Run(less, calls[..k]))
    ensures BagStep(less, multiset(Run(less, calls[..k])), calls[k], multiset(Run(less, calls[..k + 1])))
    decreases k
  {
    hide After, Heap, BagStep, StrictWeakOrder, Run;
    if k > 0 {
      RunRefinesBag(less, calls, k - 1);
      RunOneMore(less, calls, k - 1);
      AfterIsBagStep(less, Run(less, calls[..k - 1]), calls[k - 1]);
    } else {
      RunFromEmpty(less, calls);
    }
    RunOneMore(less, calls, k);
    AfterIsBagStep(less, Run(less, calls[..k]), calls[k]);
  }

  lemma RunFromEmpty<T(!new)>(less: (T, T) -> bool, calls: seq<Call<T>>)
    ensures Run(less, calls[..0]) == [] && Heap<T>(less, [])
  {
  }

  lemma RunOneMore<T(!new)>(less: (T, T) -> bool, calls: seq<Call<T>>, k: nat)
    requires k < |calls|
    ensures Run(less, calls[..k + 1]) == After(less, Run(less, calls[..k]), calls[k])
  {
    assert calls[..k + 1][..k] == calls[..k];
    hide After;
  }

  /** Taking the front and popping until the queue is empty. */
  function Drained<T>(less: (T, T) -> bool, s: seq<T>): (d: seq<T>)
    ensures |d| == |s|
    decreases |s|
  {
    if s == [] then [] else [s[0]] + Drained(less, Popped(less, s))
  }

  lemma DrainedFront<T(!new)>(less: (T, T) -> bool, s: seq<T>, y: T)
    requires StrictWeakOrder(less) && Heap(less, s) && s != [] && y in multiset(s)
    ensures !less(s[0], y)
  {
    var i :| 0 <= i < |s| && s[i] == y;
    FrontIsLargest(less, s, i);
  }

  /** Popping until empty yields a permutation of what the queue held. */
  lemma {:induction false} DrainedKeeps<T(!new)>(less: (T, T) -> bool, s: seq<T>)
    requires StrictWeakOrder(less) && Heap(less, s)
    ensures multiset(Drained(less, s)) == multiset(s)
    decreases |s|
  {
    if s != [] {
      PoppedHeap(less, s);
      DrainedKeeps(less, Popped(less, s));
      hide Heap, Popped, StrictWeakOrder;
    }
  }

  lemma DrainedUnfolds<T>(less: (T, T) -> bool, s: seq<T>, k: nat)
    requires k < |s|
    ensures Drained(less, s)[k] == if k == 0 then s[0] else Drained(less, Popped(less, s))[k - 1]
  {
    hide Popped;
  }

  lemma FrontAboveRest<T(!new)>(less: (T, T) -> bool, s: seq<T>, k: nat)
    requires StrictWeakOrder(less) && Heap(less, s) && k + 1 < |s|
    ensures !less(s[0], Drained(less, Popped(less, s))[k])
  {
    var t := Popped(less, s);
    PoppedHeap(less, s);
    DrainedKeeps(less, t);
    hide Heap, StrictWeakOrder, Popped, Drained;
    var y := Drained(less, t)[k];
    assert y in multiset(Drained(less, t));
    DrainedFront(less, s, y);
  }

  /** The permutation never increases. */
  lemma {:induction false} DrainedIsSorted<T(!new)>(less: (T, T) -> bool, s: seq<T>, i: nat, j: nat)
    requires StrictWeakOrder(less) && Heap(less, s) && i < j < |s|
    ensures !less(Drained(less, s)[i], Drained(less, s)[j])
    decreases |s|
  {
    hide Heap, StrictWeakOrder, Popped, Drained;
    DrainedUnfolds(less, s, i);
    DrainedUnfolds(less, s, j);
    if i > 0 {
      PoppedHeap(less, s);
      DrainedIsSorted(less, Popped(less, s), i - 1, j - 1);
    } else {
      FrontAboveRest(less, s, j - 1);
    }
  }

  // The container, updated in place.

  class PriorityQueue<T(!new)> {
    var items: seq<T>
    const less: (T, T) -> bool

    ghost predicate Valid()
      reads this
    {
      StrictWeakOrder(less) && Heap(less, items)
    }

    constructor (less: (T, T) -> bool)
      requires StrictWeakOrder(less)
      ensures Valid() && items == [] && this.less == less
    {
      this.less := less;
      items := [];
    }

    method Emplace(x: T)
      requires Valid()
      modifies this
      ensures Valid() && items == Pushed(less, old(items), x)
      ensures multiset(items) == multiset(old(items)) + multiset{x}
    {
      PushedHeap(less, items, x);
      items := items + [x];
      PushAdjust();
    }

    method Pop()
      requires Valid()
      modifies this
      ensures Valid() && items == Popped(less, old(items))
      ensures old(items) != [] ==> multiset(items) == multiset(old(items)) - multiset{old(items)[0]}
    {
      PoppedHeap(less, items);
      if |items| > 0 {
        items := Swap(items, 0, |items| - 1);
        items := items[..|items| - 1];
        PopAdjust();
      }
    }

    method Front() returns (x: T)
      requires Valid() && items != []
      ensures x in items && forall y :: y in items ==> !less(x, y)
    {
      x := items[0];
      forall y | y in items ensures !less(x, y) {
        DrainedFront(less, items, y);
      }
    }

    method PushAdjust()
      modifies this
      ensures items == if old(items) == [] then [] else SiftUp(less, old(items), |old(items)| - 1)
    {
      if |items| == 0 {
        return;
      }
      var index := |items| - 1;
      var parent := Parent(index);
      while index > 0 && less(items[parent], items[index])
        invariant 0 <= index < |items| && parent == Parent(index)
        invariant SiftUp(less, items, index) == SiftUp(less, old(items), |old(items)| - 1)
        decreases index
      {
        items := Swap(items, parent, index);
        index := parent;
        parent := Parent(index);
      }
    }

    method PopAdjust()
      requires StrictWeakOrder(less)
      modifies this
      ensures items == if old(items) == [] then [] else SiftDown(less, old(items), 0)
    {
      if |items| == 0 {
        return;
      }
      var index := 0;
      while index < |items|
        invariant 0 <= index < |items|
        invariant SiftDown(less, items, index) == SiftDown(less, old(items), 0)
        decreases |items| - index
      {
        var maxChild := MaxChild(less, items, index);
        MaxChildChosen(less, items, index);
        if less(items[index], items[maxChild]) {
          items := Swap(items, index, maxChild);
          index := maxChild;
        } else {
          return;
        }
      }
    }
  }
}
