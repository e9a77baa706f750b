/** `Heap<T>`: a binary min-heap kept in an array, ordered by `compare`. */
module BinaryHeap {
  import opened Prelude
  import opened Ordering
  import opened HeapOrder

  datatype Heap<!T> = Heap(data: seq<T>, compare: (T, T) -> int)
  {
    /** `size` */
    function Size(): nat { |data| }

    /** `isEmpty()` */
    predicate IsEmpty() { |data| == 0 }

    /** `peek()`: the root, `undefined` on an empty heap. */
    function Peek(): Option<T> { if |data| == 0 then None else Some(data[0]) }

    /** No element sorts before its parent. */
    ghost predicate Valid() { IsHeap(LessThan(compare), data, |data|) }
  }

  datatype Popped<!T> = Popped(heap: Heap<T>, top: Option<T>)

  function New<T>(compare: (T, T) -> int): (h: Heap<T>)
    ensures h.Valid() && h.Size() == 0
  {
    Heap([], compare)
  }

  /** `push(value)`: append, then bubble the new element up. */
  function Push<T>(h: Heap<T>, value: T): (r: Heap<T>)
    ensures r.Size() == h.Size() + 1 && r.compare == h.compare
    ensures multiset(r.data) == multiset(h.data) + multiset{value}
  {
    h.(data := SiftUp(LessThan(h.compare), h.data + [value], |h.data|))
  }

  /** `pop()`: takes the root; the last element moves to the root and bubbles down. */
  function Pop<T>(h: Heap<T>): (r: Popped<T>)
    ensures h.Size() == 0 ==> r == Popped(h, None)
    ensures h.Size() > 0 ==>
              && r.top == Some(h.data[0])
              && r.heap.Size() == h.Size() - 1 && r.heap.compare == h.compare
              && multiset(r.heap.data) + multiset{h.data[0]} == multiset(h.data)
  {
    if |h.data| == 0 then Popped(h, None)
    else
      var n := |h.data| - 1;
      var rest := h.data[..n];
      assert h.data == rest + [h.data[n]];
      if n > 0 then
        var moved := rest[0 := h.data[n]];
        assert rest == [h.data[0]] + rest[1..] && moved == [h.data[n]] + rest[1..];
        Popped(h.(data := SiftDown(LessThan(h.compare), moved, 0, n)), Some(h.data[0]))
      else Popped(h.(data := rest), Some(h.data[0]))
  }

  /** `Heap.from(arr)`: pushes the elements one by one. */
  function From<T>(arr: seq<T>, compare: (T, T) -> int): (h: Heap<T>)
    ensures multiset(h.data) == multiset(arr) && h.compare == compare
    decreases |arr|
  {
    if |arr| == 0 then New(compare)
    else
      assert arr == arr[..|arr| - 1] + [arr[|arr| - 1]];
      Push(From(arr[..|arr| - 1], compare), arr[|arr| - 1])
  }

  lemma PushKeepsHeap<T(!new)>(h: Heap<T>, value: T)
    requires Comparator(h.compare) && h.Valid()
    ensures Push(h, value).Valid()
  {
    ComparatorOrders(h.compare);
    var a := h.data + [value];
    assert BrokenAbove(LessThan(h.compare), a, |h.data|, |a|);
    SiftUpRestores(LessThan(h.compare), a, |h.data|);
  }

  lemma PopKeepsHeap<T(!new)>(h: Heap<T>)
    requires Comparator(h.compare) && h.Valid()
    ensures Pop(h).heap.Valid()
  {
    ComparatorOrders(h.compare);
    var n := |h.data| - 1;
    if n > 0 {
      var moved := h.data[..n][0 := h.data[n]];
      assert BrokenBelow(LessThan(h.compare), moved, 0, 0, n);
      SiftDownRestores(LessThan(h.compare), moved, 0, 0, n);
    }
  }

  /** `pop()` returns an element that no element of the heap sorts before. */
  lemma PopReturnsMinimum<T(!new)>(h: Heap<T>)
    requires Comparator(h.compare) && h.Valid() && h.Size() > 0
    ensures Pop(h).top.Some?
    ensures forall x :: x in h.data ==> h.compare(x, Pop(h).top.value) >= 0
  {
    ComparatorOrders(h.compare);
    forall x | x in h.data
      ensures h.compare(x, h.data[0]) >= 0
    {
      var k :| 0 <= k < |h.data| && h.data[k] == x;
      RootUnbeaten(LessThan(h.compare), h.data, |h.data|, k);
    }
  }

  lemma {:induction false} FromIsHeap<T(!new)>(arr: seq<T>, compare: (T, T) -> int)
    requires Comparator(compare)
    ensures From(arr, compare).Valid()
    decreases |arr|
  {
    if |arr| > 0 {
      FromIsHeap(arr[..|arr| - 1], compare);
      PushKeepsHeap(From(arr[..|arr| - 1], compare), arr[|arr| - 1]);
    }
  }
}
