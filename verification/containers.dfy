/** `LinkedList<T>`, `Stack<T>` and `Queue<T>`. The doubly linked nodes of
    `LinkedList` are abstracted to the sequence a walk from `head` along `next`
    visits; `size` is the separately maintained counter. */
module Containers {
  import opened Prelude

  datatype LinkedList<T> = LinkedList(items: seq<T>, size: int)
  {
    /** The counter agrees with the chain of nodes. */
    predicate Valid() { size == |items| }

    /** `isEmpty()` reads the counter. */
    predicate IsEmpty() { size == 0 }

    /** `peekFront()` */
    function PeekFront(): Option<T> { if |items| == 0 then None else Some(items[0]) }

    /** `peekBack()` */
    function PeekBack(): Option<T> { if |items| == 0 then None else Some(items[|items| - 1]) }

    /** `toArray()`: the values from head to tail. */
    function ToArray(): seq<T> { items }
  }

  datatype ListPop<T> = ListPop(list: LinkedList<T>, value: Option<T>)

  function EmptyList<T>(): LinkedList<T> {
    LinkedList([], 0)
  }

  /** A new list is empty, has no front or back, and its counter agrees with it. */
  lemma EmptyListIsEmpty<T>(l: LinkedList<T>)
    requires l == EmptyList()
    ensures l.Valid() && l.IsEmpty() && l.ToArray() == []
    ensures l.PeekFront() == None && l.PeekBack() == None
  {
  }

  function PushFront<T>(l: LinkedList<T>, value: T): (r: LinkedList<T>)
    ensures r.ToArray() == [value] + l.ToArray() && r.PeekFront() == Some(value)
    ensures r.size == l.size + 1
  {
    LinkedList([value] + l.items, l.size + 1)
  }

  function PushBack<T>(l: LinkedList<T>, value: T): (r: LinkedList<T>)
    ensures r.ToArray() == l.ToArray() + [value] && r.PeekBack() == Some(value)
    ensures r.size == l.size + 1
  {
    LinkedList(l.items + [value], l.size + 1)
  }

  /** `popFront()`: `undefined` and no change when there is no head node. */
  function PopFront<T>(l: LinkedList<T>): (r: ListPop<T>)
    ensures |l.items| == 0 ==> r == ListPop(l, None)
    ensures |l.items| > 0 ==>
              r.value == l.PeekFront() && l.ToArray() == [r.value.value] + r.list.ToArray()
              && r.list.size == l.size - 1
  {
    if |l.items| == 0 then ListPop(l, None)
    else ListPop(LinkedList(l.items[1..], l.size - 1), Some(l.items[0]))
  }

  /** `popBack()`: `undefined` and no change when there is no tail node. */
  function PopBack<T>(l: LinkedList<T>): (r: ListPop<T>)
    ensures |l.items| == 0 ==> r == ListPop(l, None)
    ensures |l.items| > 0 ==>
              r.value == l.PeekBack() && l.ToArray() == r.list.ToArray() + [r.value.value]
              && r.list.size == l.size - 1
  {
    if |l.items| == 0 then ListPop(l, None)
    else ListPop(LinkedList(l.items[..|l.items| - 1], l.size - 1), Some(l.items[|l.items| - 1]))
  }

  function ClearList<T>(l: LinkedList<T>): (r: LinkedList<T>)
    ensures r.Valid() && r.IsEmpty() && r.ToArray() == []
  {
    EmptyList()
  }

  /** Operations that run on a list value, for the invariant below. */
  datatype ListOp<T> = Front(value: T) | Back(value: T) | TakeFront | TakeBack | Wipe

  function ApplyList<T>(l: LinkedList<T>, op: ListOp<T>): LinkedList<T> {
    match op
    case Front(v) => PushFront(l, v)
    case Back(v) => PushBack(l, v)
    case TakeFront => PopFront(l).list
    case TakeBack => PopBack(l).list
    case Wipe => ClearList(l)
  }

  function RunList<T>(l: LinkedList<T>, ops: seq<ListOp<T>>): LinkedList<T>
    decreases |ops|
  {
    if |ops| == 0 then l else RunList(ApplyList(l, ops[0]), ops[1..])
  }

  /** Starting from an empty list, `size` always equals the number of nodes, so
      `isEmpty()` agrees with the absence of a head node. */
  lemma {:induction false} SizeTracksNodes<T>(l: LinkedList<T>, ops: seq<ListOp<T>>)
    requires l.Valid()
    ensures RunList(l, ops).Valid()
    ensures RunList(l, ops).IsEmpty() <==> RunList(l, ops).PeekFront().None?
    decreases |ops|
  {
    if |ops| > 0 {
      SizeTracksNodes(ApplyList(l, ops[0]), ops[1..]);
    }
  }

  /** Both ends behave as stacks: a push followed by a pop at the same end
      gives back the value and the list. */
  lemma PushPopSameEnd<T>(l: LinkedList<T>, value: T)
    ensures PopFront(PushFront(l, value)) == ListPop(l, Some(value))
    ensures PopBack(PushBack(l, value)) == ListPop(l, Some(value))
  {
    assert (l.items + [value])[..|l.items|] == l.items;
  }

  /** Pushing at the back and popping at the front is a FIFO queue. */
  lemma PushBackPopFront<T>(l: LinkedList<T>, value: T)
    requires |l.items| > 0
    ensures PopFront(PushBack(l, value)).value == l.PeekFront()
    ensures PopFront(PushBack(l, value)).list == PushBack(PopFront(l).list, value)
  {
    assert (l.items + [value])[1..] == l.items[1..] + [value];
  }

  datatype Stack<T> = Stack(data: seq<T>)
  {
    function Size(): nat { |data| }
    predicate IsEmpty() { |data| == 0 }

    /** `peek()`: `data[data.length - 1]`, `undefined` when empty. */
    function Peek(): Option<T> { if |data| == 0 then None else Some(data[|data| - 1]) }
  }

  datatype StackPop<T> = StackPop(stack: Stack<T>, value: Option<T>)

  function Push<T>(s: Stack<T>, value: T): (r: Stack<T>)
    ensures r.Size() == s.Size() + 1 && r.Peek() == Some(value)
  {
    Stack(s.data + [value])
  }

  /** `pop()`: `Array.prototype.pop`, which leaves an empty array alone. */
  function Pop<T>(s: Stack<T>): (r: StackPop<T>)
    ensures s.IsEmpty() ==> r == StackPop(s, None)
    ensures !s.IsEmpty() ==> r.value == s.Peek() && r.stack.data + [r.value.value] == s.data
  {
    if |s.data| == 0 then StackPop(s, None)
    else StackPop(Stack(s.data[..|s.data| - 1]), Some(s.data[|s.data| - 1]))
  }

  /** Last in, first out. */
  lemma StackLifo<T>(s: Stack<T>, value: T)
    ensures Pop(Push(s, value)) == StackPop(s, Some(value))
  {
    assert (s.data + [value])[..|s.data|] == s.data;
  }

  datatype Queue<T> = Queue(data: seq<T>)
  {
    function Size(): nat { |data| }
    predicate IsEmpty() { |data| == 0 }

    /** `peek()`: `data[0]`, `undefined` when empty. */
    function Peek(): Option<T> { if |data| == 0 then None else Some(data[0]) }
  }

  datatype Dequeued<T> = Dequeued(queue: Queue<T>, value: Option<T>)

  function Enqueue<T>(q: Queue<T>, value: T): (r: Queue<T>)
    ensures r.Size() == q.Size() + 1
    ensures !q.IsEmpty() ==> r.Peek() == q.Peek()
  {
    Queue(q.data + [value])
  }

  /** `dequeue()`: `Array.prototype.shift`, which leaves an empty array alone. */
  function Dequeue<T>(q: Queue<T>): (r: Dequeued<T>)
    ensures q.IsEmpty() ==> r == Dequeued(q, None)
    ensures !q.IsEmpty() ==> r.value == q.Peek() && [r.value.value] + r.queue.data == q.data
  {
    if |q.data| == 0 then Dequeued(q, None) else Dequeued(Queue(q.data[1..]), Some(q.data[0]))
  }

  /** First in, first out, stated as the algebraic law of queues: enqueueing
      commutes with dequeueing from a non-empty queue. */
  lemma QueueFifo<T>(q: Queue<T>, value: T)
    ensures q.IsEmpty() ==> Dequeue(Enqueue(q, value)) == Dequeued(q, Some(value))
    ensures !q.IsEmpty() ==>
              && Dequeue(Enqueue(q, value)).value == Dequeue(q).value
              && Dequeue(Enqueue(q, value)).queue == Enqueue(Dequeue(q).queue, value)
  {
    if !q.IsEmpty() {
      assert (q.data + [value])[1..] == q.data[1..] + [value];
    }
  }

  /** Enqueueing `items` one after another. */
  function EnqueueAll<T>(q: Queue<T>, items: seq<T>): Queue<T>
    decreases |items|
  {
    if |items| == 0 then q else EnqueueAll(Enqueue(q, items[0]), items[1..])
  }

  /** Enqueueing `items` into an empty queue and draining it gives them back in the
      order they were enqueued. */
  lemma EnqueueThenDrain<T>(items: seq<T>)
    ensures Drain(EnqueueAll(Queue([]), items)) == items
  {
    EnqueueAllAppends(Queue([]), items);
    assert [] + items == items;
    DrainInOrder(items);
  }

  lemma {:induction false} EnqueueAllAppends<T>(q: Queue<T>, items: seq<T>)
    ensures EnqueueAll(q, items) == Queue(q.data + items)
    decreases |items|
  {
    if |items| > 0 {
      EnqueueAllAppends(Enqueue(q, items[0]), items[1..]);
      assert q.data + [items[0]] + items[1..] == q.data + items;
    }
  }

  /** Draining a queue yields its elements front to back. */
  function Drain<T>(q: Queue<T>): (r: seq<T>)
    decreases |q.data|
  {
    match Dequeue(q)
    case Dequeued(rest, None) => []
    case Dequeued(rest, Some(v)) => [v] + Drain(rest)
  }

  lemma {:induction false} DrainInOrder<T>(items: seq<T>)
    ensures Drain(Queue(items)) == items
    decreases |items|
  {
    if |items| > 0 {
      DrainInOrder(items[1..]);
    }
  }
}
