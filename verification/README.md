# Zero core, modelled in Dafny

A model of the sequential core of the Zero TypeScript utility library, with proofs about it:

- **Coordination primitives**: the object pool, the counting semaphore, the read/write lock, the task scheduler's admission loop and the throttle queue. JavaScript runs one callback at a time, so each primitive is a record plus transition functions. A suspended caller is an opaque id in a FIFO queue.
- **Data structures**: the LRU cache, the binary heap, the doubly linked list, the stack, the queue and the trie.
- **Algorithms**: the six sorts (quick, merge, heap, insertion, bubble, selection) and the searches (binary, lower bound, upper bound, linear, depth-first, breadth-first).
- **Pure helpers**: array, integer math, string and file-name helpers.
- **Small state machines**: the finite state machine, the undo/redo command history, the configuration manager with its defaults, and the event emitter's listener bookkeeping.

Every value is immutable. A method that mutates `this` in the source becomes a function from the old record to the new one.

Some source operations call foreign code: a `create` factory, a `reset` hook, enter/exit hooks, listeners, commands or a task. For these, the model either takes the result as a parameter or returns a log of the calls made, in order.

A JavaScript `Set` is modelled as a duplicate-free sequence in insertion order. `Prelude.Added` and `Prelude.Without` are its `add` and `delete`.

JavaScript numbers are modelled as unbounded integers. JavaScript's truncating `%` is written out as `Prelude.JsRem`. Negative `slice`/`splice` indices are written out as `Prelude.Slice` and `Prelude.RelIndex`.

Comparators `(a, b) => number` are functions `(T, T) -> int`. `Ordering.Comparator` says a comparator is sensible: swapping the arguments flips the sign, and "sorts no later than" is transitive. The default comparator satisfies it (`Ordering.DefaultCompareIsComparator`). The merge, heap, insertion, bubble and selection sorts accept any function and always return a permutation of their input; sortedness is promised only under `Comparator`. Quick sort requires `Comparator`, because its partition scans rely on it to stay inside the range: with `() => -1`, the scan `while (compareFn(result[i], pivot) < 0) i++` (src/algorithm/sort/index.ts:21) runs past the end of the array and never stops, since comparing `undefined` still answers -1.

The sorts copy their input (`[...arr]`) before working on it. Values are immutable here, so "the input array is not mutated" holds by construction.

## Model

| member | source | states |
|---|---|---|
| ObjectPool.New | src/pattern/concurrency/index.ts:16-31 | the free list is the pre-created objects in creation order, nothing is in use, and `max` and the reset hook are kept; distinct objects give a well-formed pool |
| ObjectPool.NewAcquiresLastCreated | src/pattern/concurrency/index.ts:26-44 | the first `acquire` on a pre-warmed pool pops the object created last, leaving the others in creation order |
| ObjectPool.Acquire | src/pattern/concurrency/index.ts:33-44 | returns the most recently pooled object and removes it from the free list; with an empty free list, returns the newly created object; either way the result is marked in use |
| ObjectPool.Release | src/pattern/concurrency/index.ts:46-55 | releasing an object not in use changes nothing and calls no reset; otherwise the object leaves the in-use set and is reset when a reset hook exists; it rejoins the free list only while the list is below `max`, and is dropped otherwise |
| ObjectPool.Clear | src/pattern/concurrency/index.ts:69-72 | after `clear()` the pool tracks no object, and `max` is kept |
| ObjectPool.SizeCountsTracked | src/pattern/concurrency/index.ts:57-67 | `size` (available plus active) is the number of distinct objects the pool knows about |
| ObjectPool.AcquireKeepsValid | src/pattern/concurrency/index.ts:33-44 | acquiring keeps every object in exactly one place: free or in use |
| ObjectPool.AcquireSize | src/pattern/concurrency/index.ts:33-44 | reusing a pooled object keeps `size`; creating one grows it by one; `active` grows by one either way |
| ObjectPool.ReleaseKeepsValid | src/pattern/concurrency/index.ts:46-55 | releasing keeps every object in exactly one place |
| ObjectPool.ReleaseSize | src/pattern/concurrency/index.ts:46-55 | releasing an in-use object shrinks `size` exactly when the free list is full and the object is dropped |
| ObjectPool.ReleaseRespectsMax | src/pattern/concurrency/index.ts:52-54 | release never grows the free list beyond `max` |
| ObjectPool.ReleaseThenAcquireReuses | src/pattern/concurrency/index.ts:33-55 | an object released into a pool with room is the very object the next acquire returns |
| ObjectPool.ReleaseAllFills | src/pattern/concurrency/index.ts:46-55 | releasing distinct in-use objects one by one fills the free list up to `max` and drops the rest |
| ObjectPool.MaxOneKeepsFirst | src/pattern/concurrency/index.ts:33-55 | with `max = 1`, of two released objects only the first is kept, and it is what the next acquire returns |
| Semaphore.NewHasPermits | src/pattern/concurrency/index.ts:170-172 | a new semaphore has the given permits and no waiter; a non-negative count gives a well-formed semaphore |
| Semaphore.AcquireBy | src/pattern/concurrency/index.ts:174-183 | the caller gets a permit exactly when one is free, which decrements the count; otherwise it joins the back of the wait queue with the count unchanged |
| Semaphore.ReleaseOne | src/pattern/concurrency/index.ts:185-192 | with waiters, the front waiter is woken and removed and the count is unchanged; without waiters, the count grows by one |
| Semaphore.AcquireKeepsValid | src/pattern/concurrency/index.ts:174-183 | acquire keeps the invariant: the count is non-negative, and waiters exist only at count 0 |
| Semaphore.ReleaseKeepsValid | src/pattern/concurrency/index.ts:185-192 | release keeps the same invariant |
| Semaphore.WithPermitRestores | src/pattern/concurrency/index.ts:194-201 | `withPermit` with a free permit leaves the semaphore exactly as it found it |
| Semaphore.ReleasesWakeInOrder | src/pattern/concurrency/index.ts:185-192 | `k` releases wake exactly the first `k` waiters, in the order they queued, and leave the rest queued |
| Semaphore.UseAcquireConserves | src/pattern/concurrency/index.ts:174-183 | for a caller that tracks permit holders, free permits plus holders stays equal to the initial count across an acquire |
| Semaphore.UseReleaseConserves | src/pattern/concurrency/index.ts:185-192 | the same conservation holds across a release, where the woken waiter becomes a holder |
| Semaphore.AtMostNHolders | src/pattern/concurrency/index.ts:166-206 | with conserved permits, at most `n` callers hold a permit, and when `n` hold one the next acquire suspends |
| ReadWriteLock.TryRead | src/pattern/concurrency/index.ts:217-222 | a reader is admitted exactly when no writer holds the lock and none is queued; otherwise it queues at the back of the readers |
| ReadWriteLock.TryWrite | src/pattern/concurrency/index.ts:232-237 | a writer is admitted exactly when no writer and no reader holds the lock; otherwise it queues at the back of the writers |
| ReadWriteLock.AcquireRead | src/pattern/concurrency/index.ts:217-222 | a new reader enters exactly when no writer holds or waits for the lock, and otherwise waits at the back of the reader queue; the writer side is untouched |
| ReadWriteLock.AcquireWrite | src/pattern/concurrency/index.ts:232-237 | a new writer enters exactly when no writer and no reader holds the lock, and otherwise waits at the back of the writer queue; the reader side is untouched |
| ReadWriteLock.ReleaseRead | src/pattern/concurrency/index.ts:224-230 | one reader leaves; the last reader out resolves the first queued writer; everything else is unchanged |
| ReadWriteLock.AsWoken | src/pattern/concurrency/index.ts:243-246 | resolving a queue resolves every queued id, in queue order |
| ReadWriteLock.ReleaseWrite | src/pattern/concurrency/index.ts:239-253 | clears the writer flag, resolves every queued reader in order, then the first queued writer if there is one |
| ReadWriteLock.Resume | src/pattern/concurrency/index.ts:217-237 | a resolved waiter that resumes tests its loop condition again, so it is admitted or queued once more |
| ReadWriteLock.ApplyKeepsExclusive | src/pattern/concurrency/index.ts:211-254 | no single call lets a reader and a writer hold the lock at the same time |
| ReadWriteLock.RunKeepsExclusive | src/pattern/concurrency/index.ts:211-254 | readers and a writer never hold the lock together, over any interleaving of calls |
| ReadWriteLock.QueuedWriterBlocksReaders | src/pattern/concurrency/index.ts:217-222 | while a writer is queued, no reader is admitted: neither a new caller nor a resuming one |
| ReadWriteLock.WriterNeedsEmptyLock | src/pattern/concurrency/index.ts:232-237 | a writer, new or resuming, is admitted if and only if no writer and no reader holds the lock |
| ReadWriteLock.ThreeReadersThenWriter | src/pattern/concurrency/index.ts:217-237 | three readers share the lock; a writer arriving then waits until the third reader leaves |
| ReadWriteLock.ReaderOvertakesResolvedWriter | src/pattern/concurrency/index.ts:217-230 | a writer resolved by the last reader, but not yet resumed, can be overtaken by a new reader, and it then queues again |
| ReadWriteLock.ResolvedReadersRequeueBehindWriters | src/pattern/concurrency/index.ts:239-253 | readers resolved by `releaseWrite` queue again while another writer is still waiting |
| Scheduler.NewIsIdle | src/pattern/concurrency/index.ts:83-85 | a new scheduler has nothing pending and nothing running |
| Scheduler.RunLoop | src/pattern/concurrency/index.ts:100-110 | the loop starts tasks from the front of the queue, in order, and never takes `running` past `maxConcurrency`; it stops only when the slots are full or the queue is empty |
| Scheduler.Add | src/pattern/concurrency/index.ts:87-98 | `add` puts the task at the back of the queue and runs the loop: with a free slot the task starts at once, with every slot busy nothing starts |
| Scheduler.Finish | src/pattern/concurrency/index.ts:105-108 | a settled task frees its slot, which goes to the oldest waiting task if there is one |
| Scheduler.AddKeepsValid | src/pattern/concurrency/index.ts:87-98 | `add` keeps at most `maxConcurrency` tasks running, lets a task wait only while every slot is busy, and starts at most one task |
| Scheduler.FinishKeepsValid | src/pattern/concurrency/index.ts:105-108 | a task finishing keeps that invariant and starts at most the next queued task |
| Scheduler.StepFifoAndBounded | src/pattern/concurrency/index.ts:87-110 | one event starts tasks in submission order and keeps the bound |
| Scheduler.ReplayFifoAndBounded | src/pattern/concurrency/index.ts:87-110 | over any sequence of submissions and completions, tasks start exactly in submission order and the bound always holds |
| Scheduler.TwoSlotsFiveTasks | src/pattern/concurrency/index.ts:87-110 | with two slots, five submissions start the first two and queue the other three in order |
| ThrottleQueue.NewIsIdle | src/pattern/concurrency/index.ts:124-134 | a new queue is idle and empty |
| ThrottleQueue.Push | src/pattern/concurrency/index.ts:136-152 | while processing, a push only appends; otherwise it starts the loop, which hands the front item to the handler |
| ThrottleQueue.Settle | src/pattern/concurrency/index.ts:141-152 | after a handler call succeeds, the loop takes the next item or stops and clears `processing`; after a handler throws, the loop stops with `processing` still set |
| ThrottleQueue.Clear | src/pattern/concurrency/index.ts:158-160 | `clear()` drops the waiting items and leaves the running loop alone |
| ThrottleQueue.StepOneAtATime | src/pattern/concurrency/index.ts:136-152 | each event calls the handler at most once, never while another call is in flight, and loses no item |
| ThrottleQueue.ReplayInPushOrder | src/pattern/concurrency/index.ts:136-152 | over any run, items reach the handler in push order, and every pushed item is handled or still queued |
| ThrottleQueue.FailedHandlerStallsQueue | src/pattern/concurrency/index.ts:141-152 | after a handler throws, no later push ever reaches the handler |
| LruCache.NewIsEmpty | src/algorithm/struct/index.ts:13-16 | a new cache is empty |
| LruCache.Get | src/algorithm/struct/index.ts:18-25 | a miss returns nothing and changes nothing; a hit returns the stored value, keeps the contents, and makes the key the most recent |
| LruCache.Victim | src/algorithm/struct/index.ts:28-35 | a key is evicted exactly when a new key arrives in a full, non-empty cache, and the evicted key is the least recently used |
| LruCache.Set | src/algorithm/struct/index.ts:27-37 | the key holds the new value and becomes the most recent; the keys are the old keys, minus the victim if there is one, plus the key; without eviction the other keys keep their recency order, and an eviction drops exactly the least recent key and keeps the rest in order |
| LruCache.Delete | src/algorithm/struct/index.ts:43-45 | the answer says whether the key was present, and afterwards it is absent while every other entry stays; the other keys keep their recency order, as `Map.delete` keeps insertion order |
| LruCache.Clear | src/algorithm/struct/index.ts:47-49 | after `clear()` the cache is empty, with the same capacity |
| LruCache.GetKeepsValid | src/algorithm/struct/index.ts:18-25 | `get` keeps every key exactly once in the recency order, and does not change `size` |
| LruCache.SetKeepsValid | src/algorithm/struct/index.ts:27-37 | `set` keeps every key exactly once in the recency order |
| LruCache.DeleteKeepsValid | src/algorithm/struct/index.ts:43-45 | `delete` keeps every key exactly once in the recency order |
| LruCache.SetThenGet | src/algorithm/struct/index.ts:18-37 | `get` right after `set` returns the value just set, for any capacity |
| LruCache.SetKeepsOthers | src/algorithm/struct/index.ts:27-37 | `set` does not touch any other entry except the evicted one |
| LruCache.SetRespectsCapacity | src/algorithm/struct/index.ts:27-37 | `size` never exceeds the capacity; a capacity below one still holds the entry just set |
| LruCache.GetProtectsFromEviction | src/algorithm/struct/index.ts:18-37 | a key just read is not the one evicted by the next insertion of a new key |
| BinaryHeap.New | src/algorithm/struct/index.ts:63-65 | a new heap is empty and in heap order |
| BinaryHeap.Push | src/algorithm/struct/index.ts:79-82 | push adds exactly the value, so the contents grow by one copy of it |
| BinaryHeap.Pop | src/algorithm/struct/index.ts:84-96 | popping an empty heap gives nothing and changes nothing; otherwise it returns the root and removes exactly one copy of it |
| BinaryHeap.From | src/algorithm/struct/index.ts:129-135 | `Heap.from` holds exactly the elements of the array |
| BinaryHeap.PushKeepsHeap | src/algorithm/struct/index.ts:98-105 | push, with its bubble-up, keeps heap order under a valid comparator |
| BinaryHeap.PopKeepsHeap | src/algorithm/struct/index.ts:84-96 | pop, with its bubble-down, keeps heap order under a valid comparator |
| BinaryHeap.PopReturnsMinimum | src/algorithm/struct/index.ts:84-96 | pop returns an element that no element of the heap sorts before |
| BinaryHeap.FromIsHeap | src/algorithm/struct/index.ts:129-135 | `Heap.from` builds a heap |
| HeapOrder.Best | src/algorithm/struct/index.ts:111-122 | the node chosen by a sift-down step is the node itself or one of its children |
| HeapOrder.SiftDown | src/algorithm/struct/index.ts:107-127 | sift-down only rearranges, and moves nothing outside the part of the array it works on |
| HeapOrder.SiftUp | src/algorithm/struct/index.ts:98-105 | sift-up only rearranges, and moves nothing below the start node |
| HeapOrder.BestIsBest | src/algorithm/struct/index.ts:111-122 | no candidate beats the chosen node, and on ties the node itself and then the left child are preferred |
| HeapOrder.SiftDownRestores | src/algorithm/struct/index.ts:107-127 | sifting a node that breaks heap order down restores heap order |
| HeapOrder.SiftUpRestores | src/algorithm/struct/index.ts:98-105 | sifting a node that breaks heap order up restores heap order |
| HeapOrder.RootUnbeaten | src/algorithm/struct/index.ts:75-77 | no element of a heap beats its root |
| HeapOrder.ComparatorOrders | src/algorithm/struct/index.ts:115-118 | the min-heap order (`compare < 0`) and the max-heap order (`compare > 0`) are both strict weak orders |
| Containers.EmptyListIsEmpty | src/algorithm/struct/index.ts:154-165 | a new list is empty and its counter agrees with it |
| Containers.PushFront | src/algorithm/struct/index.ts:167-177 | the value becomes the new head, in front of the old contents, and `size` grows by one |
| Containers.PushBack | src/algorithm/struct/index.ts:179-189 | the value becomes the new tail, behind the old contents, and `size` grows by one |
| Containers.PopFront | src/algorithm/struct/index.ts:191-203 | popping an empty list gives nothing and changes nothing; otherwise it returns the head and removes exactly it |
| Containers.PopBack | src/algorithm/struct/index.ts:205-217 | popping an empty list gives nothing and changes nothing; otherwise it returns the tail and removes exactly it |
| Containers.ClearList | src/algorithm/struct/index.ts:237-241 | after `clear()` the list is empty and its counter agrees |
| Containers.SizeTracksNodes | src/algorithm/struct/index.ts:159-241 | after any sequence of operations, `size` equals the length of `toArray()`, and `isEmpty()` holds exactly when there is no head |
| Containers.PushPopSameEnd | src/algorithm/struct/index.ts:167-217 | `pushFront`/`popFront` and `pushBack`/`popBack` are inverse pairs |
| Containers.PushBackPopFront | src/algorithm/struct/index.ts:179-203 | pushing at the back and popping at the front behaves as a FIFO queue |
| Containers.Push | src/algorithm/struct/index.ts:258-260 | a stack push grows the stack by one, and the value is on top |
| Containers.Pop | src/algorithm/struct/index.ts:262-264 | popping an empty stack gives nothing; otherwise it returns the top and removes exactly it |
| Containers.StackLifo | src/algorithm/struct/index.ts:258-268 | a stack pop undoes the push just made: last in, first out |
| Containers.Enqueue | src/algorithm/struct/index.ts:289-291 | enqueue grows the queue by one and does not change its front |
| Containers.Dequeue | src/algorithm/struct/index.ts:293-295 | dequeuing an empty queue gives nothing; otherwise it returns the front and removes exactly it |
| Containers.QueueFifo | src/algorithm/struct/index.ts:289-299 | first in, first out: enqueueing commutes with dequeueing from a non-empty queue |
| Containers.DrainInOrder | src/algorithm/struct/index.ts:289-299 | dequeuing until empty yields the queue's items front to back |
| Containers.EnqueueThenDrain | src/algorithm/struct/index.ts:289-295 | enqueueing items into an empty queue and dequeuing until empty yields them in the order they were enqueued |
| Trie.FindNode | src/algorithm/struct/index.ts:333-340 | the empty string finds the root, and a missing first edge finds nothing |
| Trie.Insert | src/algorithm/struct/index.ts:313-322 | insert marks the end of the word and creates its first edge |
| Trie.EmptyHasNothing | src/algorithm/struct/index.ts:309-331 | an empty trie holds no word, and only the empty prefix |
| Trie.SearchAfterInsert | src/algorithm/struct/index.ts:313-327 | after `insert(w)`, `search` finds exactly `w` and the words found before |
| Trie.StartsWithAfterInsert | src/algorithm/struct/index.ts:313-331 | after `insert(w)`, `startsWith` accepts exactly the prefixes of `w` and the prefixes accepted before |
| Trie.SearchImpliesStartsWith | src/algorithm/struct/index.ts:324-331 | every word found is a prefix found |
| Trie.BuildFindsExactly | src/algorithm/struct/index.ts:313-331 | a trie built from a list of words finds exactly those words, and exactly their prefixes |
| Ordering.DefaultCompareIsComparator | src/algorithm/sort/index.ts:11 | the default comparator is a valid comparator |
| QuickSort.Partition | src/algorithm/sort/index.ts:16-28 | the partition loop rearranges only the range; it leaves everything left of `i` no later than the pivot and everything right of `j` no earlier; both sides are strictly shorter than the range |
| QuickSort.SortRange | src/algorithm/sort/index.ts:13-32 | sorting a range sorts it, only rearranges, and moves nothing outside it |
| QuickSort.Sort | src/algorithm/sort/index.ts:9-36 | `quickSort` returns a sorted permutation of its input |
| MergeSort.Merge | src/algorithm/sort/index.ts:44-57 | merging keeps every element of both inputs |
| MergeSort.MergeLoop | src/algorithm/sort/index.ts:44-57 | the loop of `merge` as written computes the merge |
| MergeSort.Sort | src/algorithm/sort/index.ts:59-63 | `mergeSort` returns a permutation of its input |
| MergeSort.MergeSorted | src/algorithm/sort/index.ts:44-57 | merging two sorted sequences gives a sorted sequence |
| MergeSort.MergeStable | src/algorithm/sort/index.ts:49 | because ties take the left element, each class of equal elements comes out as its left members followed by its right ones |
| MergeSort.SortSorted | src/algorithm/sort/index.ts:41-66 | `mergeSort` returns a sorted sequence |
| MergeSort.SortStable | src/algorithm/sort/index.ts:41-66 | `mergeSort` is stable: equal elements keep their input order |
| HeapSort.Build | src/algorithm/sort/index.ts:89-92 | for any `compare` the build phase only rearranges the array; under a comparator it leaves a max-heap |
| HeapSort.Extract | src/algorithm/sort/index.ts:95-98 | one extraction step only rearranges; under a comparator it keeps a heap in front, a sorted tail behind, and nothing in the heap after anything in the tail |
| HeapSort.Sort | src/algorithm/sort/index.ts:71-101 | `heapSort` returns a permutation of its input for any `compare`, and a sorted one when `compare` is a comparator |
| InsertionSort.Insert | src/algorithm/sort/index.ts:111-117 | inserting one element adds exactly that element |
| InsertionSort.InsertAt | src/algorithm/sort/index.ts:111-117 | one pass of the outer loop inserts `result[i]` into the prefix before it and leaves the rest alone |
| InsertionSort.Sort | src/algorithm/sort/index.ts:106-121 | `insertionSort` returns a permutation of its input; with a valid comparator it is sorted and stable |
| InsertionSort.InsertSorted | src/algorithm/sort/index.ts:113 | inserting into a sorted prefix keeps it sorted |
| InsertionSort.InsertKeepsTies | src/algorithm/sort/index.ts:113 | because the scan stops at the first element that is not strictly greater, the inserted element goes after every equal element already there |
| InsertionSort.SortedAndStable | src/algorithm/sort/index.ts:106-121 | with a valid comparator, `insertionSort` is sorted and keeps equal elements in input order |
| BubbleSort.Pass | src/algorithm/sort/index.ts:131-135 | one pass only rearranges, for any `compare`; under a comparator it moves a largest element of the unsorted prefix to its end |
| BubbleSort.Sort | src/algorithm/sort/index.ts:126-139 | `bubbleSort` returns a permutation of its input for any `compare`, and a sorted one when `compare` is a comparator |
| SelectionSort.MinIndex | src/algorithm/sort/index.ts:149-154 | the inner loop returns an index into the unsorted suffix for any `compare`; under a comparator that element is a least one |
| SelectionSort.Sort | src/algorithm/sort/index.ts:144-161 | `selectionSort` returns a permutation of its input for any `compare`, and a sorted one when `compare` is a comparator |
| Search.BinarySearch | src/algorithm/search/index.ts:9-28 | the answer is -1 or an index whose element compares equal to the target; on a sorted array, -1 means no such element exists |
| Search.LowerBound | src/algorithm/search/index.ts:33-49 | on a sorted array, every element before the answer sorts before the target and none from it on does |
| Search.UpperBound | src/algorithm/search/index.ts:54-70 | on a sorted array, every element before the answer sorts no later than the target and every element from it on sorts after it |
| Search.EqualRange | src/algorithm/search/index.ts:9-70 | on a sorted array, lower bound ≤ upper bound, the elements equal to the target are exactly those between them, and binary search fails exactly when that range is empty |
| Search.LinearSearch | src/algorithm/search/index.ts:75-80 | the answer is the least index holding the target, or -1 exactly when the target is absent |
| GraphSearch.Dfs | src/algorithm/search/index.ts:85-104 | `dfs` visits `start` first, visits no node twice, visits every neighbour of every visited node, and visits exactly the nodes reachable from `start` |
| GraphSearch.Traverse | src/algorithm/search/index.ts:92-101 | `traverse(node)` keeps the earlier visits as a prefix, visits `node` next if it is new, and leaves no neighbour of a newly visited node unvisited |
| GraphSearch.Bfs | src/algorithm/search/index.ts:109-131 | `bfs` visits `start` first, visits no node twice, visits every neighbour of every visited node, and visits exactly the nodes reachable from `start` |
| GraphSearch.EnqueueUnvisited | src/algorithm/search/index.ts:124-129 | the neighbour loop only appends neighbours, and leaves every neighbour visited or queued |
| GraphSearch.FrontierStep | src/algorithm/search/index.ts:117-129 | visiting the dequeued node keeps the BFS invariant: every neighbour of a visited node is visited or queued |
| ArrayUtils.Unique | src/utils/array.ts:11-13 | the result has no duplicates, holds exactly the input's values, and keeps them in first-occurrence order |
| ArrayUtils.UniqueBy | src/utils/array.ts:18-26 | the result keeps one item per key, for every key of the input |
| ArrayUtils.FirstByKeyDistinct | src/utils/array.ts:18-26 | the kept item for each key is the first item with that key, and the kept items are in input order |
| ArrayUtils.KeyIndex | src/utils/array.ts:18-26 | the position of the first item with a key, or the length when no item has it |
| ArrayUtils.Chunk | src/utils/array.ts:45-52 | a size ≤ 0 gives no chunks; otherwise the chunks concatenate to the array, every chunk but the last has exactly `size` items, and none is empty |
| ArrayUtils.Difference | src/utils/array.ts:64-67 | an item is kept exactly when no other array contains it, and a kept item keeps its multiplicity |
| ArrayUtils.DifferenceSnoc | src/utils/array.ts:64-67 | `filter` keeps the input order: the difference of the empty array is empty, and an item appended to the array is appended to the result exactly when no other array holds it |
| ArrayUtils.Take | src/utils/array.ts:163-165 | `take(n)` for n ≥ 0 is the first `n` items, or all of them |
| ArrayUtils.TakeRight | src/utils/array.ts:170-172 | `takeRight(n)` is the last `min(n, length)` items, and nothing for n < 0 |
| ArrayUtils.Drop | src/utils/array.ts:177-179 | `drop(n)` for n ≥ 0 is everything after the first `n` items |
| ArrayUtils.DropRight | src/utils/array.ts:184-186 | `dropRight(n)` is everything before the last `min(n, length)` items, and the whole array for n < 0 |
| ArrayUtils.TakeDropSplit | src/utils/array.ts:163-186 | `take(n)` followed by `drop(n)` gives the array back, and so do `dropRight(n)` followed by `takeRight(n)`, for every `n` |
| ArrayUtils.FindIndex | src/utils/array.ts:191-196 | the answer is the least index satisfying the predicate, or -1 exactly when none does |
| ArrayUtils.Insert | src/utils/array.ts:225-229 | insert adds exactly the given items, as one block at the normalised index; removing the block gives the array back |
| ArrayUtils.Move | src/utils/array.ts:243-248 | move keeps the length and the items, the moved item lands at the normalised target index, and the other items keep their order |
| ArrayUtils.MoveBack | src/utils/array.ts:243-248 | moving the item back from where it landed restores the array |
| ArrayUtils.MoveClampsFrom | src/utils/array.ts:243-248 | a start below minus the length is clamped to 0 as `splice` does: `move([1, 2, 3], -10, 2)` is `[2, 3, 1]` |
| ArrayUtils.Range | src/utils/array.ts:279-291 | the k-th value is start + k·step, and every value lies on the start side of `end`; the range stops at the first value that does not; a zero step gives nothing; a missing end counts from 0 |
| ArrayUtils.RangeIncreasing | src/utils/array.ts:279-291 | with a positive step the range strictly increases |
| ArrayUtils.Partition | src/utils/array.ts:325-333 | `truthy ++ falsy` is a permutation of the array; the truthy part holds exactly the items satisfying the predicate, and the falsy part exactly the others |
| ArrayUtils.FilterSplits | src/utils/array.ts:325-333 | the two parts of a partition together hold every item with its multiplicity |
| Ordering.Swap | src/utils/array.ts:234-238 | `swap` keeps the length and the items and exchanges exactly the two positions |
| IntMath.Clamp | src/utils/math/base.ts:9-11 | the result lies in [min, max] when min ≤ max, equals the value when the value already lies there, and is `max` when min > max |
| IntMath.Mod | src/utils/math/base.ts:61-63 | for m > 0, the result lies in [0, m) and is congruent to n; for m < 0, it lies in (m, 0] and is congruent to n; m = 0 gives `NaN` |
| IntMath.IsPrime | src/utils/math/base.ts:96-104 | `isPrime(n)` holds exactly when n ≥ 2 has no divisor strictly between 1 and n |
| IntMath.OddTrial | src/utils/math/base.ts:100-103 | for odd n ≥ 3, trying odd divisors up to √n answers whether n has any divisor strictly between 1 and n |
| IntMath.NoSmallDivisor | src/utils/math/base.ts:100-103 | a number with no divisor up to its square root has no proper divisor at all |
| IntMath.Euclid | src/utils/math/base.ts:112-115 | Euclid's loop on non-negative operands returns a common divisor that every common divisor divides; it is 0 only when both operands are 0 |
| IntMath.Gcd | src/utils/math/base.ts:109-116 | `gcd` is non-negative, divides both arguments, is the greatest such number, and is 0 only for gcd(0, 0) |
| IntMath.Lcm | src/utils/math/base.ts:121-123 | `lcm(a, b) · gcd(a, b)` is the absolute value of `a · b`, the absolute values of `a` and `b` both divide it, and lcm(0, 0) is `NaN` |
| IntMath.Factorial | src/utils/math/base.ts:128-136 | `NaN` below 0; otherwise n!, with 0! = 1! = 1 and n! = n·(n−1)! |
| IntMath.Fibonacci | src/utils/math/base.ts:141-149 | `NaN` below 0; otherwise F(n), with F(0) = 0, F(1) = 1 and F(n) = F(n−1) + F(n−2) |
| IntMath.Sign | src/utils/math/base.ts:154-158 | the result is −1, 0 or 1; it is 0 exactly for 0; multiplied by the absolute value of n it gives n back |
| StateMachine.NewStarts | src/pattern/behavioral/index.ts:60-64 | a new machine starts in the initial state with no listener, and runs the initial state's `enter` hook if it has one |
| StateMachine.Target | src/pattern/behavioral/index.ts:70-73 | an event has a target exactly when the current state lists it |
| StateMachine.Transition | src/pattern/behavioral/index.ts:75-96 | the machine moves if and only if `can(event)` holds; without an edge nothing changes and nothing runs; with one, the machine moves to the edge's target, running the old `exit`, then the new `enter`, then every listener in registration order |
| StateMachine.NotifyAll | src/pattern/behavioral/index.ts:92-93 | every listener is notified once, in registration order, with the new and the previous state |
| StateMachine.OnTransition | src/pattern/behavioral/index.ts:98-101 | subscribing is `Set.add`: a new listener goes after the others, which keep their order, a known one changes nothing, no listener is held twice, and the state is kept |
| StateMachine.Unsubscribe | src/pattern/behavioral/index.ts:100 | the returned unsubscribe function is `Set.delete`: exactly that listener goes, and the others keep their order |
| StateMachine.SubscribeNotifiesLast | src/pattern/behavioral/index.ts:92-101 | a newly subscribed listener is notified after every earlier one |
| StateMachine.UnsubscribeUndoes | src/pattern/behavioral/index.ts:98-101 | calling the returned function right after subscribing gives back the machine as it was |
| StateMachine.RunStaysConfigured | src/pattern/behavioral/index.ts:75-96 | if every edge leads to a configured state, the machine stays in configured states whatever events arrive |
| StateMachine.IgnoredEventsChangeNothing | src/pattern/behavioral/index.ts:75-79 | an event without an edge from the current state changes nothing, however often it repeats |
| CommandHistory.EmptyCannotMove | src/pattern/behavioral/index.ts:147-149 | a new history can neither undo nor redo, and both calls fail without running a command |
| CommandHistory.ExecuteCommand | src/pattern/behavioral/index.ts:151-158 | execute runs the command, discards the redo tail, appends the command and points at it, so undo becomes possible and redo does not |
| CommandHistory.UndoCommand | src/pattern/behavioral/index.ts:160-166 | undo fails exactly when position < 0, and then changes nothing; otherwise it undoes the current command and steps back one |
| CommandHistory.RedoCommand | src/pattern/behavioral/index.ts:168-174 | redo fails exactly when position is at the last index, and then changes nothing; otherwise it steps forward one and re-executes the command there |
| CommandHistory.Clear | src/pattern/behavioral/index.ts:184-187 | `clear()` gives the empty history at position −1 |
| CommandHistory.CanPredicts | src/pattern/behavioral/index.ts:176-182 | `canUndo` and `canRedo` hold exactly when `undo` and `redo` would succeed |
| CommandHistory.UndoRedo | src/pattern/behavioral/index.ts:160-174 | undo followed by redo returns to the same history, undoing and re-running one command |
| CommandHistory.RedoUndo | src/pattern/behavioral/index.ts:160-174 | redo followed by undo returns to the same history |
| CommandHistory.UndoRedoMany | src/pattern/behavioral/index.ts:160-174 | `k` undos followed by `k` redos return to the same history |
| Strings.EscapeHtml | src/utils/string.ts:161-170 | the output contains no raw `<`, `>`, `"` or `'` |
| Strings.UnescapeHtml | src/utils/string.ts:175-184 | unescaping never lengthens the text, and text without `&` comes back unchanged |
| Strings.UnescapeEscape | src/utils/string.ts:161-184 | `unescapeHtml(escapeHtml(s)) = s` for every string |
| Strings.EscapeRegExp | src/utils/string.ts:189-191 | the escaped text reads back, under the strict literal reading, as exactly the input, so every special character carries a backslash; it is at most twice as long, and the first character is kept or escaped |
| Strings.ReadEscaped | src/utils/string.ts:189-191 | a pattern reads strictly as the text `s` if and only if it is `escapeRegExp(s)`: no special character is left bare, and nothing else is escaped |
| Strings.TruncateAsWritten | src/utils/string.ts:132-135 | on UTF-16 code units: text that fits is returned unchanged; otherwise the result ends with the suffix; for `length` ≥ the suffix length, it is `length` units long and starts with the text |
| Strings.TruncateGrows | src/utils/string.ts:132-135 | as written, a limit shorter than the suffix can make the result longer than the input |
| Strings.Truncate | src/utils/string.ts:132-135 | on UTF-16 code units: text that fits is returned unchanged; otherwise the result is a prefix of the text followed by the suffix, no longer than the larger of the limit and the suffix; it agrees with the source whenever the limit is at least the suffix length |
| Strings.TruncateCountsCodeUnits | src/utils/string.ts:132-135 | the limit counts code units, so two characters above U+FFFF (four units) do not fit in 3 and only the suffix remains |
| Strings.Reverse | src/utils/string.ts:232-234 | the result has the same length, and position i holds the character at position length−1−i |
| Strings.ReverseTwice | src/utils/string.ts:232-234 | reversing twice is the identity |
| Strings.IndexOf | src/utils/string.ts:243 | `indexOf(sub, from)` is the first occurrence at or after `from`, or −1 when there is none |
| Strings.CountOccurrences | src/utils/string.ts:239-248 | the result is 0 for an empty substring; otherwise it is the number of non-overlapping matches found scanning left to right |
| Strings.CountZero | src/utils/string.ts:239-248 | the count is 0 exactly when the substring does not occur |
| Strings.CountFits | src/utils/string.ts:239-248 | the counted matches fit side by side into the text |
| Strings.Mask | src/utils/string.ts:333-343 | on UTF-16 code units: the text is unchanged when `start` is at or past the length or the end; with a one-unit mask and start ≥ 0, the length is kept, and exactly the positions from start up to end are masked |
| Strings.MaskSplitsSurrogatePair | src/utils/string.ts:333-343 | positions are code units, so masking from 1 after a character above U+FFFF leaves half of its surrogate pair in front of the mask |
| Config.NewHasNoKeys | src/core/config.ts:17-93 | a new manager has no keys, so a lookup gives the fallback and `all()` is empty |
| Config.Set | src/core/config.ts:17-20 | after `set`, `get` returns the value for that key; every other key's lookup is unchanged, and the defaults too |
| Config.Get | src/core/config.ts:25-33 | a lookup prefers the set value, then the default, then the supplied fallback |
| Config.Delete | src/core/config.ts:45-47 | delete reports whether there was a set value and removes only that, so a default shows through again; other keys are unchanged |
| Config.Merge | src/core/config.ts:52-57 | every given key becomes a set value; other keys are unchanged |
| Config.Defaults | src/core/config.ts:62-67 | every given key becomes a default; a set value still wins; a key not given keeps its lookup |
| Config.All | src/core/config.ts:72-77 | `all()` has exactly the set and the defaulted keys |
| Config.GetAgreesWithAll | src/core/config.ts:72-77 | a lookup agrees with `all()`: a present key gives its merged value (set value over default), an absent one the fallback; `has` is membership in `all()` |
| Config.Clear | src/core/config.ts:82-85 | `clear()` forgets the set values and keeps the defaults |
| Config.Reset | src/core/config.ts:90-93 | after `reset()`, `all()` is exactly the defaults and every lookup answers from them |
| Events.NewHasNoListeners | src/core/event.ts:9-11 | a new emitter has no listeners, so an `emit` calls nothing |
| Events.On | src/core/event.ts:16-22 | `on` is `Set.add` on the event's regular listeners: a new callback goes after the others, which keep their order, a known one changes nothing; the count grows by one unless it was already registered; other events and the one-shot sets are unchanged |
| Events.Once | src/core/event.ts:27-33 | `once` is `Set.add` on the event's one-shot listeners, with the same order, and changes nothing else |
| Events.Off | src/core/event.ts:38-47 | with a callback, `Set.delete` on both sets of the event: the callback goes and the other regular and one-shot listeners keep their order; without one, removes all listeners of the event; other events are unchanged |
| Events.OnThenEmitAndOff | src/core/event.ts:16-68 | a callback registered with `on` is called after the event's earlier regular listeners and before its one-shot ones, and `off` with it restores both sets |
| Events.Emit | src/core/event.ts:52-68 | calls the regular listeners, then the one-shot ones, in registration order; removes every one-shot listener of the event and keeps the regular ones, so `listenerCount` becomes the regular count |
| Events.OnceFiresOnce | src/core/event.ts:27-68 | a one-shot listener is called by the next emit of its event and not by the one after |
| Events.RemoveAllListenersAsWritten | src/core/event.ts:99-108 | with a non-empty event name, removes that event's listeners; with no argument or the empty name, removes every listener |
| Events.RemoveEmptyNameClearsAll | src/core/event.ts:99-108 | removing the listeners of the event named `""` also removes those of every other event |
| Events.RemoveAllListeners | src/core/event.ts:99-108 | with no argument, no listener is left; with an event name, any name, exactly that event loses its listeners |
| Events.RemoveAllIsOff | src/core/event.ts:99-108 | removing all listeners of one event is `off` without a callback |
| FileName.GetExtension | src/file/index.ts:154-157 | the empty string when there is no dot; in every case the extension contains no dot and no upper-case letter |
| FileName.GetBasename | src/file/index.ts:162-165 | the whole name when there is no dot; otherwise a prefix of the name |
| FileName.BasenameDotExtension | src/file/index.ts:154-165 | a name with a dot is its base name, the last dot, and the text that lower-cases to its extension |
| FileName.SplitAtLastDot | src/file/index.ts:154-165 | joining a base name and a dot-free extension with a dot gives back the base name, and the extension lower-cased |
| FileName.NoDotNoMedia | src/file/index.ts:181-200 | a name without a dot is neither an image, a video nor an audio file |
| FileName.UpperCaseImage | src/file/index.ts:181-184 | extensions are compared lower-cased, so a name ending in `.JPG` is an image |
| FileName.OggIsVideoAndAudio | src/file/index.ts:189-200 | `.ogg` is both a video and an audio extension |
| FileName.ImagesAreNotMedia | src/file/index.ts:181-200 | no name is both an image and a video or audio file |

## Left out

- Promises, `await`, timers and microtask scheduling are not modelled. A suspended caller is an id in a queue, a resolution is a transition, and a task or handler finishing is an explicit event. The throttle queue's `interval` sleep has no duration here.
- Foreign callbacks are recorded in call logs; their effects are not modelled. This covers `create`, `reset`, the state hooks, transition listeners, commands, event listeners, the `visit` callback and scheduled tasks. Re-entrant calls, such as a listener that subscribes or emits during `emit`, are not modelled.
- A callback that throws is not modelled, except the throttle queue's failing handler: every modelled call returns. In the source a throw ends the method at once, keeping whatever it changed before the call. These partial updates therefore have no counterpart in the model:
  - `execute` has already cut the redo tail when `command.execute()` throws, and the command is not recorded (src/pattern/behavioral/index.ts:153-157).
  - `redo` has already moved `position` forward when `execute()` throws (src/pattern/behavioral/index.ts:171-172).
  - `undo` leaves `position` where it was when `undo()` throws (src/pattern/behavioral/index.ts:163-164).
  - `release` has already removed the object from the in-use set when `reset` throws, so the pool loses it (src/pattern/concurrency/index.ts:49-50). A throwing `create` in `acquire` changes nothing.
  - `transition` has already set `current` when `enter` throws, so no listener hears of the change (src/pattern/behavioral/index.ts:87-93). A throwing `exit` leaves the state unchanged.
  - A throwing transition or event listener skips the listeners after it, and during `emit` the one-shot set is then not dropped.
- ObjectPool.New: the constructor takes the pre-created objects as a parameter. It ignores `max` exactly as the source does, so the free list can start above `max`.
- Scheduler.NewIsIdle: a negative or fractional `maxConcurrency` is accepted as in the source; the invariant is proved only for a non-negative bound.
- ReadWriteLock: writer preference is not absolute. `ReaderOvertakesResolvedWriter` shows how a resolved writer is overtaken, and starvation freedom is not claimed.
- LruCache: `undefined` as a key or value is not modelled. The source's `firstKey !== undefined` test then matters only in an empty cache, where `Victim` already returns none.
- JavaScript numbers are unbounded integers here. Floating point, `NaN` and `Infinity` as inputs are not modelled. Neither are the precision limits of `factorial`, `fibonacci` and `lcm` (`Math.abs(a * b)` overflowing 2^53), or `%` on non-integers. `NaN` results are `None`.
- IntMath.IsPrime: `i <= Math.sqrt(n)` is modelled as `i * i <= n`, which assumes `Math.sqrt` is exact on the perfect squares involved.
- A Dafny `string` holds Unicode scalar values, one `char` per code point. `truncate`, `mask` and `countOccurrences` use `length`, `slice` and `indexOf`, which count UTF-16 code units, so they work on `Strings.JsString`, a sequence of code units, and `Strings.Utf16` encodes text into it. `reverse` splits by code points (`[...str]`), as the model does. The HTML and regular-expression escapes replace characters below U+0080, and on well-formed text they give the same result per code point as per code unit. Strings holding a lone surrogate are not modelled for these.
- FileName: the file-name helpers work on code points. `lastIndexOf('.')` and `slice` cut at the dot, so the pieces are the same as on code units. `toLowerCase` is modelled on ASCII letters only (`FileName.Lower`).
- Strings.Mask: a negative `start` (counted from the end by `slice`) is modelled but not characterised; a mask string longer than one character is modelled, and only its length is not characterised.
- ArrayUtils.Move: requires a non-empty array and `from` below its length. For `from` at or past the length, or on an empty array, `splice(from, 1)` removes nothing and the source inserts `undefined`, which a typed sequence cannot hold. A `from` below minus the length is clamped to 0 and is modelled.
- Ordering.Swap: `swap` requires both indices in range. Out-of-range indices create holes in a JavaScript array, which are not modelled.
- ArrayUtils.Range: the default arguments are given explicitly, and a fractional step is not modelled.
- MergeSort.Sort: for arrays of length ≤ 1 the source returns the input array itself, not a copy. With immutable values this aliasing is invisible.
- GraphSearch.Dfs: the depth-first order is stated step by step by `Traverse` (a node, then the walks of its neighbours in list order), not as a closed-form property of the whole sequence. The recursion of `traverse` on deep graphs (stack overflow) is not modelled.
- GraphSearch.Bfs: the breadth-first order (nodes in non-decreasing distance from `start`) is not stated; the contract gives the visited set exactly and no repeats.
- Config: `all()` builds a plain object, so special keys such as `__proto__` and the ordering of object keys are not modelled; the model returns a map.
- Config.Has and Events.ListenerCount / Events.HasListeners are plain definitions without a contract of their own; their meaning is stated by `Config.GetAgreesWithAll` and by the contracts of `Events.On`, `Events.Emit` and `Events.Off`.
- Events: `eventNames()` and `wait()` (a timer-based promise) are not modelled.
- Stack and Queue `clear()` is not given a member: it is the empty value. Their `size`, `isEmpty` and `peek` are the one-line members `Containers.Stack.Size`, `IsEmpty` and `Peek` (and the same on `Queue`); `Containers.StackLifo`, `Containers.QueueFifo` and `Containers.DrainInOrder` state what they return.
- Read-only queries without a contract of their own: `FileName.IsImage`, `IsVideo` and `IsAudio`; `Trie.Search` and `Trie.StartsWith`; `CommandHistory.CanUndo` and `CanRedo`; `StateMachine.Can` and `Is`; `BinaryHeap.Heap.Peek`, `Size` and `IsEmpty`; `Containers.LinkedList.PeekFront`, `PeekBack` and `ToArray`; `LruCache.Cache.Has` and `Size`; `ObjectPool.Pool.Available`, `Active` and `Size`; `Semaphore.Semaphore.AvailablePermits`; `Scheduler.Scheduler.Pending` and `ActiveCount`. Each is a one-line read of a field, a length or a lookup. Their meaning is stated by the contracts that use them, for example `FileName.ImagesAreNotMedia`, `Trie.SearchAfterInsert`, `CommandHistory.CanPredicts`, `StateMachine.Transition`, `BinaryHeap.PopReturnsMinimum`, `Containers.SizeTracksNodes`, `LruCache.SetRespectsCapacity`, `ObjectPool.SizeCountsTracked`, `Semaphore.UseAcquireConserves` and `Scheduler.RunLoop`.

## Findings

| source | as written | input that shows it | evidently intended | confidence | as-written member | corrected member |
|---|---|---|---|---|---|---|
| src/utils/string.ts:132-135 | `str.slice(0, length - suffix.length) + suffix`: when `length` is shorter than the suffix, the slice end is negative and counts from the end of the text | `truncate("abcdef", 2)` gives `"abcde..."`, longer than the input | a result made of at most `length - suffix.length` leading characters (none when that is negative) plus the suffix | not executed | Strings.TruncateAsWritten, Strings.TruncateGrows | Strings.Truncate |
| src/core/event.ts:99-108 | `if (event)` tests the event name for truthiness, so the empty name takes the branch meant for "no argument" | `removeAllListeners("")` with listeners on `"save"` removes them too | a name that is given, whatever it is, removes only that event's listeners | not executed | Events.RemoveAllListenersAsWritten, Events.RemoveEmptyNameClearsAll | Events.RemoveAllListeners |
