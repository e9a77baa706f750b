/** Array-embedded binary heaps, shared by `Heap` (a min-heap under `compare < 0`) and by
    `heapSort` (a max-heap under `compare > 0`). `beats(x, y)` says that `x` must sit
    above `y`; node `k > 0` has parent `(k - 1) / 2` and children `2k + 1`, `2k + 2`. */
module HeapOrder {
  import opened Ordering

  function Parent(k: nat): nat
    requires k > 0
  {
    (k - 1) / 2
  }

  /** What sift-up and sift-down need of `beats`: it is asymmetric and "does not beat"
      is transitive (so `beats` is a strict weak order). */
  ghost predicate StrictWeak<T(!new)>(beats: (T, T) -> bool) {
    && (forall x, y :: beats(x, y) ==> !beats(y, x))
    && (forall x, y, z :: !beats(x, y) && !beats(y, z) ==> !beats(x, z))
  }

  /** Every edge of `a[..n]` whose parent is at index `lo` or beyond is in heap order. */
  ghost predicate HeapFrom<T>(beats: (T, T) -> bool, a: seq<T>, lo: nat, n: nat)
    requires n <= |a|
  {
    forall k :: 0 < k < n && lo <= Parent(k) ==> !beats(a[k], a[Parent(k)])
  }

  /** `a[..n]` is a heap. */
  ghost predicate IsHeap<T>(beats: (T, T) -> bool, a: seq<T>, n: nat)
    requires n <= |a|
  {
    HeapFrom(beats, a, 0, n)
  }

  /** The state sift-down works in: heap order holds from `lo` on except below node `i`,
      and `i`'s children already fit under `i`'s parent. */
  ghost predicate BrokenBelow<T>(beats: (T, T) -> bool, a: seq<T>, lo: nat, i: nat, n: nat)
    requires n <= |a|
  {
    && (forall k :: 0 < k < n && lo <= Parent(k) && Parent(k) != i ==> !beats(a[k], a[Parent(k)]))
    && (i > 0 && lo <= Parent(i) ==>
          forall c :: i < c < n && Parent(c) == i ==> !beats(a[c], a[Parent(i)]))
  }

  /** The state sift-up works in: heap order holds except on the edge above node `i`,
      and `i`'s children already fit under `i`'s parent. */
  ghost predicate BrokenAbove<T>(beats: (T, T) -> bool, a: seq<T>, i: nat, n: nat)
    requires n <= |a|
  {
    && (forall k :: 0 < k < n && k != i ==> !beats(a[k], a[Parent(k)]))
    && (i > 0 ==> forall c :: i < c < n && Parent(c) == i ==> !beats(a[c], a[Parent(i)]))
  }

  /** One sift-down step's choice: the node among `i` and its children inside `a[..n]`
      that beats the others, preferring `i` and then the left child on ties. */
  function Best<T>(beats: (T, T) -> bool, a: seq<T>, i: nat, n: nat): (b: nat)
    requires i < n <= |a|
    ensures b == i || (i < b < n && Parent(b) == i)
  {
    var l := 2 * i + 1;
    var r := 2 * i + 2;
    var b := if l < n && beats(a[l], a[i]) then l else i;
    if r < n && beats(a[r], a[b]) then r else b
  }

  /** `bubbleDown(i)` / `heapify(n, i)`: swap node `i` with its best child until it beats
      both children. Only `a[i..n]` moves. */
  function SiftDown<T>(beats: (T, T) -> bool, a: seq<T>, i: nat, n: nat): (r: seq<T>)
    requires i < n <= |a|
    ensures |r| == |a| && multiset(r) == multiset(a)
    ensures forall k :: 0 <= k < |a| && (k < i || k >= n) ==> r[k] == a[k]
    decreases n - i
  {
    var b := Best(beats, a, i, n);
    if b == i then a else SiftDown(beats, Swap(a, i, b), b, n)
  }

  /** `bubbleUp(i)`: swap node `i` with its parent while it beats it. */
  function SiftUp<T>(beats: (T, T) -> bool, a: seq<T>, i: nat): (r: seq<T>)
    requires i < |a|
    ensures |r| == |a| && multiset(r) == multiset(a)
    ensures forall k :: i < k < |a| ==> r[k] == a[k]
    decreases i
  {
    if i == 0 || !beats(a[i], a[Parent(i)]) then a
    else SiftUp(beats, Swap(a, i, Parent(i)), Parent(i))
  }

  lemma Irreflexive<T(!new)>(beats: (T, T) -> bool, x: T)
    requires StrictWeak(beats)
    ensures !beats(x, x)
  {
  }

  lemma Transitive<T(!new)>(beats: (T, T) -> bool, x: T, y: T, z: T)
    requires StrictWeak(beats)
    requires beats(x, y) && beats(y, z)
    ensures beats(x, z)
  {
    assert !beats(z, y);
  }

  /** The chosen node is beaten by neither of the other two. */
  lemma BestIsBest<T(!new)>(beats: (T, T) -> bool, a: seq<T>, i: nat, n: nat)
    requires StrictWeak(beats) && i < n <= |a|
    ensures var b := Best(beats, a, i, n);
      forall c :: i < c < n && Parent(c) == i ==> !beats(a[c], a[b])
    ensures !beats(a[i], a[Best(beats, a, i, n)])
  {
    var l := 2 * i + 1;
    var r := 2 * i + 2;
    var b1 := if l < n && beats(a[l], a[i]) then l else i;
    var b := Best(beats, a, i, n);
    Irreflexive(beats, a[b]);
    if b == r && b1 == l {
      Transitive(beats, a[r], a[l], a[i]);
    }
    forall c | i < c < n && Parent(c) == i
      ensures !beats(a[c], a[b])
    {
      assert c == l || c == r;
    }
  }

  /** One sift-down swap moves the broken spot from `i` down to the chosen child. */
  lemma SiftDownStep<T(!new)>(beats: (T, T) -> bool, a: seq<T>, lo: nat, i: nat, n: nat)
    requires StrictWeak(beats) && lo <= i < n <= |a|
    requires BrokenBelow(beats, a, lo, i, n)
    requires Best(beats, a, i, n) != i
    ensures BrokenBelow(beats, Swap(a, i, Best(beats, a, i, n)), lo, Best(beats, a, i, n), n)
  {
    var b := Best(beats, a, i, n);
    var s := Swap(a, i, b);
    BestIsBest(beats, a, i, n);
    forall k | 0 < k < n && lo <= Parent(k) && Parent(k) != b
      ensures !beats(s[k], s[Parent(k)])
    {
      if Parent(k) == i {
      } else if k == i {
      } else {
        assert k != b;
      }
    }
  }

  lemma {:induction false} SiftDownRestores<T(!new)>(beats: (T, T) -> bool, a: seq<T>, lo: nat, i: nat, n: nat)
    requires StrictWeak(beats) && lo <= i < n <= |a|
    requires BrokenBelow(beats, a, lo, i, n)
    ensures HeapFrom(beats, SiftDown(beats, a, i, n), lo, n)
    decreases n - i
  {
    var b := Best(beats, a, i, n);
    if b == i {
      BestIsBest(beats, a, i, n);
    } else {
      SiftDownStep(beats, a, lo, i, n);
      SiftDownRestores(beats, Swap(a, i, b), lo, b, n);
    }
  }

  /** One sift-up swap moves the broken edge from above `i` to above its parent. */
  lemma SiftUpStep<T(!new)>(beats: (T, T) -> bool, a: seq<T>, i: nat, n: nat)
    requires StrictWeak(beats) && 0 < i < n <= |a|
    requires BrokenAbove(beats, a, i, n)
    requires beats(a[i], a[Parent(i)])
    ensures BrokenAbove(beats, Swap(a, i, Parent(i)), Parent(i), n)
  {
    var p := Parent(i);
    var s := Swap(a, i, p);
    forall k | 0 < k < n && k != p
      ensures !beats(s[k], s[Parent(k)])
    {
      if k == i {
      } else if Parent(k) == i {
      } else if Parent(k) == p {
        assert !beats(a[k], a[p]) && beats(a[i], a[p]);
      }
    }
    if p > 0 {
      forall c | p < c < n && Parent(c) == p
        ensures !beats(s[c], s[Parent(p)])
      {
        if c != i {
          assert !beats(a[c], a[p]) && !beats(a[p], a[Parent(p)]);
        }
      }
    }
  }

  lemma {:induction false} SiftUpRestores<T(!new)>(beats: (T, T) -> bool, a: seq<T>, i: nat)
    requires StrictWeak(beats) && i < |a|
    requires BrokenAbove(beats, a, i, |a|)
    ensures IsHeap(beats, SiftUp(beats, a, i), |a|)
    decreases i
  {
    if i == 0 || !beats(a[i], a[Parent(i)]) {
    } else {
      SiftUpStep(beats, a, i, |a|);
      SiftUpRestores(beats, Swap(a, i, Parent(i)), Parent(i));
    }
  }

  /** No element of a heap beats its root. */
  lemma {:induction false} RootUnbeaten<T(!new)>(beats: (T, T) -> bool, a: seq<T>, n: nat, k: nat)
    requires StrictWeak(beats) && k < n <= |a|
    requires IsHeap(beats, a, n)
    ensures !beats(a[k], a[0])
    decreases k
  {
    if k == 0 {
      Irreflexive(beats, a[0]);
    } else {
      RootUnbeaten(beats, a, n, Parent(k));
      assert !beats(a[k], a[Parent(k)]);
    }
  }

  /** The min-heap order of `Heap`: `compare(x, y) < 0` puts `x` above `y`. */
  function LessThan<T>(cmp: (T, T) -> int): (T, T) -> bool {
    (x, y) => cmp(x, y) < 0
  }

  /** The max-heap order of `heapSort`: `compareFn(x, y) > 0` puts `x` above `y`. */
  function GreaterThan<T>(cmp: (T, T) -> int): (T, T) -> bool {
    (x, y) => cmp(x, y) > 0
  }

  /** Both orders a comparator induces are strict weak orders. */
  lemma ComparatorOrders<T(!new)>(cmp: (T, T) -> int)
    requires Comparator(cmp)
    ensures StrictWeak(LessThan(cmp))
    ensures StrictWeak(GreaterThan(cmp))
  {
  }
}
