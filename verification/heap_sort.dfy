/** `heapSort`: build a max-heap under `compare > 0`, then repeatedly swap the root
    behind the shrinking heap. */
module HeapSort {
  import opened Ordering
  import opened HeapOrder

  /** Heap order holds for every parent from index `n / 2` on, trivially: such parents
      have no children inside `a[..n]`. */
  lemma LeavesAreHeaps<T>(beats: (T, T) -> bool, a: seq<T>, n: nat)
    requires n <= |a|
    ensures HeapFrom(beats, a, n / 2, n)
  {
    forall k | 0 < k < n && n / 2 <= Parent(k)
      ensures false
    {
    }
  }

  /** The build phase: `heapify(length, i)` for `i` from `floor(length / 2) - 1` down to 0.
      It only rearranges, whatever `cmp` is; under a comparator it builds a max-heap. */
  method Build<T(!new)>(arr: seq<T>, cmp: (T, T) -> int) returns (r: seq<T>)
    ensures multiset(r) == multiset(arr) && |r| == |arr|
    ensures Comparator(cmp) ==> IsHeap(GreaterThan(cmp), r, |r|)
  {
    if Comparator(cmp) {
      ComparatorOrders(cmp);
    }
    var beats := GreaterThan(cmp);
    var n := |arr|;
    r := arr;
    var i := n / 2;
    LeavesAreHeaps(beats, r, n);
    while i > 0
      invariant 0 <= i <= n / 2 && |r| == n
      invariant multiset(r) == multiset(arr)
      invariant Comparator(cmp) ==> HeapFrom(beats, r, i, n)
    {
      i := i - 1;
      if Comparator(cmp) {
        assert BrokenBelow(beats, r, i, i, n);
        SiftDownRestores(beats, r, i, i, n);
      }
      r := SiftDown(beats, r, i, n);
    }
  }

  /** After the root swap, heap order holds everywhere below the root. */
  lemma SwapRootBreaksOnlyRoot<T>(beats: (T, T) -> bool, a: seq<T>, m: nat)
    requires 0 < m < |a| && IsHeap(beats, a, m + 1)
    ensures BrokenBelow(beats, Swap(a, 0, m), 0, 0, m)
  {
  }

  /** The extraction phase keeps: a heap in `r[..end]`, a sorted tail `r[end..]`, and
      every heap element sorting no later than every tail element. */
  ghost predicate Phase<T>(cmp: (T, T) -> int, r: seq<T>, end: nat)
    requires end <= |r|
  {
    && IsHeap(GreaterThan(cmp), r, end)
    && Sorted(cmp, r[end..])
    && (forall b :: end <= b < |r| ==> AllAtMost(cmp, r[..end], r[b]))
  }

  /** One extraction step: swap the root behind the heap and sift the new root down.
      It only rearranges; under a comparator it keeps the phase invariant. */
  method Extract<T(!new)>(r: seq<T>, cmp: (T, T) -> int, end: nat) returns (r': seq<T>)
    requires 1 < end <= |r|
    ensures |r'| == |r| && multiset(r') == multiset(r)
    ensures Comparator(cmp) && Phase(cmp, r, end) ==> Phase(cmp, r', end - 1)
  {
    r' := SiftDown(GreaterThan(cmp), Swap(r, 0, end - 1), 0, end - 1);
    if Comparator(cmp) && Phase(cmp, r, end) {
      ExtractKeepsPhase(r, cmp, end);
    }
  }

  /** The extraction step keeps the phase invariant under a comparator. */
  lemma ExtractKeepsPhase<T(!new)>(r: seq<T>, cmp: (T, T) -> int, end: nat)
    requires Comparator(cmp) && 1 < end <= |r| && Phase(cmp, r, end)
    ensures Phase(cmp, SiftDown(GreaterThan(cmp), Swap(r, 0, end - 1), 0, end - 1), end - 1)
  {
    ComparatorOrders(cmp);
    var beats := GreaterThan(cmp);
    var m := end - 1;
    // The root is a largest element of the heap.
    forall k | 0 <= k < end
      ensures cmp(r[k], r[0]) <= 0
    {
      RootUnbeaten(beats, r, end, k);
    }
    var s := Swap(r, 0, m);
    SwapRootBreaksOnlyRoot(beats, r, m);
    SiftDownRestores(beats, s, 0, 0, m);
    var r' := SiftDown(beats, s, 0, m);
    // The heap part is a rearrangement of the old heap without its root.
    FramedPerm(s, r', 0, m);
    assert AllAtMost(cmp, s[..m], r[0]) by {
      forall k | 0 <= k < m ensures cmp(s[..m][k], r[0]) <= 0 {
        if k == 0 { assert s[0] == r[m]; } else { assert s[k] == r[k]; }
      }
    }
    PermKeepsBounds(cmp, s[..m], r'[..m], r[0]);
    forall b | m <= b < |r|
      ensures AllAtMost(cmp, r'[..m], r'[b])
    {
      if b > m {
        assert AllAtMost(cmp, r[..end], r[b]);
        assert AllAtMost(cmp, s[..m], r[b]) by {
          forall k | 0 <= k < m ensures cmp(s[..m][k], r[b]) <= 0 {
            if k == 0 { assert s[0] == r[..end][m]; } else { assert s[k] == r[..end][k]; }
          }
        }
        PermKeepsBounds(cmp, s[..m], r'[..m], r[b]);
      }
    }
    forall x, y | 0 <= x < y < |r| - m
      ensures cmp(r'[m..][x], r'[m..][y]) <= 0
    {
      if x == 0 {
        assert r'[m] == r[0] && r'[m + y] == r[m + y];
        assert cmp(r[..end][0], r[m + y]) <= 0;
      } else {
        assert r'[m..][x] == r[end..][x - 1] && r'[m..][y] == r[end..][y - 1];
      }
    }
  }

  /** `heapSort(arr, compare)`: a rearrangement of `arr` for any `compare`, sorted
      when `compare` is a comparator. */
  method Sort<T(!new)>(arr: seq<T>, cmp: (T, T) -> int) returns (r: seq<T>)
    ensures multiset(r) == multiset(arr)
    ensures Comparator(cmp) ==> Sorted(cmp, r)
  {
    r := Build(arr, cmp);
    var end := |r|;
    assert r[end..] == [];
    while end > 1
      invariant 0 <= end <= |r| == |arr|
      invariant multiset(r) == multiset(arr)
      invariant Comparator(cmp) ==> Phase(cmp, r, end)
    {
      r := Extract(r, cmp, end);
      end := end - 1;
    }
    if Comparator(cmp) {
      PhaseDone(cmp, r, end);
    }
  }

  /** With at most one element left in the heap, the whole sequence is sorted. */
  lemma PhaseDone<T>(cmp: (T, T) -> int, r: seq<T>, end: nat)
    requires end <= 1 && end <= |r| && Phase(cmp, r, end)
    ensures Sorted(cmp, r)
  {
    forall x, y | 0 <= x < y < |r|
      ensures cmp(r[x], r[y]) <= 0
    {
      if x < end {
        assert AllAtMost(cmp, r[..end], r[y]);
        assert r[..end][x] == r[x];
      } else {
        assert r[end..][x - end] == r[x] && r[end..][y - end] == r[y];
      }
    }
  }
}
