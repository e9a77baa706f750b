/** `quickSort`: Hoare partitioning around the value at the middle index, then
    recursion on both sides, all on a copy of the input. */
module QuickSort {
  import opened Ordering

  /** `while (compareFn(result[i], pivot) < 0) i++`, which an element no smaller
      than the pivot at `stop` keeps inside the range. */
  method ScanUp<T>(r: seq<T>, cmp: (T, T) -> int, pivot: T, left: int, i: int, ghost stop: int)
    returns (i': int)
    requires 0 <= left <= i <= stop < |r| && cmp(r[stop], pivot) >= 0
    requires forall k :: left <= k < i ==> cmp(r[k], pivot) <= 0
    ensures i <= i' <= stop && cmp(r[i'], pivot) >= 0
    ensures forall k :: left <= k < i' ==> cmp(r[k], pivot) <= 0
  {
    i' := i;
    while cmp(r[i'], pivot) < 0
      invariant i <= i' <= stop
      invariant forall k :: left <= k < i' ==> cmp(r[k], pivot) <= 0
      decreases stop - i'
    {
      i' := i' + 1;
    }
  }

  /** `while (compareFn(result[j], pivot) > 0) j--`, which an element no larger
      than the pivot at `floor` keeps inside the range. */
  method ScanDown<T>(r: seq<T>, cmp: (T, T) -> int, pivot: T, right: int, j: int, ghost floor: int)
    returns (j': int)
    requires 0 <= floor <= j <= right < |r| && cmp(r[floor], pivot) <= 0
    requires forall k :: j < k <= right ==> cmp(r[k], pivot) >= 0
    ensures floor <= j' <= j && cmp(r[j'], pivot) <= 0
    ensures forall k :: j' < k <= right ==> cmp(r[k], pivot) >= 0
  {
    j' := j;
    while cmp(r[j'], pivot) > 0
      invariant floor <= j' <= j
      invariant forall k :: j' < k <= right ==> cmp(r[k], pivot) >= 0
      decreases j' - floor
    {
      j' := j' - 1;
    }
  }

  /** One partitioning pass over `a[left..right]`. When it ends, everything left of
      `i` sorts no later than the pivot, everything right of `j` no earlier, and both
      sides are strictly shorter than the range. */
  method Partition<T(!new)>(a: seq<T>, cmp: (T, T) -> int, left: int, right: int)
    returns (r: seq<T>, i: int, j: int, pivot: T)
    requires Comparator(cmp) && 0 <= left < right < |a|
    ensures |r| == |a| && multiset(r) == multiset(a)
    ensures forall k :: 0 <= k < |a| && (k < left || k > right) ==> r[k] == a[k]
    ensures left < i <= right + 1 && left - 1 <= j < right && j < i
    ensures forall k :: left <= k < i ==> cmp(r[k], pivot) <= 0
    ensures forall k :: j < k <= right ==> cmp(r[k], pivot) >= 0
  {
    var mid := (left + right) / 2;
    pivot := a[mid];
    Reflexive(cmp, pivot);
    r, i, j := a, left, right;
    while i <= j
      invariant |r| == |a| && multiset(r) == multiset(a)
      invariant forall k :: 0 <= k < |a| && (k < left || k > right) ==> r[k] == a[k]
      invariant (i == left && j == right && r[mid] == pivot) || (left < i && j < right)
      invariant left <= i <= right + 1 && left - 1 <= j <= right && i - 2 <= j
      invariant forall k :: left <= k < i ==> cmp(r[k], pivot) <= 0
      invariant forall k :: j < k <= right ==> cmp(r[k], pivot) >= 0
      decreases j - i + 2
    {
      ghost var first := i == left && j == right && r[mid] == pivot;
      i := ScanUp(r, cmp, pivot, left, i, if first then mid else j + 1);
      j := ScanDown(r, cmp, pivot, right, j, if first then mid else i - 1);
      if i <= j {
        r := Swap(r, i, j);
        i := i + 1;
        j := j - 1;
      }
    }
  }

  /** Sorting `[lo, hi]` of a range whose elements sort no later than `pivot` keeps
      them there. */
  lemma StaysAtMost<T>(cmp: (T, T) -> int, p: seq<T>, q: seq<T>, lo: int, hi: int, pivot: T)
    requires |q| == |p| && multiset(q) == multiset(p) && 0 <= lo <= hi < |p|
    requires forall k :: 0 <= k < |p| && (k < lo || k > hi) ==> q[k] == p[k]
    requires forall k :: lo <= k <= hi ==> cmp(p[k], pivot) <= 0
    ensures forall k :: lo <= k <= hi ==> cmp(q[k], pivot) <= 0
  {
    FramedPerm(p, q, lo, hi + 1);
    assert AllAtMost(cmp, p[lo..hi + 1], pivot);
    PermKeepsBounds(cmp, p[lo..hi + 1], q[lo..hi + 1], pivot);
    forall k | lo <= k <= hi
      ensures cmp(q[k], pivot) <= 0
    {
      assert q[k] == q[lo..hi + 1][k - lo];
    }
  }

  /** The mirror image of `StaysAtMost`. */
  lemma StaysAtLeast<T>(cmp: (T, T) -> int, p: seq<T>, q: seq<T>, lo: int, hi: int, pivot: T)
    requires |q| == |p| && multiset(q) == multiset(p) && 0 <= lo <= hi < |p|
    requires forall k :: 0 <= k < |p| && (k < lo || k > hi) ==> q[k] == p[k]
    requires forall k :: lo <= k <= hi ==> cmp(p[k], pivot) >= 0
    ensures forall k :: lo <= k <= hi ==> cmp(q[k], pivot) >= 0
  {
    FramedPerm(p, q, lo, hi + 1);
    assert AllAtLeast(cmp, p[lo..hi + 1], pivot);
    PermKeepsBounds(cmp, p[lo..hi + 1], q[lo..hi + 1], pivot);
    forall k | lo <= k <= hi
      ensures cmp(q[k], pivot) >= 0
    {
      assert q[k] == q[lo..hi + 1][k - lo];
    }
  }

  /** Two sorted sides around a pivot, with only pivot-equal elements between them,
      make a sorted range. */
  lemma Joined<T(!new)>(cmp: (T, T) -> int, r: seq<T>, left: int, right: int, i: int, j: int, pivot: T)
    requires Comparator(cmp) && 0 <= left <= i && j <= right < |r| && j < i
    requires forall k :: left <= k < i && k <= right ==> cmp(r[k], pivot) <= 0
    requires forall k :: j < k <= right && left <= k ==> cmp(r[k], pivot) >= 0
    requires forall x, y :: left <= x < y <= j ==> cmp(r[x], r[y]) <= 0
    requires forall x, y :: i <= x < y <= right ==> cmp(r[x], r[y]) <= 0
    ensures forall x, y :: left <= x < y <= right ==> cmp(r[x], r[y]) <= 0
  {
    forall x, y | left <= x < y <= right
      ensures cmp(r[x], r[y]) <= 0
    {
      if !(y <= j) && !(x >= i) {
        ThroughPivot(cmp, r[x], pivot, r[y]);
      }
    }
  }

  /** `sort(left, right)`: sorts `a[left..right]` in place and moves nothing else. */
  method SortRange<T(!new)>(a: seq<T>, cmp: (T, T) -> int, left: int, right: int)
    returns (r: seq<T>)
    requires Comparator(cmp) && 0 <= left <= |a| && -1 <= right < |a|
    ensures |r| == |a| && multiset(r) == multiset(a)
    ensures forall k :: 0 <= k < |a| && (k < left || k > right) ==> r[k] == a[k]
    ensures forall x, y :: left <= x < y <= right ==> cmp(r[x], r[y]) <= 0
    decreases right - left
  {
    if left >= right {
      return a;
    }
    var p, i, j, pivot := Partition(a, cmp, left, right);
    var r1 := SortRange(p, cmp, left, j);
    if left <= j {
      StaysAtMost(cmp, p, r1, left, j, pivot);
    }
    r := SortRange(r1, cmp, i, right);
    if i <= right {
      StaysAtLeast(cmp, r1, r, i, right, pivot);
    }
    Joined(cmp, r, left, right, i, j, pivot);
  }

  /** `quickSort(arr, compare)`: a sorted rearrangement of `arr`. */
  method Sort<T(!new)>(arr: seq<T>, cmp: (T, T) -> int) returns (r: seq<T>)
    requires Comparator(cmp)
    ensures multiset(r) == multiset(arr)
    ensures Sorted(cmp, r)
  {
    r := SortRange(arr, cmp, 0, |arr| - 1);
  }
}
