/** `binarySearch`, `lowerBound`, `upperBound` and `linearSearch`. Each binary loop
    is written as the recursion over its `[left, right]` window that it unrolls to. */
module Search {
  import opened Ordering

  /** The loop of `binarySearch` on the closed window `[left, right]`. */
  function BinarySearchIn<T(!new)>(arr: seq<T>, target: T, cmp: (T, T) -> int, left: int, right: int): (r: int)
    requires 0 <= left && right < |arr| && left <= right + 1
    ensures r == -1 || (left <= r <= right && cmp(arr[r], target) == 0)
    ensures r == -1 && Comparator(cmp) && Sorted(cmp, arr) ==>
              forall k :: left <= k <= right ==> cmp(arr[k], target) != 0
    decreases right - left
  {
    if left > right then -1
    else
      var mid := (left + right) / 2;
      var c := cmp(arr[mid], target);
      if c == 0 then mid
      else if c < 0 then
        var r := BinarySearchIn(arr, target, cmp, mid + 1, right);
        assert r == -1 && Comparator(cmp) && Sorted(cmp, arr) ==>
                 forall k :: left <= k <= mid ==> cmp(arr[k], target) != 0 by {
          if Comparator(cmp) && Sorted(cmp, arr) { BeforeMid(arr, target, cmp, left, mid); }
        }
        r
      else
        var r := BinarySearchIn(arr, target, cmp, left, mid - 1);
        assert r == -1 && Comparator(cmp) && Sorted(cmp, arr) ==>
                 forall k :: mid <= k <= right ==> cmp(arr[k], target) != 0 by {
          if Comparator(cmp) && Sorted(cmp, arr) { AfterMid(arr, target, cmp, mid, right + 1); }
        }
        r
  }

  /** `binarySearch(arr, target, compare)`: an index holding an element equal to
      `target`, or -1; on a sorted array -1 means there is none. */
  function BinarySearch<T(!new)>(arr: seq<T>, target: T, cmp: (T, T) -> int): (r: int)
    ensures r == -1 || (0 <= r < |arr| && cmp(arr[r], target) == 0)
    ensures Comparator(cmp) && Sorted(cmp, arr) ==>
              (r == -1 <==> forall k :: 0 <= k < |arr| ==> cmp(arr[k], target) != 0)
  {
    BinarySearchIn(arr, target, cmp, 0, |arr| - 1)
  }

  /** The loop of `lowerBound` on the half-open window `[left, right)`. */
  function LowerBoundIn<T(!new)>(arr: seq<T>, target: T, cmp: (T, T) -> int, left: int, right: int): (r: int)
    requires 0 <= left <= right <= |arr|
    ensures left <= r <= right
    ensures Comparator(cmp) && Sorted(cmp, arr) ==>
              && (forall k :: left <= k < r ==> cmp(arr[k], target) < 0)
              && (forall k :: r <= k < right ==> cmp(arr[k], target) >= 0)
    decreases right - left
  {
    if left >= right then left
    else
      var mid := (left + right) / 2;
      if cmp(arr[mid], target) < 0 then
        var r := LowerBoundIn(arr, target, cmp, mid + 1, right);
        assert Comparator(cmp) && Sorted(cmp, arr) ==>
                 forall k :: left <= k <= mid ==> cmp(arr[k], target) < 0 by {
          if Comparator(cmp) && Sorted(cmp, arr) { BeforeMid(arr, target, cmp, left, mid); }
        }
        r
      else
        var r := LowerBoundIn(arr, target, cmp, left, mid);
        assert Comparator(cmp) && Sorted(cmp, arr) ==>
                 forall k :: mid <= k < right ==> cmp(arr[k], target) >= 0 by {
          if Comparator(cmp) && Sorted(cmp, arr) { NotBeforeMid(arr, target, cmp, mid, right); }
        }
        r
  }

  /** `lowerBound(arr, target, compare)`: on a sorted array, the first index whose
      element does not sort before `target`. */
  function LowerBound<T(!new)>(arr: seq<T>, target: T, cmp: (T, T) -> int): (r: int)
    ensures 0 <= r <= |arr|
    ensures Comparator(cmp) && Sorted(cmp, arr) ==>
              && (forall k :: 0 <= k < r ==> cmp(arr[k], target) < 0)
              && (forall k :: r <= k < |arr| ==> cmp(arr[k], target) >= 0)
  {
    LowerBoundIn(arr, target, cmp, 0, |arr|)
  }

  /** The loop of `upperBound` on the half-open window `[left, right)`. */
  function UpperBoundIn<T(!new)>(arr: seq<T>, target: T, cmp: (T, T) -> int, left: int, right: int): (r: int)
    requires 0 <= left <= right <= |arr|
    ensures left <= r <= right
    ensures Comparator(cmp) && Sorted(cmp, arr) ==>
              && (forall k :: left <= k < r ==> cmp(arr[k], target) <= 0)
              && (forall k :: r <= k < right ==> cmp(arr[k], target) > 0)
    decreases right - left
  {
    if left >= right then left
    else
      var mid := (left + right) / 2;
      if cmp(arr[mid], target) <= 0 then
        var r := UpperBoundIn(arr, target, cmp, mid + 1, right);
        assert Comparator(cmp) && Sorted(cmp, arr) ==>
                 forall k :: left <= k <= mid ==> cmp(arr[k], target) <= 0 by {
          if Comparator(cmp) && Sorted(cmp, arr) { NotAfterMid(arr, target, cmp, left, mid); }
        }
        r
      else
        var r := UpperBoundIn(arr, target, cmp, left, mid);
        assert Comparator(cmp) && Sorted(cmp, arr) ==>
                 forall k :: mid <= k < right ==> cmp(arr[k], target) > 0 by {
          if Comparator(cmp) && Sorted(cmp, arr) { AfterMid(arr, target, cmp, mid, right); }
        }
        r
  }

  /** `upperBound(arr, target, compare)`: on a sorted array, the first index whose
      element sorts after `target`. */
  function UpperBound<T(!new)>(arr: seq<T>, target: T, cmp: (T, T) -> int): (r: int)
    ensures 0 <= r <= |arr|
    ensures Comparator(cmp) && Sorted(cmp, arr) ==>
              && (forall k :: 0 <= k < r ==> cmp(arr[k], target) <= 0)
              && (forall k :: r <= k < |arr| ==> cmp(arr[k], target) > 0)
  {
    UpperBoundIn(arr, target, cmp, 0, |arr|)
  }

  /** In a sorted array, what sorts no later than a probe that sorts strictly
      before `target` sorts strictly before it too. */
  lemma BeforeMid<T(!new)>(arr: seq<T>, target: T, cmp: (T, T) -> int, left: int, mid: int)
    requires Comparator(cmp) && Sorted(cmp, arr)
    requires 0 <= left <= mid < |arr| && cmp(arr[mid], target) < 0
    ensures forall k :: left <= k <= mid ==> cmp(arr[k], target) < 0
  {
    forall k | left <= k < mid
      ensures cmp(arr[k], target) < 0
    {
      LeLt(cmp, arr[k], arr[mid], target);
    }
  }

  lemma NotAfterMid<T(!new)>(arr: seq<T>, target: T, cmp: (T, T) -> int, left: int, mid: int)
    requires Comparator(cmp) && Sorted(cmp, arr)
    requires 0 <= left <= mid < |arr| && cmp(arr[mid], target) <= 0
    ensures forall k :: left <= k <= mid ==> cmp(arr[k], target) <= 0
  {
    forall k | left <= k < mid
      ensures cmp(arr[k], target) <= 0
    {
      assert cmp(arr[k], arr[mid]) <= 0;
    }
  }

  lemma AfterMid<T(!new)>(arr: seq<T>, target: T, cmp: (T, T) -> int, mid: int, right: int)
    requires Comparator(cmp) && Sorted(cmp, arr)
    requires 0 <= mid < right <= |arr| && cmp(arr[mid], target) > 0
    ensures forall k :: mid <= k < right ==> cmp(arr[k], target) > 0
  {
    forall k | mid < k < right
      ensures cmp(arr[k], target) > 0
    {
      assert cmp(target, arr[mid]) < 0;
      LtLe(cmp, target, arr[mid], arr[k]);
    }
  }

  lemma NotBeforeMid<T(!new)>(arr: seq<T>, target: T, cmp: (T, T) -> int, mid: int, right: int)
    requires Comparator(cmp) && Sorted(cmp, arr)
    requires 0 <= mid < right <= |arr| && cmp(arr[mid], target) >= 0
    ensures forall k :: mid <= k < right ==> cmp(arr[k], target) >= 0
  {
    forall k | mid < k < right
      ensures cmp(arr[k], target) >= 0
    {
      assert cmp(arr[mid], arr[k]) <= 0;
    }
  }

  /** On a sorted array the elements equal to `target` are exactly those in
      `[lowerBound, upperBound)`, and `binarySearch` finds one of them. */
  lemma EqualRange<T(!new)>(arr: seq<T>, target: T, cmp: (T, T) -> int)
    requires Comparator(cmp) && Sorted(cmp, arr)
    ensures LowerBound(arr, target, cmp) <= UpperBound(arr, target, cmp)
    ensures forall k :: 0 <= k < |arr| ==>
              (cmp(arr[k], target) == 0 <==>
                 LowerBound(arr, target, cmp) <= k < UpperBound(arr, target, cmp))
    ensures BinarySearch(arr, target, cmp) == -1 <==>
              LowerBound(arr, target, cmp) == UpperBound(arr, target, cmp)
    ensures BinarySearch(arr, target, cmp) != -1 ==>
              LowerBound(arr, target, cmp) <= BinarySearch(arr, target, cmp) < UpperBound(arr, target, cmp)
  {
    var l := LowerBound(arr, target, cmp);
    var u := UpperBound(arr, target, cmp);
    assert u < |arr| ==> cmp(arr[u], target) > 0;
    if l < u {
      assert cmp(arr[l], target) == 0;
    }
  }

  /** `linearSearch(arr, target)`: the first index holding `target`, or -1. */
  method LinearSearch<T(==)>(arr: seq<T>, target: T) returns (r: int)
    ensures r == -1 <==> target !in arr
    ensures r != -1 ==> 0 <= r < |arr| && arr[r] == target && target !in arr[..r]
  {
    var i := 0;
    while i < |arr|
      invariant 0 <= i <= |arr|
      invariant target !in arr[..i]
    {
      if arr[i] == target {
        return i;
      }
      assert arr[..i + 1] == arr[..i] + [arr[i]];
      i := i + 1;
    }
    assert arr[..i] == arr;
    return -1;
  }
}
