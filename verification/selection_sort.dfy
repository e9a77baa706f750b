/** `selectionSort`: pass `i` swaps a least element of `result[i..]` into place `i`. */
module SelectionSort {
  import opened Ordering

  /** After `i` passes: `r[..i]` is sorted and nothing in it sorts later than
      anything after it. */
  ghost predicate Placed<T>(cmp: (T, T) -> int, r: seq<T>, i: int)
    requires 0 <= i <= |r|
  {
    && (forall x, y :: 0 <= x < y < i ==> cmp(r[x], r[y]) <= 0)
    && (forall a, b :: 0 <= a < i <= b < |r| ==> cmp(r[a], r[b]) <= 0)
  }

  /** The inner loop: the first index of a least element of `a[i..]`, scanning with a
      strict `<`. For any `compare` it yields an index of the suffix; under a
      comparator that element is least. */
  method MinIndex<T(!new)>(a: seq<T>, cmp: (T, T) -> int, i: int) returns (minIdx: int)
    requires 0 <= i < |a|
    ensures i <= minIdx < |a|
    ensures Comparator(cmp) ==> forall k :: i <= k < |a| ==> cmp(a[minIdx], a[k]) <= 0
  {
    minIdx := i;
    if Comparator(cmp) {
      Reflexive(cmp, a[i]);
    }
    var j := i + 1;
    while j < |a|
      invariant i <= minIdx < j <= |a|
      invariant Comparator(cmp) ==> forall k :: i <= k < j ==> cmp(a[minIdx], a[k]) <= 0
    {
      if cmp(a[j], a[minIdx]) < 0 {
        if Comparator(cmp) {
          forall k | i <= k < j
            ensures cmp(a[j], a[k]) <= 0
          {
            assert cmp(a[minIdx], a[k]) <= 0;
          }
          Reflexive(cmp, a[j]);
        }
        minIdx := j;
      }
      j := j + 1;
    }
  }

  /** Swapping a least element of `r[i..]` into place `i` extends the placed prefix
      by one. */
  lemma PlaceNext<T>(cmp: (T, T) -> int, r: seq<T>, i: int, m: int)
    requires 0 <= i <= m < |r| && Placed(cmp, r, i)
    requires forall k :: i <= k < |r| ==> cmp(r[m], r[k]) <= 0
    ensures Placed(cmp, if m != i then Swap(r, i, m) else r, i + 1)
  {
    var s := if m != i then Swap(r, i, m) else r;
    assert |s| == |r| && s[i] == r[m];
    forall x, y | 0 <= x < y < i + 1
      ensures cmp(s[x], s[y]) <= 0
    {
      assert s[x] == r[x];
      if y < i { assert s[y] == r[y]; }
    }
    forall a, b | 0 <= a < i + 1 <= b < |s|
      ensures cmp(s[a], s[b]) <= 0
    {
      var k := if b == m then i else b;
      assert s[b] == r[k] && i <= k < |r|;
      if a < i { assert s[a] == r[a]; }
    }
  }

  /** `selectionSort(arr, compare)`: a rearrangement of `arr` for any `compare`,
      sorted when `compare` is a comparator. */
  method Sort<T(!new)>(arr: seq<T>, cmp: (T, T) -> int) returns (r: seq<T>)
    ensures multiset(r) == multiset(arr)
    ensures Comparator(cmp) ==> Sorted(cmp, r)
  {
    r := arr;
    var n := |r|;
    var i := 0;
    while i < n - 1
      invariant 0 <= i <= n && (n > 0 ==> i <= n - 1) && |r| == n
      invariant multiset(r) == multiset(arr)
      invariant Comparator(cmp) ==> Placed(cmp, r, i)
    {
      var minIdx := MinIndex(r, cmp, i);
      if Comparator(cmp) {
        PlaceNext(cmp, r, i, minIdx);
      }
      if minIdx != i {
        r := Swap(r, i, minIdx);
      }
      i := i + 1;
    }
    if n > 0 && Comparator(cmp) {
      PlacedIsSorted(cmp, r);
    }
  }

  /** Once all but the last element are placed, the whole sequence is sorted. */
  lemma PlacedIsSorted<T>(cmp: (T, T) -> int, r: seq<T>)
    requires |r| > 0 && Placed(cmp, r, |r| - 1)
    ensures Sorted(cmp, r)
  {
    forall x, y | 0 <= x < y < |r|
      ensures cmp(r[x], r[y]) <= 0
    {
      if y < |r| - 1 { assert cmp(r[x], r[y]) <= 0; }
    }
  }
}
