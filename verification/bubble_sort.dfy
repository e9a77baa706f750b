/** `bubbleSort`: pass `i` carries a largest element of `result[..length - i]` to its
    end by swapping neighbours that compare strictly out of order. */
module BubbleSort {
  import opened Ordering

  /** After `i` passes: the last `i` places hold a sorted run, and nothing before
      them sorts later than anything in them. */
  ghost predicate Settled<T>(cmp: (T, T) -> int, r: seq<T>, m: int)
    requires 0 <= m <= |r|
  {
    && (forall x, y :: m <= x < y < |r| ==> cmp(r[x], r[y]) <= 0)
    && (forall k, b :: 0 <= k < m <= b < |r| ==> cmp(r[k], r[b]) <= 0)
  }

  /** Inside a pass, at position `j`: the settled suffix is intact and `r[j]` sorts
      no earlier than anything before it. */
  ghost predicate Carried<T>(cmp: (T, T) -> int, r: seq<T>, m: int, j: int)
    requires 0 <= j < m <= |r|
  {
    Settled(cmp, r, m) && forall k :: 0 <= k < j ==> cmp(r[k], r[j]) <= 0
  }

  /** One comparison of the pass: swap the neighbours at `j` if they compare
      strictly out of order. */
  function Bubble<T>(cmp: (T, T) -> int, r: seq<T>, j: nat): (s: seq<T>)
    requires j + 1 < |r|
    ensures |s| == |r| && multiset(s) == multiset(r)
  {
    if cmp(r[j], r[j + 1]) > 0 then Swap(r, j, j + 1) else r
  }

  /** One comparison carries the largest element seen so far one place on. */
  lemma CarryStep<T(!new)>(cmp: (T, T) -> int, r: seq<T>, m: int, j: int)
    requires Comparator(cmp) && 0 <= j < m - 1 && m <= |r| && Carried(cmp, r, m, j)
    ensures Carried(cmp, Bubble(cmp, r, j), m, j + 1)
  {
    if cmp(r[j], r[j + 1]) > 0 {
      var s := Swap(r, j, j + 1);
      forall k, b | 0 <= k < m <= b < |s| ensures cmp(s[k], s[b]) <= 0 {
        var k' := if k == j then j + 1 else if k == j + 1 then j else k;
        assert s[k] == r[k'] && s[b] == r[b];
      }
      assert cmp(r[j + 1], r[j]) < 0;
    } else {
      forall k | 0 <= k < j ensures cmp(r[k], r[j + 1]) <= 0 {
        assert cmp(r[k], r[j]) <= 0;
      }
    }
  }

  /** The inner loop of pass `i`, over `result[..m]` with `m = length - i`. It only
      rearranges; under a comparator it settles one more element. */
  method Pass<T(!new)>(a: seq<T>, cmp: (T, T) -> int, m: int) returns (r: seq<T>)
    requires 1 <= m <= |a|
    ensures |r| == |a| && multiset(r) == multiset(a)
    ensures Comparator(cmp) && Settled(cmp, a, m) ==> Settled(cmp, r, m - 1)
  {
    r := a;
    var j := 0;
    while j < m - 1
      invariant 0 <= j <= m - 1 && |r| == |a|
      invariant multiset(r) == multiset(a)
      invariant Comparator(cmp) && Settled(cmp, a, m) ==> Carried(cmp, r, m, j)
    {
      if Comparator(cmp) && Settled(cmp, a, m) {
        CarryStep(cmp, r, m, j);
      }
      r := Bubble(cmp, r, j);
      j := j + 1;
    }
    if Comparator(cmp) && Settled(cmp, a, m) {
      CarryDone(cmp, r, m);
    }
  }

  /** At the end of a pass the carried element is settled too. */
  lemma CarryDone<T>(cmp: (T, T) -> int, r: seq<T>, m: int)
    requires 1 <= m <= |r| && Carried(cmp, r, m, m - 1)
    ensures Settled(cmp, r, m - 1)
  {
  }

  /** `bubbleSort(arr, compare)`: a rearrangement of `arr` for any `compare`, sorted
      when `compare` is a comparator. */
  method Sort<T(!new)>(arr: seq<T>, cmp: (T, T) -> int) returns (r: seq<T>)
    ensures multiset(r) == multiset(arr)
    ensures Comparator(cmp) ==> Sorted(cmp, r)
  {
    r := arr;
    var n := |r|;
    var i := 0;
    while i < n - 1
      invariant 0 <= i && (if n == 0 then i == 0 else i <= n - 1) && |r| == n
      invariant multiset(r) == multiset(arr)
      invariant Comparator(cmp) ==> Settled(cmp, r, n - i)
    {
      r := Pass(r, cmp, n - i);
      i := i + 1;
    }
    if n > 0 && Comparator(cmp) {
      assert Settled(cmp, r, 1);
    }
  }
}
