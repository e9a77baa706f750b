/** `mergeSort`: top-down merge sort that takes the left element on ties. */
module MergeSort {
  import opened Ordering
  import opened Prelude

  /** `merge(left, right)`, written as the recursion its loop unrolls to. */
  function Merge<T>(cmp: (T, T) -> int, left: seq<T>, right: seq<T>): (r: seq<T>)
    ensures |r| == |left| + |right|
    ensures multiset(r) == multiset(left) + multiset(right)
    decreases |left| + |right|
  {
    if |left| == 0 then right
    else if |right| == 0 then left
    else if cmp(left[0], right[0]) <= 0 then
      assert left == [left[0]] + left[1..];
      [left[0]] + Merge(cmp, left[1..], right)
    else
      assert right == [right[0]] + right[1..];
      [right[0]] + Merge(cmp, left, right[1..])
  }

  /** The loop of `merge` as written: pairwise picks while both sides have elements,
      then the rest of `left`, then the rest of `right`. */
  method MergeLoop<T>(cmp: (T, T) -> int, left: seq<T>, right: seq<T>) returns (r: seq<T>)
    ensures r == Merge(cmp, left, right)
  {
    r := [];
    var i, j := 0, 0;
    assert left[0..] == left && right[0..] == right;
    while i < |left| && j < |right|
      invariant 0 <= i <= |left| && 0 <= j <= |right|
      invariant Progress(cmp, left, right, r, i, j)
      decreases |left| - i + |right| - j
    {
      if cmp(left[i], right[j]) <= 0 {
        PickLeft(cmp, left, right, r, i, j);
        r := r + [left[i]];
        i := i + 1;
      } else {
        PickRight(cmp, left, right, r, i, j);
        r := r + [right[j]];
        j := j + 1;
      }
    }
    Exhausted(cmp, left, right, r, i, j);
    r := r + left[i..] + right[j..];
  }

  /** The loop invariant of `merge`: the output so far, followed by the merge of what
      is left of both inputs, is the whole merge. */
  ghost predicate Progress<T>(cmp: (T, T) -> int, left: seq<T>, right: seq<T>, r: seq<T>, i: int, j: int)
    requires 0 <= i <= |left| && 0 <= j <= |right|
  {
    r + Merge(cmp, left[i..], right[j..]) == Merge(cmp, left, right)
  }

  /** A pick from the left: its front element sorts no later than the right front. */
  lemma PickLeft<T>(cmp: (T, T) -> int, left: seq<T>, right: seq<T>, r: seq<T>, i: int, j: int)
    requires 0 <= i < |left| && 0 <= j < |right| && Progress(cmp, left, right, r, i, j)
    requires cmp(left[i], right[j]) <= 0
    ensures Progress(cmp, left, right, r + [left[i]], i + 1, j)
  {
    var l, rr := left[i..], right[j..];
    assert Merge(cmp, l, rr) == [left[i]] + Merge(cmp, left[i + 1..], rr) by {
      assert l[0] == left[i] && l[1..] == left[i + 1..] && rr[0] == right[j];
    }
    AppendAssoc(r, [left[i]], Merge(cmp, left[i + 1..], rr));
  }

  /** A pick from the right: the left front sorts strictly later. */
  lemma PickRight<T>(cmp: (T, T) -> int, left: seq<T>, right: seq<T>, r: seq<T>, i: int, j: int)
    requires 0 <= i < |left| && 0 <= j < |right| && Progress(cmp, left, right, r, i, j)
    requires cmp(left[i], right[j]) > 0
    ensures Progress(cmp, left, right, r + [right[j]], i, j + 1)
  {
    var l, rr := left[i..], right[j..];
    assert Merge(cmp, l, rr) == [right[j]] + Merge(cmp, l, right[j + 1..]) by {
      assert rr[0] == right[j] && rr[1..] == right[j + 1..] && l[0] == left[i];
    }
    AppendAssoc(r, [right[j]], Merge(cmp, l, right[j + 1..]));
  }

  /** Once one side is used up, the loop appends the rest of both sides. */
  lemma Exhausted<T>(cmp: (T, T) -> int, left: seq<T>, right: seq<T>, r: seq<T>, i: int, j: int)
    requires 0 <= i <= |left| && 0 <= j <= |right| && Progress(cmp, left, right, r, i, j)
    requires i == |left| || j == |right|
    ensures r + left[i..] + right[j..] == Merge(cmp, left, right)
  {
    var l, rr := left[i..], right[j..];
    assert Merge(cmp, l, rr) == l + rr by {
      if |l| == 0 { assert l + rr == rr; } else { assert l + rr == l; }
    }
    AppendAssoc(r, l, rr);
  }

  /** `sort(arr)`: halves at `floor(length / 2)` and merges the sorted halves. */
  function Sort<T>(cmp: (T, T) -> int, s: seq<T>): (r: seq<T>)
    ensures |r| == |s| && multiset(r) == multiset(s)
    decreases |s|
  {
    if |s| <= 1 then s
    else
      var mid := |s| / 2;
      assert s == s[..mid] + s[mid..];
      Merge(cmp, Sort(cmp, s[..mid]), Sort(cmp, s[mid..]))
  }

  /** An element that sorts no later than every element of a sorted sequence can go
      in front of it. */
  lemma ConsSorted<T(!new)>(cmp: (T, T) -> int, x: T, s: seq<T>)
    requires Comparator(cmp) && Sorted(cmp, s) && AllAtLeast(cmp, s, x)
    ensures Sorted(cmp, [x] + s)
  {
    forall i, j | 0 <= i < j < |[x] + s|
      ensures cmp(([x] + s)[i], ([x] + s)[j]) <= 0
    {
      if i == 0 {
        assert cmp(s[j - 1], x) >= 0;
      } else {
        assert ([x] + s)[i] == s[i - 1] && ([x] + s)[j] == s[j - 1];
      }
    }
  }

  /** The head of a sorted sequence bounds every element of it and of anything above it. */
  lemma HeadBounds<T(!new)>(cmp: (T, T) -> int, x: T, a: seq<T>, b: seq<T>)
    requires Comparator(cmp) && Sorted(cmp, b) && |b| > 0 && cmp(x, b[0]) <= 0
    requires AllAtLeast(cmp, a, x)
    ensures AllAtLeast(cmp, a + b, x)
  {
    forall k | 0 <= k < |a + b|
      ensures cmp((a + b)[k], x) >= 0
    {
      if k >= |a| {
        var y := b[k - |a|];
        if k > |a| { assert cmp(b[0], y) <= 0; }
        assert cmp(x, y) <= 0;
      }
    }
  }

  lemma {:induction false} MergeSorted<T(!new)>(cmp: (T, T) -> int, left: seq<T>, right: seq<T>)
    requires Comparator(cmp) && Sorted(cmp, left) && Sorted(cmp, right)
    ensures Sorted(cmp, Merge(cmp, left, right))
    decreases |left| + |right|
  {
    if |left| > 0 && |right| > 0 {
      if cmp(left[0], right[0]) <= 0 {
        var rest := Merge(cmp, left[1..], right);
        MergeSorted(cmp, left[1..], right);
        assert AllAtLeast(cmp, left[1..], left[0]) by {
          forall k | 0 <= k < |left[1..]| ensures cmp(left[1..][k], left[0]) >= 0 {
            assert cmp(left[0], left[k + 1]) <= 0;
          }
        }
        HeadBounds(cmp, left[0], left[1..], right);
        PermKeepsBounds(cmp, left[1..] + right, rest, left[0]);
        ConsSorted(cmp, left[0], rest);
      } else {
        var rest := Merge(cmp, left, right[1..]);
        MergeSorted(cmp, left, right[1..]);
        assert AllAtLeast(cmp, right[1..], right[0]) by {
          forall k | 0 <= k < |right[1..]| ensures cmp(right[1..][k], right[0]) >= 0 {
            assert cmp(right[0], right[k + 1]) <= 0;
          }
        }
        HeadBounds(cmp, right[0], right[1..], left);
        assert multiset(right[1..] + left) == multiset(left) + multiset(right[1..]);
        PermKeepsBounds(cmp, right[1..] + left, rest, right[0]);
        ConsSorted(cmp, right[0], rest);
      }
    }
  }

  /** No element of `s` compares equal to `y`. */
  lemma NoTies<T>(cmp: (T, T) -> int, y: T, s: seq<T>)
    requires forall k :: 0 <= k < |s| ==> cmp(s[k], y) != 0
    ensures Ties(cmp, y, s) == []
  {
  }

  /** When `r0` sorts strictly before the head of a sorted `left`, no element of
      `left` ties with anything equal to `r0`. */
  lemma NoTiesAfter<T(!new)>(cmp: (T, T) -> int, y: T, left: seq<T>, r0: T)
    requires Comparator(cmp) && Sorted(cmp, left) && |left| > 0
    requires cmp(left[0], r0) > 0 && cmp(r0, y) == 0
    ensures Ties(cmp, y, left) == []
  {
    forall k | 0 <= k < |left|
      ensures cmp(left[k], y) != 0
    {
      if k > 0 { assert cmp(left[0], left[k]) <= 0; }
      assert cmp(left[k], r0) > 0;
      AfterTie(cmp, left[k], r0, y);
    }
    NoTies(cmp, y, left);
  }

  lemma TiesCons<T>(cmp: (T, T) -> int, y: T, s: seq<T>)
    requires |s| > 0
    ensures Ties(cmp, y, s) == Ties(cmp, y, [s[0]]) + Ties(cmp, y, s[1..])
  {
    assert s == [s[0]] + s[1..];
    TiesAppend(cmp, y, [s[0]], s[1..]);
  }

  lemma AppendAssoc<T>(a: seq<T>, b: seq<T>, c: seq<T>)
    ensures a + (b + c) == (a + b) + c
  {
  }

  /** Taking the left head keeps the tie classes in order. */
  lemma MergeStableLeftStep<T>(cmp: (T, T) -> int, y: T, left: seq<T>, right: seq<T>)
    requires |left| > 0 && |right| > 0 && cmp(left[0], right[0]) <= 0
    requires Ties(cmp, y, Merge(cmp, left[1..], right)) == Ties(cmp, y, left[1..]) + Ties(cmp, y, right)
    ensures Ties(cmp, y, Merge(cmp, left, right)) == Ties(cmp, y, left) + Ties(cmp, y, right)
  {
    var r := Merge(cmp, left, right);
    assert r[0] == left[0] && r[1..] == Merge(cmp, left[1..], right);
    TiesCons(cmp, y, r);
    TiesCons(cmp, y, left);
    AppendAssoc(Ties(cmp, y, [left[0]]), Ties(cmp, y, left[1..]), Ties(cmp, y, right));
  }

  /** Taking the right head, which sorts strictly before every left element, keeps
      the tie classes in order. */
  lemma MergeStableRightStep<T(!new)>(cmp: (T, T) -> int, y: T, left: seq<T>, right: seq<T>)
    requires Comparator(cmp) && Sorted(cmp, left)
    requires |left| > 0 && |right| > 0 && cmp(left[0], right[0]) > 0
    requires Ties(cmp, y, Merge(cmp, left, right[1..])) == Ties(cmp, y, left) + Ties(cmp, y, right[1..])
    ensures Ties(cmp, y, Merge(cmp, left, right)) == Ties(cmp, y, left) + Ties(cmp, y, right)
  {
    var r := Merge(cmp, left, right);
    var h := Ties(cmp, y, [right[0]]);
    assert r[0] == right[0] && r[1..] == Merge(cmp, left, right[1..]);
    TiesCons(cmp, y, r);
    TiesCons(cmp, y, right);
    if cmp(right[0], y) == 0 {
      NoTiesAfter(cmp, y, left, right[0]);
    } else {
      assert h == [];
    }
    assert h + Ties(cmp, y, left) == Ties(cmp, y, left) + h;
    AppendAssoc(h, Ties(cmp, y, left), Ties(cmp, y, right[1..]));
    AppendAssoc(Ties(cmp, y, left), h, Ties(cmp, y, right[1..]));
  }

  /** Merging keeps each class of equal elements as the left part's members followed
      by the right part's: ties go to the left. */
  lemma {:induction false} MergeStable<T(!new)>(cmp: (T, T) -> int, y: T, left: seq<T>, right: seq<T>)
    requires Comparator(cmp) && Sorted(cmp, left)
    ensures Ties(cmp, y, Merge(cmp, left, right)) == Ties(cmp, y, left) + Ties(cmp, y, right)
    decreases |left| + |right|
  {
    if |left| == 0 {
      assert Ties(cmp, y, left) == [];
    } else if |right| == 0 {
      assert Ties(cmp, y, right) == [];
    } else if cmp(left[0], right[0]) <= 0 {
      assert Sorted(cmp, left[1..]);
      MergeStable(cmp, y, left[1..], right);
      MergeStableLeftStep(cmp, y, left, right);
    } else {
      MergeStable(cmp, y, left, right[1..]);
      MergeStableRightStep(cmp, y, left, right);
    }
  }

  /** `mergeSort` returns a sorted rearrangement of its input. */
  lemma {:induction false} SortSorted<T(!new)>(cmp: (T, T) -> int, s: seq<T>)
    requires Comparator(cmp)
    ensures Sorted(cmp, Sort(cmp, s))
    decreases |s|
  {
    if |s| > 1 {
      var mid := |s| / 2;
      SortSorted(cmp, s[..mid]);
      SortSorted(cmp, s[mid..]);
      MergeSorted(cmp, Sort(cmp, s[..mid]), Sort(cmp, s[mid..]));
    }
  }

  lemma {:induction false} SortKeepsTies<T(!new)>(cmp: (T, T) -> int, y: T, s: seq<T>)
    requires Comparator(cmp)
    ensures Ties(cmp, y, Sort(cmp, s)) == Ties(cmp, y, s)
    decreases |s|
  {
    if |s| > 1 {
      var mid := |s| / 2;
      var lo, hi := s[..mid], s[mid..];
      var a, b := Sort(cmp, lo), Sort(cmp, hi);
      SortSorted(cmp, lo);
      MergeStable(cmp, y, a, b);
      SortKeepsTies(cmp, y, lo);
      SortKeepsTies(cmp, y, hi);
      SplitTies(cmp, y, s, lo, hi, a, b);
    }
  }

  /** The recursive case of `sort`, as an equation. */
  lemma SortSplits<T>(cmp: (T, T) -> int, s: seq<T>)
    requires |s| > 1
    ensures Sort(cmp, s) == Merge(cmp, Sort(cmp, s[..|s| / 2]), Sort(cmp, s[|s| / 2..]))
  {
  }

  /** The tie classes of the sorted whole are those of the merged sorted halves. */
  lemma SplitTies<T>(cmp: (T, T) -> int, y: T, s: seq<T>, lo: seq<T>, hi: seq<T>, a: seq<T>, b: seq<T>)
    requires |s| > 1 && lo == s[..|s| / 2] && hi == s[|s| / 2..]
    requires a == Sort(cmp, lo) && b == Sort(cmp, hi)
    requires Ties(cmp, y, Merge(cmp, a, b)) == Ties(cmp, y, a) + Ties(cmp, y, b)
    requires Ties(cmp, y, a) == Ties(cmp, y, lo) && Ties(cmp, y, b) == Ties(cmp, y, hi)
    ensures Ties(cmp, y, Sort(cmp, s)) == Ties(cmp, y, s)
  {
    calc {
      Ties(cmp, y, Sort(cmp, s));
      { SortSplits(cmp, s); }
      Ties(cmp, y, Merge(cmp, a, b));
      Ties(cmp, y, lo) + Ties(cmp, y, hi);
      { TiesAppend(cmp, y, lo, hi); }
      Ties(cmp, y, lo + hi);
      { SplitJoin(s, |s| / 2); }
      Ties(cmp, y, s);
    }
  }

  /** `mergeSort` is stable: equal elements keep their input order. */
  lemma SortStable<T(!new)>(cmp: (T, T) -> int, s: seq<T>)
    requires Comparator(cmp)
    ensures StableOf(cmp, s, Sort(cmp, s))
  {
    forall y
      ensures Ties(cmp, y, Sort(cmp, s)) == Ties(cmp, y, s)
    {
      SortKeepsTies(cmp, y, s);
    }
  }
}
