/** `insertionSort`: each element in turn is moved left past the elements of the
    sorted prefix that compare strictly greater. */
module InsertionSort {
  import opened Ordering

  /** Inserting `x` after a prefix `s`: it passes every trailing element that
      compares strictly greater and stops at the first that does not. */
  function Insert<T>(cmp: (T, T) -> int, s: seq<T>, x: T): (r: seq<T>)
    ensures |r| == |s| + 1
    ensures multiset(r) == multiset(s) + multiset{x}
    decreases |s|
  {
    if |s| == 0 || cmp(s[|s| - 1], x) <= 0 then s + [x]
    else
      assert s == s[..|s| - 1] + [s[|s| - 1]];
      Insert(cmp, s[..|s| - 1], x) + [s[|s| - 1]]
  }

  /** The result of the outer loop after it has handled `s`: its elements
      inserted one at a time, first to last. */
  function InsertAll<T>(cmp: (T, T) -> int, s: seq<T>): (r: seq<T>)
    ensures |r| == |s|
    ensures multiset(r) == multiset(s)
    decreases |s|
  {
    if |s| == 0 then []
    else
      assert s == s[..|s| - 1] + [s[|s| - 1]];
      Insert(cmp, InsertAll(cmp, s[..|s| - 1]), s[|s| - 1])
  }

  /** The element before the insertion point compares strictly greater: it moves
      one place right. */
  lemma InsertPeel<T>(cmp: (T, T) -> int, s: seq<T>, j: int, x: T)
    requires 0 <= j < |s| && cmp(s[j], x) > 0
    ensures Insert(cmp, s[..j + 1], x) + s[j + 1..] == Insert(cmp, s[..j], x) + s[j..]
  {
    assert s[..j + 1][..j] == s[..j];
    assert s[j..] == [s[j]] + s[j + 1..];
    AppendAssoc(Insert(cmp, s[..j], x), [s[j]], s[j + 1..]);
  }

  /** The scan stopped: `x` goes right after position `j`. */
  lemma InsertStop<T>(cmp: (T, T) -> int, s: seq<T>, j: int, x: T)
    requires -1 <= j < |s| && (j < 0 || cmp(s[j], x) <= 0)
    ensures Insert(cmp, s[..j + 1], x) + s[j + 1..] == s[..j + 1] + [x] + s[j + 1..]
  {
  }

  /** The state of the inner loop: `r` holds the prefix `s` with a gap at `j + 1`
      (every element after the gap moved one place right), and the rest of `a`. */
  ghost predicate Gap<T>(r: seq<T>, s: seq<T>, a: seq<T>, i: int, j: int) {
    && -1 <= j < i < |r| && |r| == |a| && |s| == i
    && (forall k :: 0 <= k <= j ==> r[k] == s[k])
    && (forall k :: j + 2 <= k <= i ==> r[k] == s[k - 1])
    && (forall k :: i < k < |a| ==> r[k] == a[k])
  }

  /** Copying `r[j]` one place right moves the gap one place left. */
  lemma ShiftKeepsGap<T>(r: seq<T>, s: seq<T>, a: seq<T>, i: int, j: int)
    requires Gap(r, s, a, i, j) && j >= 0
    ensures Gap(r[j + 1 := r[j]], s, a, i, j - 1)
  {
  }

  /** One pass of the outer loop: `current = result[i]` moves left while the element
      before it compares strictly greater. */
  method InsertAt<T>(a: seq<T>, cmp: (T, T) -> int, i: int) returns (r: seq<T>)
    requires 0 <= i < |a|
    ensures |r| == |a|
    ensures r[..i + 1] == Insert(cmp, a[..i], a[i])
    ensures r[i + 1..] == a[i + 1..]
  {
    r := a;
    var current := a[i];
    var j := i - 1;
    ghost var s := a[..i];
    assert s[..i] == s && s[i..] == [];
    while j >= 0 && cmp(r[j], current) > 0
      invariant Gap(r, s, a, i, j)
      invariant Insert(cmp, s, current) == Insert(cmp, s[..j + 1], current) + s[j + 1..]
      decreases j
    {
      InsertPeel(cmp, s, j, current);
      ShiftKeepsGap(r, s, a, i, j);
      r := r[j + 1 := r[j]];
      j := j - 1;
    }
    InsertStop(cmp, s, j, current);
    Reassemble(r, s, a, i, j, current);
    r := r[j + 1 := current];
  }

  /** When the scan stops at `j`, writing `x` into the gap at `j + 1` gives the prefix
      with `x` inserted, and the suffix is untouched. */
  lemma Reassemble<T>(r: seq<T>, s: seq<T>, a: seq<T>, i: int, j: int, x: T)
    requires Gap(r, s, a, i, j)
    ensures r[j + 1 := x][..i + 1] == s[..j + 1] + [x] + s[j + 1..]
    ensures r[j + 1 := x][i + 1..] == a[i + 1..]
  {
    var w := r[j + 1 := x];
    var v := s[..j + 1] + [x] + s[j + 1..];
    assert |w[..i + 1]| == |v|;
    forall k | 0 <= k <= i
      ensures w[k] == v[k]
    {
      if k > j + 1 { assert v[k] == s[k - 1]; }
    }
  }

  /** `insertionSort(arr, compare)`, loop for loop. */
  method Sort<T(!new)>(arr: seq<T>, cmp: (T, T) -> int) returns (r: seq<T>)
    ensures r == InsertAll(cmp, arr)
    ensures multiset(r) == multiset(arr)
    ensures Comparator(cmp) ==> Sorted(cmp, r) && StableOf(cmp, arr, r)
  {
    r := arr;
    if |arr| > 0 {
      assert InsertAll(cmp, arr[..1]) == Insert(cmp, [], arr[0]);
      var i := 1;
      while i < |r|
        invariant 1 <= i <= |arr| && |r| == |arr|
        invariant r[..i] == InsertAll(cmp, arr[..i])
        invariant r[i..] == arr[i..]
      {
        var r' := InsertAt(r, cmp, i);
        OuterStep(cmp, arr, r, r', i);
        r := r';
        i := i + 1;
      }
      assert arr[..|arr|] == arr;
    }
    SortedAndStable(cmp, arr);
  }

  /** One pass of the outer loop extends the inserted prefix by `arr[i]`. */
  lemma OuterStep<T>(cmp: (T, T) -> int, arr: seq<T>, r: seq<T>, r': seq<T>, i: int)
    requires 1 <= i < |arr| && |r| == |arr| && |r'| == |r|
    requires r[..i] == InsertAll(cmp, arr[..i]) && r[i..] == arr[i..]
    requires r'[..i + 1] == Insert(cmp, r[..i], r[i]) && r'[i + 1..] == r[i + 1..]
    ensures r'[..i + 1] == InsertAll(cmp, arr[..i + 1]) && r'[i + 1..] == arr[i + 1..]
  {
    assert r[i] == arr[i] by { assert r[i..][0] == arr[i..][0]; }
    assert InsertAll(cmp, arr[..i + 1]) == Insert(cmp, InsertAll(cmp, arr[..i]), arr[i]) by {
      var p := arr[..i + 1];
      assert p[..i] == arr[..i] && p[i] == arr[i];
    }
    assert r'[i + 1..] == arr[i + 1..] by {
      assert r[i + 1..] == r[i..][1..];
    }
  }

  lemma {:induction false} InsertSorted<T(!new)>(cmp: (T, T) -> int, s: seq<T>, x: T)
    requires Comparator(cmp) && Sorted(cmp, s)
    ensures Sorted(cmp, Insert(cmp, s, x))
    decreases |s|
  {
    var n := |s|;
    if n == 0 {
    } else if cmp(s[n - 1], x) <= 0 {
      SortedSnoc(cmp, s, x);
    } else {
      SortedPrefix(cmp, s, n - 1);
      InsertSorted(cmp, s[..n - 1], x);
      InsertPassing(cmp, s, x);
    }
  }

  lemma SortedPrefix<T>(cmp: (T, T) -> int, s: seq<T>, k: nat)
    requires Sorted(cmp, s) && k <= |s|
    ensures Sorted(cmp, s[..k])
  {
    forall i, j | 0 <= i < j < k ensures cmp(s[..k][i], s[..k][j]) <= 0 {
      assert s[..k][i] == s[i] && s[..k][j] == s[j];
    }
  }

  /** `x` passes the last element: the last element lands after the sorted insertion
      of `x` into the rest, and bounds it. */
  lemma InsertPassing<T(!new)>(cmp: (T, T) -> int, s: seq<T>, x: T)
    requires Comparator(cmp) && Sorted(cmp, s) && |s| > 0 && cmp(s[|s| - 1], x) > 0
    requires Sorted(cmp, Insert(cmp, s[..|s| - 1], x))
    ensures Sorted(cmp, Insert(cmp, s, x))
  {
    var init := s[..|s| - 1];
    var last := s[|s| - 1];
    PassedBound(cmp, s, x);
    PermKeepsBounds(cmp, init + [x], Insert(cmp, init, x), last);
    SortedBelow(cmp, Insert(cmp, init, x), last);
  }

  /** Appending what sorts no earlier than the last element keeps a sequence sorted. */
  lemma SortedSnoc<T(!new)>(cmp: (T, T) -> int, s: seq<T>, x: T)
    requires Comparator(cmp) && Sorted(cmp, s) && |s| > 0 && cmp(s[|s| - 1], x) <= 0
    ensures Sorted(cmp, s + [x])
  {
    var n := |s|;
    forall i, j | 0 <= i < j < n + 1
      ensures cmp((s + [x])[i], (s + [x])[j]) <= 0
    {
      if j == n && i < n - 1 {
        assert cmp(s[i], s[n - 1]) <= 0;
      }
    }
  }

  /** Appending a bound of every element keeps a sequence sorted. */
  lemma SortedBelow<T>(cmp: (T, T) -> int, m: seq<T>, last: T)
    requires Sorted(cmp, m) && AllAtMost(cmp, m, last)
    ensures Sorted(cmp, m + [last])
  {
    forall i, j | 0 <= i < j < |m| + 1
      ensures cmp((m + [last])[i], (m + [last])[j]) <= 0
    {
      if j == |m| { assert (m + [last])[i] == m[i]; }
    }
  }

  /** When `x` passes the last element, that element bounds the rest together with `x`. */
  lemma PassedBound<T(!new)>(cmp: (T, T) -> int, s: seq<T>, x: T)
    requires Comparator(cmp) && Sorted(cmp, s) && |s| > 0 && cmp(s[|s| - 1], x) > 0
    ensures AllAtMost(cmp, s[..|s| - 1] + [x], s[|s| - 1])
  {
    var n := |s|;
    var p := s[..n - 1] + [x];
    forall k | 0 <= k < |p|
      ensures cmp(p[k], s[n - 1]) <= 0
    {
      if k < n - 1 {
        assert p[k] == s[k];
        assert cmp(s[k], s[n - 1]) <= 0;
      }
    }
  }

  /** Inserting `x` puts it after every element of its tie class already present. */
  lemma {:induction false} InsertKeepsTies<T(!new)>(cmp: (T, T) -> int, y: T, s: seq<T>, x: T)
    requires Comparator(cmp)
    ensures Ties(cmp, y, Insert(cmp, s, x)) == Ties(cmp, y, s) + Ties(cmp, y, [x])
    decreases |s|
  {
    var n := |s|;
    if n == 0 || cmp(s[n - 1], x) <= 0 {
      TiesAppend(cmp, y, s, [x]);
    } else {
      var init := s[..n - 1];
      var last := s[n - 1];
      InsertKeepsTies(cmp, y, init, x);
      TiesAppend(cmp, y, Insert(cmp, init, x), [last]);
      TiesAppend(cmp, y, init, [last]);
      assert s == init + [last];
      var hx := Ties(cmp, y, [x]);
      var hl := Ties(cmp, y, [last]);
      if cmp(x, y) == 0 {
        AfterTie(cmp, last, x, y);
      }
      assert hx + hl == hl + hx;
      AppendAssoc(Ties(cmp, y, init), hx, hl);
      AppendAssoc(Ties(cmp, y, init), hl, hx);
    }
  }

  lemma AppendAssoc<T>(a: seq<T>, b: seq<T>, c: seq<T>)
    ensures (a + b) + c == a + (b + c)
  {
  }

  lemma {:induction false} InsertAllKeepsTies<T(!new)>(cmp: (T, T) -> int, y: T, s: seq<T>)
    requires Comparator(cmp)
    ensures Ties(cmp, y, InsertAll(cmp, s)) == Ties(cmp, y, s)
    decreases |s|
  {
    if |s| > 0 {
      var n := |s|;
      InsertAllKeepsTies(cmp, y, s[..n - 1]);
      InsertKeepsTies(cmp, y, InsertAll(cmp, s[..n - 1]), s[n - 1]);
      TiesAppend(cmp, y, s[..n - 1], [s[n - 1]]);
      assert s == s[..n - 1] + [s[n - 1]];
    }
  }

  lemma {:induction false} InsertAllSorted<T(!new)>(cmp: (T, T) -> int, s: seq<T>)
    requires Comparator(cmp)
    ensures Sorted(cmp, InsertAll(cmp, s))
    decreases |s|
  {
    if |s| > 0 {
      InsertAllSorted(cmp, s[..|s| - 1]);
      InsertSorted(cmp, InsertAll(cmp, s[..|s| - 1]), s[|s| - 1]);
    }
  }

  /** `insertionSort` returns a sorted rearrangement of its input in which equal
      elements keep their input order. */
  lemma SortedAndStable<T(!new)>(cmp: (T, T) -> int, s: seq<T>)
    ensures Comparator(cmp) ==> Sorted(cmp, InsertAll(cmp, s)) && StableOf(cmp, s, InsertAll(cmp, s))
  {
    if Comparator(cmp) {
      InsertAllSorted(cmp, s);
      forall y
        ensures Ties(cmp, y, InsertAll(cmp, s)) == Ties(cmp, y, s)
      {
        InsertAllKeepsTies(cmp, y, s);
      }
    }
  }
}
