/** Comparators as the library uses them: a JavaScript `(a, b) => number` whose sign
    says whether `a` sorts before, together with, or after `b`. */
module Ordering {

  /** The comparator every sort and search falls back to when none is given:
      `(a, b) => (a > b ? 1 : a < b ? -1 : 0)`, here over integers. */
  function DefaultCompare(a: int, b: int): int {
    if a > b then 1 else if a < b then -1 else 0
  }

  /** `cmp` describes a total preorder: swapping the arguments flips the sign, and
      "sorts no later than" (`cmp(a, b) <= 0`) is transitive. */
  ghost predicate Comparator<T(!new)>(cmp: (T, T) -> int) {
    && (forall a, b :: cmp(a, b) < 0 <==> cmp(b, a) > 0)
    && (forall a, b, c {:trigger cmp(a, b), cmp(b, c), cmp(a, c)} ::
          cmp(a, b) <= 0 && cmp(b, c) <= 0 ==> cmp(a, c) <= 0)
  }

  /** Ascending order under `cmp`. */
  ghost predicate Sorted<T>(cmp: (T, T) -> int, s: seq<T>) {
    forall i, j :: 0 <= i < j < |s| ==> cmp(s[i], s[j]) <= 0
  }

  /** The elements of `s` that compare equal to `y`, in their order in `s`. */
  function Ties<T>(cmp: (T, T) -> int, y: T, s: seq<T>): (r: seq<T>)
    ensures |r| <= |s|
  {
    if |s| == 0 then []
    else (if cmp(s[0], y) == 0 then [s[0]] else []) + Ties(cmp, y, s[1..])
  }

  /** `r` keeps every class of equal-comparing elements of `s` in its original order:
      the definition of a stable reordering. */
  ghost predicate StableOf<T(!new)>(cmp: (T, T) -> int, s: seq<T>, r: seq<T>) {
    forall y :: Ties(cmp, y, r) == Ties(cmp, y, s)
  }

  lemma DefaultCompareIsComparator()
    ensures Comparator(DefaultCompare)
  {
  }

  lemma Reflexive<T(!new)>(cmp: (T, T) -> int, a: T)
    requires Comparator(cmp)
    ensures cmp(a, a) == 0
  {
  }

  /** Equal-comparing is an equivalence, and it is compatible with the order. */
  lemma TieTransitive<T(!new)>(cmp: (T, T) -> int, a: T, b: T, c: T)
    requires Comparator(cmp)
    requires cmp(a, b) == 0 && cmp(b, c) == 0
    ensures cmp(a, c) == 0
  {
    assert cmp(b, a) == 0 && cmp(c, b) == 0;
    assert cmp(a, c) <= 0 && cmp(c, a) <= 0;
  }

  lemma {:induction false} TiesAppend<T>(cmp: (T, T) -> int, y: T, a: seq<T>, b: seq<T>)
    ensures Ties(cmp, y, a + b) == Ties(cmp, y, a) + Ties(cmp, y, b)
  {
    if |a| == 0 {
      assert a + b == b;
    } else {
      var h := if cmp(a[0], y) == 0 then [a[0]] else [];
      assert (a + b)[1..] == a[1..] + b;
      assert (a + b)[0] == a[0];
      assert Ties(cmp, y, a + b) == h + Ties(cmp, y, a[1..] + b);
      TiesAppend(cmp, y, a[1..], b);
      assert Ties(cmp, y, a) == h + Ties(cmp, y, a[1..]);
    }
  }

  /** Exchanging two positions, as `[a[i], a[j]] = [a[j], a[i]]` does in place. */
  function Swap<T>(a: seq<T>, i: nat, j: nat): (r: seq<T>)
    requires i < |a| && j < |a|
    ensures |r| == |a| && multiset(r) == multiset(a)
    ensures r[i] == a[j] && r[j] == a[i]
    ensures forall k :: 0 <= k < |a| && k != i && k != j ==> r[k] == a[k]
  {
    a[i := a[j]][j := a[i]]
  }

  /** Every element of `s` sorts no later than `v`. */
  ghost predicate AllAtMost<T>(cmp: (T, T) -> int, s: seq<T>, v: T) {
    forall k :: 0 <= k < |s| ==> cmp(s[k], v) <= 0
  }

  /** Every element of `s` sorts no earlier than `v`. */
  ghost predicate AllAtLeast<T>(cmp: (T, T) -> int, s: seq<T>, v: T) {
    forall k :: 0 <= k < |s| ==> cmp(s[k], v) >= 0
  }

  /** Bounds on the elements survive any rearrangement. */
  lemma PermKeepsBounds<T>(cmp: (T, T) -> int, s: seq<T>, t: seq<T>, v: T)
    requires multiset(s) == multiset(t)
    ensures AllAtMost(cmp, s, v) ==> AllAtMost(cmp, t, v)
    ensures AllAtLeast(cmp, s, v) ==> AllAtLeast(cmp, t, v)
  {
    forall k | 0 <= k < |t|
      ensures exists m :: 0 <= m < |s| && s[m] == t[k]
    {
      assert t[k] in multiset(s);
    }
  }

  /** A rearrangement that moves nothing outside `[lo, hi)` rearranges `[lo, hi)`. */
  lemma FramedPerm<T>(a: seq<T>, r: seq<T>, lo: int, hi: int)
    requires |r| == |a| && multiset(r) == multiset(a) && 0 <= lo <= hi <= |a|
    requires forall k :: 0 <= k < |a| && (k < lo || k >= hi) ==> r[k] == a[k]
    ensures multiset(r[lo..hi]) == multiset(a[lo..hi])
  {
    SplitThree(a, lo, hi);
    SplitThree(r, lo, hi);
    assert r[..lo] == a[..lo];
    assert r[hi..] == a[hi..];
    assert multiset(r[lo..hi]) == multiset(r) - multiset(a[..lo]) - multiset(a[hi..]);
    assert multiset(a[lo..hi]) == multiset(a) - multiset(a[..lo]) - multiset(a[hi..]);
  }

  lemma SplitThree<T>(a: seq<T>, lo: int, hi: int)
    requires 0 <= lo <= hi <= |a|
    ensures multiset(a) == multiset(a[..lo]) + multiset(a[lo..hi]) + multiset(a[hi..])
  {
    assert a == a[..lo] + a[lo..hi] + a[hi..];
  }

  /** Two elements on either side of a pivot are in order. */
  lemma ThroughPivot<T(!new)>(cmp: (T, T) -> int, x: T, p: T, y: T)
    requires Comparator(cmp) && cmp(x, p) <= 0 && cmp(y, p) >= 0
    ensures cmp(x, y) <= 0
  {
    assert cmp(p, y) <= 0;
  }

  /** What sorts strictly after one member of a class of equal elements sorts
      strictly after all of them. */
  lemma AfterTie<T(!new)>(cmp: (T, T) -> int, a: T, b: T, y: T)
    requires Comparator(cmp) && cmp(a, b) > 0 && cmp(b, y) == 0
    ensures cmp(a, y) > 0
  {
    assert cmp(y, b) == 0;
  }

  /** Sorting strictly before carries over a "no later than" step on either side. */
  lemma LtLe<T(!new)>(cmp: (T, T) -> int, a: T, b: T, c: T)
    requires Comparator(cmp) && cmp(a, b) < 0 && cmp(b, c) <= 0
    ensures cmp(a, c) < 0
  {
    assert cmp(b, a) > 0;
  }

  lemma LeLt<T(!new)>(cmp: (T, T) -> int, a: T, b: T, c: T)
    requires Comparator(cmp) && cmp(a, b) <= 0 && cmp(b, c) < 0
    ensures cmp(a, c) < 0
  {
    assert cmp(c, b) > 0;
  }
}
