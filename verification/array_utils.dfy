/** The pure array helpers: de-duplication, chunking, filtering, the `slice`-based
    take/drop family, index search, splicing, numeric ranges and partitioning.
    Every helper returns a new array, which is what a `seq` result is. */
module ArrayUtils {
  import opened Prelude

  /** The set of keys `f` gives to the items of `s`. */
  function Keys<T, K>(s: seq<T>, f: T -> K): set<K> {
    set i | 0 <= i < |s| :: f(s[i])
  }

  lemma KeysSnoc<T, K>(s: seq<T>, f: T -> K, x: T)
    ensures Keys(s + [x], f) == Keys(s, f) + {f(x)}
  {
    var t := s + [x];
    forall k | k in Keys(t, f) ensures k in Keys(s, f) + {f(x)} {
      var i :| 0 <= i < |t| && f(t[i]) == k;
      if i < |s| { assert t[i] == s[i]; }
    }
    forall k | k in Keys(s, f) + {f(x)} ensures k in Keys(t, f) {
      if k in Keys(s, f) {
        var i :| 0 <= i < |s| && f(s[i]) == k;
        assert t[i] == s[i];
      } else {
        assert t[|s|] == x;
      }
    }
  }

  /** The position of the first item of `s` whose key is `key`, or `|s|` if none. */
  function KeyIndex<T, K(==)>(s: seq<T>, f: T -> K, key: K): (i: nat)
    ensures i <= |s|
    ensures i < |s| ==> f(s[i]) == key
    ensures forall j :: 0 <= j < i ==> f(s[j]) != key
    ensures i == |s| <==> key !in Keys(s, f)
  {
    if |s| == 0 then 0
    else if f(s[0]) == key then 0
    else
      var i := 1 + KeyIndex(s[1..], f, key);
      assert forall j :: 1 <= j < |s| ==> s[j] == s[1..][j - 1];
      i
  }

  /** The least index is unique: any index meeting `KeyIndex`'s description is it. */
  lemma KeyIndexUnique<T, K>(s: seq<T>, f: T -> K, key: K, i: nat)
    requires i < |s| && f(s[i]) == key
    requires forall j :: 0 <= j < i ==> f(s[j]) != key
    ensures KeyIndex(s, f, key) == i
  {
  }

  /** Reference meaning of `uniqueBy`: walking left to right, keep an item exactly
      when no earlier item had the same key. */
  function FirstByKey<T, K(==)>(s: seq<T>, f: T -> K): seq<T>
  {
    if |s| == 0 then []
    else
      var init := s[..|s| - 1];
      var last := s[|s| - 1];
      if f(last) in Keys(init, f) then FirstByKey(init, f)
      else FirstByKey(init, f) + [last]
  }

  /** `uniqueBy(arr, fn)`: a `seen` set of keys decides whether each item survives. */
  method UniqueBy<T, K(==)>(arr: seq<T>, f: T -> K) returns (r: seq<T>)
    ensures r == FirstByKey(arr, f)
    ensures forall a, b :: 0 <= a < b < |r| ==> f(r[a]) != f(r[b])
    ensures Keys(r, f) == Keys(arr, f)
  {
    var seen: set<K> := {};
    r := [];
    var i := 0;
    while i < |arr|
      invariant 0 <= i <= |arr|
      invariant seen == Keys(arr[..i], f)
      invariant r == FirstByKey(arr[..i], f)
    {
      assert arr[..i + 1][..i] == arr[..i];
      KeysSnoc(arr[..i], f, arr[i]);
      assert arr[..i + 1] == arr[..i] + [arr[i]];
      if f(arr[i]) !in seen {
        r := r + [arr[i]];
      }
      seen := seen + {f(arr[i])};
      i := i + 1;
    }
    assert arr[..|arr|] == arr;
    FirstByKeyDistinct(arr, f);
  }

  /** What `uniqueBy` keeps: distinct keys, every key of the input, and for each key
      exactly the first item that carries it, in the order those first items occur. */
  lemma {:induction false} FirstByKeyDistinct<T, K>(s: seq<T>, f: T -> K)
    ensures forall a, b :: 0 <= a < b < |FirstByKey(s, f)| ==>
              f(FirstByKey(s, f)[a]) != f(FirstByKey(s, f)[b])
    ensures Keys(FirstByKey(s, f), f) == Keys(s, f)
    ensures forall k :: 0 <= k < |FirstByKey(s, f)| ==>
              FirstByKey(s, f)[k] == s[KeyIndex(s, f, f(FirstByKey(s, f)[k]))]
    ensures forall a, b :: 0 <= a < b < |FirstByKey(s, f)| ==>
              KeyIndex(s, f, f(FirstByKey(s, f)[a])) < KeyIndex(s, f, f(FirstByKey(s, f)[b]))
  {
    FirstByKeyKept(s, f);
  }

  lemma {:induction false} FirstByKeyKept<T, K>(s: seq<T>, f: T -> K)
    ensures Kept(s, f, FirstByKey(s, f))
  {
    if |s| > 0 {
      var init := s[..|s| - 1];
      var last := s[|s| - 1];
      FirstByKeyKept(init, f);
      assert init + [last] == s;
      if f(last) in Keys(init, f) {
        KeptSnocOld(init, f, last, FirstByKey(init, f));
      } else {
        KeptSnocNew(init, f, last, FirstByKey(init, f));
      }
    }
  }

  /** The four properties `FirstByKeyDistinct` states of `p` against `s`. */
  ghost predicate Kept<T, K>(s: seq<T>, f: T -> K, p: seq<T>) {
    && (forall a, b :: 0 <= a < b < |p| ==> f(p[a]) != f(p[b]))
    && Keys(p, f) == Keys(s, f)
    && (forall k :: 0 <= k < |p| ==> p[k] == s[KeyIndex(s, f, f(p[k]))])
    && (forall a, b :: 0 <= a < b < |p| ==> KeyIndex(s, f, f(p[a])) < KeyIndex(s, f, f(p[b])))
  }

  /** Appending an item keeps the first index of every key already present. */
  lemma KeyIndexSnoc<T, K>(s: seq<T>, f: T -> K, x: T, key: K)
    requires key in Keys(s, f)
    ensures KeyIndex(s + [x], f, key) == KeyIndex(s, f, key)
  {
    var j := KeyIndex(s, f, key);
    KeyIndexUnique(s + [x], f, key, j);
  }

  /** The first indices of the kept keys survive appending one item. */
  lemma KeyIndicesSnoc<T, K>(init: seq<T>, f: T -> K, last: T, p: seq<T>)
    requires Keys(p, f) == Keys(init, f)
    ensures forall k :: 0 <= k < |p| ==> KeyIndex(init + [last], f, f(p[k])) == KeyIndex(init, f, f(p[k]))
  {
    forall k | 0 <= k < |p|
      ensures KeyIndex(init + [last], f, f(p[k])) == KeyIndex(init, f, f(p[k]))
    {
      assert f(p[k]) in Keys(p, f);
      KeyIndexSnoc(init, f, last, f(p[k]));
    }
  }

  /** An item whose key was already seen is dropped. */
  lemma KeptSnocOld<T, K>(init: seq<T>, f: T -> K, last: T, p: seq<T>)
    requires Kept(init, f, p) && f(last) in Keys(init, f)
    ensures Kept(init + [last], f, p)
  {
    var s := init + [last];
    KeysSnoc(init, f, last);
    KeyIndicesSnoc(init, f, last, p);
    forall k | 0 <= k < |p| ensures p[k] == s[KeyIndex(s, f, f(p[k]))] {
      assert s[KeyIndex(init, f, f(p[k]))] == init[KeyIndex(init, f, f(p[k]))];
    }
  }

  /** An item with a new key is kept, at the end. */
  lemma KeptSnocNew<T, K>(init: seq<T>, f: T -> K, last: T, p: seq<T>)
    requires Kept(init, f, p) && f(last) !in Keys(init, f)
    ensures Kept(init + [last], f, p + [last])
  {
    var s := init + [last];
    var r := p + [last];
    KeysSnoc(init, f, last);
    KeysSnoc(p, f, last);
    KeyIndicesSnoc(init, f, last, p);
    KeyIndexUnique(s, f, f(last), |s| - 1);
    forall a, b | 0 <= a < b < |r| ensures f(r[a]) != f(r[b]) {
      if b == |p| { assert f(r[a]) in Keys(p, f); }
    }
    forall k | 0 <= k < |r| ensures r[k] == s[KeyIndex(s, f, f(r[k]))] {
      if k < |p| {
        assert s[KeyIndex(init, f, f(p[k]))] == init[KeyIndex(init, f, f(p[k]))];
      }
    }
    forall a, b | 0 <= a < b < |r| ensures KeyIndex(s, f, f(r[a])) < KeyIndex(s, f, f(r[b])) {
      if b == |p| { assert f(r[a]) in Keys(p, f); }
    }
  }

  function Id<T>(x: T): T { x }

  /** `unique(arr)`: `[...new Set(arr)]`, the distinct items in first-occurrence order. */
  method Unique<T(==)>(arr: seq<T>) returns (r: seq<T>)
    ensures NoDup(r)
    ensures forall x :: x in r <==> x in arr
    ensures forall a, b :: 0 <= a < b < |r| ==> KeyIndex(arr, Id, r[a]) < KeyIndex(arr, Id, r[b])
  {
    r := UniqueBy(arr, Id);
    FirstByKeyDistinct(arr, Id);
    forall x ensures x in r <==> x in arr {
      if x in r { var k :| 0 <= k < |r| && r[k] == x; assert Id(r[k]) in Keys(r, Id); }
      if x in arr { var k :| 0 <= k < |arr| && arr[k] == x; assert Id(arr[k]) in Keys(arr, Id); }
    }
  }

  /** The items of `s` on which `p` gives `keep`, in order. */
  function Filter<T>(s: seq<T>, p: T -> bool, keep: bool): seq<T>
  {
    if |s| == 0 then []
    else
      var init := Filter(s[..|s| - 1], p, keep);
      if p(s[|s| - 1]) == keep then init + [s[|s| - 1]] else init
  }

  lemma {:induction false} FilterMembers<T>(s: seq<T>, p: T -> bool, keep: bool)
    ensures forall x :: x in Filter(s, p, keep) <==> x in s && p(x) == keep
    ensures |Filter(s, p, keep)| <= |s|
  {
    if |s| > 0 {
      FilterMembers(s[..|s| - 1], p, keep);
      assert s == s[..|s| - 1] + [s[|s| - 1]];
    }
  }

  /** The two filters of one predicate split a sequence into a permutation of it. */
  lemma {:induction false} FilterSplits<T>(s: seq<T>, p: T -> bool)
    ensures multiset(Filter(s, p, true)) + multiset(Filter(s, p, false)) == multiset(s)
  {
    if |s| > 0 {
      FilterSplits(s[..|s| - 1], p);
      assert s == s[..|s| - 1] + [s[|s| - 1]];
    }
  }

  /** `partition(arr, predicate)`: one pass pushing each item onto `truthy` or `falsy`. */
  method Partition<T>(arr: seq<T>, p: T -> bool) returns (truthy: seq<T>, falsy: seq<T>)
    ensures multiset(truthy + falsy) == multiset(arr)
    ensures forall x :: x in truthy <==> x in arr && p(x)
    ensures forall x :: x in falsy <==> x in arr && !p(x)
    ensures truthy == Filter(arr, p, true) && falsy == Filter(arr, p, false)
  {
    truthy, falsy := [], [];
    var i := 0;
    while i < |arr|
      invariant 0 <= i <= |arr|
      invariant truthy == Filter(arr[..i], p, true)
      invariant falsy == Filter(arr[..i], p, false)
    {
      assert arr[..i + 1][..i] == arr[..i];
      if p(arr[i]) {
        truthy := truthy + [arr[i]];
      } else {
        falsy := falsy + [arr[i]];
      }
      i := i + 1;
    }
    assert arr[..|arr|] == arr;
    FilterSplits(arr, p);
    FilterMembers(arr, p, true);
    FilterMembers(arr, p, false);
  }

  /** `x` occurs in one of the `others` arrays. */
  predicate InAny<T(==)>(others: seq<seq<T>>, x: T) {
    exists k :: 0 <= k < |others| && x in others[k]
  }

  /** `difference(arr, ...others)`: the items of `arr` that no other array contains,
      in their original order and with their original multiplicity. */
  function Difference<T(==,!new)>(arr: seq<T>, others: seq<seq<T>>): (r: seq<T>)
    ensures forall x :: x in r <==> x in arr && !InAny(others, x)
    ensures forall x :: x in r ==> multiset(r)[x] == multiset(arr)[x]
  {
    var keep := (x: T) => InAny(others, x);
    FilterMembers(arr, keep, false);
    FilterSplits(arr, keep);
    FilterMembers(arr, keep, true);
    Filter(arr, keep, false)
  }

  /** The order of `difference`: an item appended to `arr` is appended to the result
      exactly when no other array holds it. With `Difference([], others) == []` this
      pins the result down item by item. */
  lemma DifferenceSnoc<T(!new)>(arr: seq<T>, x: T, others: seq<seq<T>>)
    ensures Difference([], others) == []
    ensures Difference(arr + [x], others) ==
              Difference(arr, others) + (if InAny(others, x) then [] else [x])
  {
    assert (arr + [x])[..|arr|] == arr;
  }

  /** `move` clamps a start below minus the length to 0, as `splice` does. */
  lemma MoveClampsFrom()
    ensures Move([1, 2, 3], -10, 2) == [2, 3, 1]
  {
  }

  /** `chunk(arr, size)`: consecutive slices of `size` items; a non-positive size
      gives no chunks at all. */
  method Chunk<T>(arr: seq<T>, size: int) returns (r: seq<seq<T>>)
    ensures size <= 0 ==> r == []
    ensures size > 0 ==> Concat(r) == arr
    ensures size > 0 ==> forall k :: 0 <= k < |r| - 1 ==> |r[k]| == size
    ensures forall k :: 0 <= k < |r| ==> 0 < |r[k]| <= size
  {
    if size <= 0 { return []; }
    r := [];
    var i := 0;
    while i < |arr|
      invariant i >= 0
      invariant Concat(r) == arr[..Min(i, |arr|)]
      invariant forall k :: 0 <= k < |r| ==> |r[k]| == size || (k == |r| - 1 && i >= |arr|)
      invariant forall k :: 0 <= k < |r| ==> 0 < |r[k]| <= size
    {
      var piece := Slice(arr, i, i + size);
      assert piece == arr[i..Min(i + size, |arr|)];
      ConcatSnoc(r, piece);
      assert arr[..i] + piece == arr[..Min(i + size, |arr|)];
      r := r + [piece];
      i := i + size;
    }
    assert arr[..Min(i, |arr|)] == arr;
  }

  /** All the items of the chunks, in order. */
  function Concat<T>(chunks: seq<seq<T>>): seq<T> {
    if |chunks| == 0 then [] else Concat(chunks[..|chunks| - 1]) + chunks[|chunks| - 1]
  }

  lemma ConcatSnoc<T>(chunks: seq<seq<T>>, c: seq<T>)
    ensures Concat(chunks + [c]) == Concat(chunks) + c
  {
    assert (chunks + [c])[..|chunks|] == chunks;
  }

  /** `take(arr, n)`: `arr.slice(0, n)`. */
  function Take<T>(arr: seq<T>, n: int): (r: seq<T>)
    ensures n >= 0 ==> r == arr[..Min(n, |arr|)]
  {
    Slice(arr, 0, n)
  }

  /** `drop(arr, n)`: `arr.slice(n)`. */
  function Drop<T>(arr: seq<T>, n: int): (r: seq<T>)
    ensures n >= 0 ==> r == arr[Min(n, |arr|)..]
  {
    SliceFrom(arr, n)
  }

  /** `takeRight(arr, n)`: `arr.slice(max(len - n, 0))`. */
  function TakeRight<T>(arr: seq<T>, n: int): (r: seq<T>)
    ensures n >= 0 ==> |r| == Min(n, |arr|) && r == arr[|arr| - |r|..]
    ensures n < 0 ==> r == []
  {
    SliceFrom(arr, Max(|arr| - n, 0))
  }

  /** `dropRight(arr, n)`: `arr.slice(0, max(len - n, 0))`. */
  function DropRight<T>(arr: seq<T>, n: int): (r: seq<T>)
    ensures n >= 0 ==> |r| == |arr| - Min(n, |arr|) && r == arr[..|r|]
    ensures n < 0 ==> r == arr
  {
    Slice(arr, 0, Max(|arr| - n, 0))
  }

  /** Taking and dropping the same count splits the array, for every count, since a
      negative count makes both calls measure from the end. */
  lemma TakeDropSplit<T>(arr: seq<T>, n: int)
    ensures Take(arr, n) + Drop(arr, n) == arr
    ensures DropRight(arr, n) + TakeRight(arr, n) == arr
  {
    var m := RelIndex(n, |arr|);
    if m > 0 { assert arr[..m] + arr[m..] == arr; }
    var k := RelIndex(Max(|arr| - n, 0), |arr|);
    assert arr[..k] + arr[k..] == arr;
  }

  /** `findIndex(arr, predicate)`: the predicate also receives the index. */
  method FindIndex<T>(arr: seq<T>, p: (T, int) -> bool) returns (r: int)
    ensures -1 <= r < |arr|
    ensures r >= 0 ==> p(arr[r], r) && forall j :: 0 <= j < r ==> !p(arr[j], j)
    ensures r == -1 <==> forall j :: 0 <= j < |arr| ==> !p(arr[j], j)
  {
    var i := 0;
    while i < |arr|
      invariant 0 <= i <= |arr|
      invariant forall j :: 0 <= j < i ==> !p(arr[j], j)
    {
      if p(arr[i], i) { return i; }
      i := i + 1;
    }
    return -1;
  }

  /** `insert(arr, index, ...items)`: `splice(index, 0, ...items)` on a copy. */
  function Insert<T>(arr: seq<T>, index: int, items: seq<T>): (r: seq<T>)
    ensures |r| == |arr| + |items|
    ensures multiset(r) == multiset(arr) + multiset(items)
    ensures r[RelIndex(index, |arr|)..RelIndex(index, |arr|) + |items|] == items
    ensures r[..RelIndex(index, |arr|)] + r[RelIndex(index, |arr|) + |items|..] == arr
  {
    var p := RelIndex(index, |arr|);
    assert arr == arr[..p] + arr[p..];
    var r := arr[..p] + items + arr[p..];
    assert r[..p] == arr[..p] && r[p + |items|..] == arr[p..];
    r
  }

  /** `move(arr, from, to)`: splice one item out at `from`, then back in at `to`.
      `from` is clamped like any `splice` start, so it must only stay below the length;
      `to` is taken relative to the shortened array. */
  function Move<T>(arr: seq<T>, from: int, to: int): (r: seq<T>)
    requires 0 < |arr| && from < |arr|
    ensures |r| == |arr| && multiset(r) == multiset(arr)
    ensures r[RelIndex(to, |arr| - 1)] == arr[RelIndex(from, |arr|)]
    ensures r[..RelIndex(to, |arr| - 1)] + r[RelIndex(to, |arr| - 1) + 1..] ==
              arr[..RelIndex(from, |arr|)] + arr[RelIndex(from, |arr|) + 1..]
  {
    var p, q := RelIndex(from, |arr|), RelIndex(to, |arr| - 1);
    MoveParts(arr, p, q);
    var rest := arr[..p] + arr[p + 1..];
    rest[..q] + [arr[p]] + rest[q..]
  }

  /** Taking the item at `p` out and putting it back at `q`, on plain indices. */
  lemma MoveParts<T>(arr: seq<T>, p: nat, q: nat)
    requires p < |arr| && q < |arr|
    ensures var rest := arr[..p] + arr[p + 1..];
      var r := rest[..q] + [arr[p]] + rest[q..];
      |r| == |arr| && multiset(r) == multiset(arr) && r[q] == arr[p] && r[..q] + r[q + 1..] == rest
  {
    var rest := arr[..p] + arr[p + 1..];
    SpliceMultiset(arr, p);
    InsertMultiset(rest, q, arr[p]);
    RemoveInserted(rest, q, arr[p]);
  }

  lemma SpliceMultiset<T>(a: seq<T>, p: nat)
    requires p < |a|
    ensures multiset(a) == multiset(a[..p] + a[p + 1..]) + multiset{a[p]}
  {
    assert a == a[..p] + [a[p]] + a[p + 1..];
  }

  lemma InsertMultiset<T>(a: seq<T>, q: nat, x: T)
    requires q <= |a|
    ensures multiset(a[..q] + [x] + a[q..]) == multiset(a) + multiset{x}
  {
    assert a == a[..q] + a[q..];
  }

  /** Moving the item back from where it landed to where it came from restores the array. */
  lemma MoveBack<T>(arr: seq<T>, from: int, to: int)
    requires 0 < |arr| && from < |arr|
    ensures Move(Move(arr, from, to), RelIndex(to, |arr| - 1), RelIndex(from, |arr|)) == arr
  {
    var p := RelIndex(from, |arr|);
    var rest := arr[..p] + arr[p + 1..];
    var q := RelIndex(to, |rest|);
    var m := rest[..q] + [arr[p]] + rest[q..];
    assert m == Move(arr, from, to);
    RemoveInserted(rest, q, arr[p]);
    InsertRemoved(arr, p);
  }

  lemma RemoveInserted<T>(rest: seq<T>, q: nat, x: T)
    requires q <= |rest|
    ensures var m := rest[..q] + [x] + rest[q..];
      |m| == |rest| + 1 && m[q] == x && m[..q] + m[q + 1..] == rest
  {
    var m := rest[..q] + [x] + rest[q..];
    assert m[..q] == rest[..q] && m[q + 1..] == rest[q..];
  }

  lemma InsertRemoved<T>(a: seq<T>, p: nat)
    requires p < |a|
    ensures var rest := a[..p] + a[p + 1..];
      |rest| == |a| - 1 && rest[..p] + [a[p]] + rest[p..] == a
  {
    var rest := a[..p] + a[p + 1..];
    assert rest[..p] == a[..p] && rest[p..] == a[p + 1..];
  }

  /** `range(start, end?, step)` over integers: with no `end`, the range runs from 0 to
      `start`; a zero step gives nothing. */
  method Range(start: int, end: Option<int>, step: int) returns (r: seq<int>)
    ensures var (s, e) := if end.None? then (0, start) else (start, end.value);
      && (forall k :: 0 <= k < |r| ==> r[k] == s + k * step)
      && (step > 0 ==> (forall k :: 0 <= k < |r| ==> r[k] < e) && s + |r| * step >= e)
      && (step < 0 ==> (forall k :: 0 <= k < |r| ==> r[k] > e) && s + |r| * step <= e)
      && (step == 0 ==> r == [])
  {
    var s, e := start, 0;
    if end.None? { s, e := 0, start; } else { e := end.value; }
    r := [];
    if step > 0 {
      var i := s;
      while i < e
        invariant i == s + |r| * step
        invariant forall k :: 0 <= k < |r| ==> r[k] == s + k * step && r[k] < e
        decreases e - i
      {
        r := r + [i];
        i := i + step;
      }
    } else if step < 0 {
      var i := s;
      while i > e
        invariant i == s + |r| * step
        invariant forall k :: 0 <= k < |r| ==> r[k] == s + k * step && r[k] > e
        decreases i - e
      {
        r := r + [i];
        i := i + step;
      }
    }
  }

  /** With a positive step the range climbs strictly. */
  lemma RangeIncreasing(r: seq<int>, s: int, step: int)
    requires step > 0
    requires forall k :: 0 <= k < |r| ==> r[k] == s + k * step
    ensures forall a, b :: 0 <= a < b < |r| ==> r[a] < r[b]
  {
    forall a, b | 0 <= a < b < |r| ensures r[a] < r[b] {
      assert r[b] - r[a] == (b - a) * step;
    }
  }
}
