/** Shared vocabulary for the whole model: optional results, duplicate-freedom,
    and the JavaScript conventions for relative indices and the `%` operator. */
module Prelude {

  /** `undefined` / `NaN` results of the library are modelled as `None`. */
  datatype Option<T> = None | Some(value: T)

  /** No value occurs twice in `s`. */
  ghost predicate NoDup<T>(s: seq<T>) {
    forall i, j :: 0 <= i < j < |s| ==> s[i] != s[j]
  }

  function Abs(n: int): nat {
    if n < 0 then -n else n
  }

  function Min(a: int, b: int): int {
    if a <= b then a else b
  }

  function Max(a: int, b: int): int {
    if a >= b then a else b
  }

  /** Index normalisation shared by `Array.prototype.slice`, `String.prototype.slice`
      and `Array.prototype.splice`: a negative index counts back from the end, and the
      result is clamped into `[0, len]`. */
  function RelIndex(i: int, len: nat): nat {
    if i < 0 then (if len + i < 0 then 0 else len + i)
    else if i > len then len
    else i
  }

  /** `s.slice(start, end)`. */
  function Slice<T>(s: seq<T>, start: int, end: int): (r: seq<T>)
    ensures |r| <= |s|
    ensures 0 <= start <= end <= |s| ==> r == s[start..end]
  {
    var a := RelIndex(start, |s|);
    var b := RelIndex(end, |s|);
    if a < b then s[a..b] else []
  }

  /** `s.slice(start)`. */
  function SliceFrom<T>(s: seq<T>, start: int): (r: seq<T>)
    ensures |r| <= |s|
    ensures 0 <= start <= |s| ==> r == s[start..]
  {
    s[RelIndex(start, |s|)..]
  }

  /** JavaScript's `a % b`: the remainder of division truncated toward zero, so it
      takes the sign of the dividend (Dafny's own `%` never returns a negative). */
  function JsRem(a: int, b: int): (r: int)
    requires b != 0
    ensures Abs(r) < Abs(b)
    ensures r % b == a % b
    ensures a >= 0 ==> r >= 0
    ensures a <= 0 ==> r <= 0
  {
    ModUnique(a % b, b, 0, a % b);
    if a >= 0 || a % b == 0 then a % b
    else
      NegativeRem(a, b);
      a % b - Abs(b)
  }

  /** For a negative dividend not divisible by `b`, the truncated remainder is the
      Euclidean one shifted down by `|b|`. */
  lemma NegativeRem(a: int, b: int)
    requires b != 0 && a % b != 0
    ensures var r: int := a % b - Abs(b); r < 0 && Abs(r) < Abs(b) && r % b == a % b
  {
    var x := a % b;
    ModUnique(x, b, 0, x);
    if b > 0 {
      ModUnique(x - b, b, -1, x);
    } else {
      ModUnique(x + b, b, 1, x);
    }
  }

  lemma MulAbsBound(b: int, d: int)
    requires b != 0 && d != 0
    ensures Abs(b * d) >= Abs(b)
  {
    if b > 0 && d > 0 {
      MulGrows(b, d);
    } else if b > 0 {
      MulGrows(b, -d);
      assert b * d == -(b * -d);
    } else if d > 0 {
      MulGrows(-b, d);
      assert b * d == -((-b) * d);
    } else {
      MulGrows(-b, -d);
      assert b * d == (-b) * (-d);
    }
  }

  lemma {:induction false} MulGrows(x: int, y: int)
    requires x > 0 && y > 0
    ensures x * y >= x
  {
    if y > 1 {
      MulGrows(x, y - 1);
      assert x * y == x * (y - 1) + x;
    }
  }

  /** The Euclidean remainder is the only `r` in `[0, |b|)` with `a == b * q + r`. */
  lemma ModUnique(a: int, b: int, q: int, r: int)
    requires b != 0
    requires a == b * q + r && 0 <= r < Abs(b)
    ensures a % b == r
  {
    var q', r' := a / b, a % b;
    assert a == b * q' + r';
    assert b * (q - q') == r' - r;
    if q != q' {
      MulAbsBound(b, q - q');
    }
  }

  /** ... and the Euclidean quotient is then `q`. */
  lemma DivUnique(a: int, b: int, q: int, r: int)
    requires b != 0
    requires a == b * q + r && 0 <= r < Abs(b)
    ensures a % b == r && a / b == q
  {
    var q', r' := a / b, a % b;
    assert a == b * q' + r';
    assert b * (q - q') == r' - r;
    if q != q' {
      MulAbsBound(b, q - q');
    }
  }

  /** `set.add(x)` on a JavaScript `Set`, kept as a sequence in insertion order. */
  function Added<T(==)>(s: seq<T>, x: T): (r: seq<T>)
    ensures x in r && (forall y :: y in s ==> y in r)
    ensures forall y :: y in r ==> y in s || y == x
    ensures NoDup(s) ==> NoDup(r)
    ensures x in s ==> r == s
    ensures x !in s ==> |r| == |s| + 1 && r[..|s|] == s && r[|s|] == x
  {
    if x in s then s else s + [x]
  }

  /** `set.delete(x)` on a JavaScript `Set` kept in insertion order. */
  function Without<T(==)>(s: seq<T>, x: T): (r: seq<T>)
    ensures forall y :: y in r ==> y in s && y != x
    ensures forall y :: y in s && y != x ==> y in r
    ensures NoDup(s) ==> NoDup(r)
    ensures NoDup(s) && x in s ==> |r| == |s| - 1
    ensures x !in s ==> r == s
    ensures forall i :: 0 <= i < |s| && s[i] == x && NoDup(s) ==> r == s[..i] + s[i + 1..]
  {
    if |s| == 0 then []
    else if s[0] == x then
      assert NoDup(s) ==> x !in s[1..];
      Without(s[1..], x)
    else
      var rest := Without(s[1..], x);
      assert NoDup(s) ==> NoDup([s[0]] + rest) by {
        if NoDup(s) {
          assert NoDup(s[1..]);
          assert s[0] !in s[1..];
          assert s[0] !in rest;
        }
      }
      DropAfterHead(s);
      [s[0]] + rest
  }

  /** Dropping position `i > 0` is keeping the head and dropping `i - 1` from the tail. */
  lemma DropAfterHead<T>(s: seq<T>)
    ensures forall i :: 0 < i < |s| ==> s[..i] + s[i + 1..] == [s[0]] + (s[1..][..i - 1] + s[1..][i..])
  {
    forall i | 0 < i < |s|
      ensures s[..i] + s[i + 1..] == [s[0]] + (s[1..][..i - 1] + s[1..][i..])
    {
      assert s[..i] == [s[0]] + s[1..][..i - 1];
    }
  }

  /** Chains two conservation facts of the form "what came out, then what remains, is
      what was there plus what arrived": one step followed by the rest of a run. */
  lemma Regroup<T>(t: seq<T>, p1: seq<T>, p2: seq<T>, h1: seq<T>, q1: seq<T>, h2: seq<T>, q2: seq<T>)
    requires h1 + q1 == t + p1 && h2 + q2 == q1 + p2
    ensures (h1 + h2) + q2 == t + (p1 + p2)
  {
    calc {
      (h1 + h2) + q2;
      h1 + (q1 + p2);
      (t + p1) + p2;
    }
  }

  /** Cutting a sequence in two and joining the halves gives it back. */
  lemma SplitJoin<T>(s: seq<T>, k: int)
    requires 0 <= k <= |s|
    ensures s[..k] + s[k..] == s
  {
  }

  /** Being a prefix is transitive. */
  lemma PrefixTrans<T>(a: seq<T>, b: seq<T>, c: seq<T>)
    requires |a| <= |b| <= |c| && b[..|a|] == a && c[..|b|] == b
    ensures c[..|a|] == a
  {
    assert c[..|a|] == c[..|b|][..|a|];
  }
}
