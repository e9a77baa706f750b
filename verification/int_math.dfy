/** The integer part of the math helpers: `clamp`, `mod`, `isPrime`, `gcd`, `lcm`,
    `factorial`, `fibonacci` and `sign`. JavaScript numbers are modelled as
    unbounded integers and `NaN` results as `None`. */
module IntMath {
  import opened Prelude

  /** `clamp(value, min, max)`: `Math.min(Math.max(value, min), max)`. */
  function Clamp(value: int, lo: int, hi: int): (r: int)
    ensures lo <= hi ==> lo <= r <= hi
    ensures lo <= value <= hi ==> r == value
    ensures value < lo && lo <= hi ==> r == lo
    ensures value > hi ==> r == hi
    ensures lo > hi ==> r == hi
  {
    Min(Max(value, lo), hi)
  }

  /** `mod(n, m)`: `((n % m) + m) % m` with JavaScript's truncating `%`; a zero
      modulus gives `NaN`. The result lies between 0 and `m` on `m`'s side of zero
      and is congruent to `n`. */
  function Mod(n: int, m: int): (r: Option<int>)
    ensures m == 0 <==> r.None?
    ensures m > 0 ==> r.Some? && 0 <= r.value < m && r.value == n % m
    ensures m < 0 ==> r.Some? && m < r.value <= 0 && (r.value - n) % m == 0
  {
    if m == 0 then None
    else
      var x := JsRem(n, m);
      var y := x + m;
      ShiftMod(x, m);
      var r := JsRem(y, m);
      assert m < 0 ==> (r - n) % m == 0 by {
        if m < 0 {
          assert r % m == x % m == n % m;
          SameModDiff(r, n, m);
        }
      }
      Some(r)
  }

  lemma ShiftMod(x: int, m: int)
    requires m != 0
    ensures (x + m) % m == x % m
  {
    ModUnique(x + m, m, x / m + 1, x % m);
  }

  lemma SameModDiff(a: int, b: int, m: int)
    requires m != 0 && a % m == b % m
    ensures (a - b) % m == 0
  {
    ModUnique(a - b, m, a / m - b / m, 0);
  }

  /** Truth of "prime", stated without any search strategy. */
  ghost predicate Prime(n: int) {
    n >= 2 && forall d :: 2 <= d < n ==> !Divides(d, n)
  }

  predicate Divides(d: int, n: int)
    requires d > 0
  {
    n % d == 0
  }

  /** `isPrime(n)`: reject below 2, accept 2, reject other even numbers, then try odd
      divisors up to the square root. */
  method IsPrime(n: int) returns (r: bool)
    ensures r <==> Prime(n)
  {
    if n < 2 { return false; }
    if n == 2 { return true; }
    if n % 2 == 0 { assert Divides(2, n); return false; }
    r := OddTrial(n);
  }

  /** The `for (let i = 3; i <= Math.sqrt(n); i += 2)` loop, for odd `n >= 3`. */
  method OddTrial(n: int) returns (r: bool)
    requires n >= 3 && n % 2 == 1
    ensures r <==> forall d :: 2 <= d < n ==> !Divides(d, n)
  {
    OddHasNoEvenDivisor(n, 2);
    var i := 3;
    while i * i <= n
      invariant 3 <= i && i % 2 == 1
      invariant forall d :: 2 <= d < i ==> !Divides(d, n)
    {
      if n % i == 0 {
        assert i * i >= 3 * i;
        assert Divides(i, n);
        return false;
      }
      OddStep(n, i);
      i := i + 2;
    }
    NoSmallDivisor(n, i);
    return true;
  }

  /** Trying odd divisors only is enough for an odd `n`. */
  lemma OddStep(n: int, i: int)
    requires n % 2 == 1 && i >= 3 && i % 2 == 1 && !Divides(i, n)
    requires forall d :: 2 <= d < i ==> !Divides(d, n)
    ensures forall d :: 2 <= d < i + 2 ==> !Divides(d, n)
  {
    OddHasNoEvenDivisor(n, i + 1);
  }

  lemma OddHasNoEvenDivisor(n: int, d: int)
    requires n % 2 == 1 && d >= 2 && d % 2 == 0
    ensures !Divides(d, n)
  {
    if n % d == 0 {
      var k := n / d;
      assert n == d * k;
      ModUnique(n, 2, (d / 2) * k, 0);
    }
  }

  /** A composite number has a divisor no greater than its square root. */
  lemma NoSmallDivisor(n: int, i: int)
    requires i >= 2 && i * i > n
    requires forall d :: 2 <= d < i ==> !Divides(d, n)
    ensures forall d :: 2 <= d < n ==> !Divides(d, n)
  {
    forall d | 2 <= d < n ensures !Divides(d, n) {
      if d >= i && Divides(d, n) {
        SmallCofactor(n, d, i);
        assert false;
      }
    }
  }

  /** The cofactor of a divisor at or above the square root lies below it. */
  lemma SmallCofactor(n: int, d: int, i: int)
    requires 2 <= i <= d < n && i * i > n && Divides(d, n)
    ensures 2 <= n / d < i && Divides(n / d, n)
  {
    var e := n / d;
    assert n == d * e;
    MulNonPos(d, e - 1);
    MulAtLeast(i, d, e);
    ExactDiv(n, e, d);
  }

  /** `x * y <= x` whenever `y <= 0`... shifted: `x * (y + 1) <= x` for `y <= 0`. */
  lemma MulNonPos(x: int, y: int)
    requires x > 0
    ensures y <= 0 ==> x * (y + 1) <= x
  {
    if y <= 0 { assert x * (y + 1) == x + x * y; assert x * (-y) >= 0; }
  }

  lemma MulAtLeast(i: int, d: int, e: int)
    requires 0 < i <= d
    ensures e >= i ==> d * e >= i * i
  {
    if e >= i {
      assert d * e - i * e == (d - i) * e;
      assert i * e - i * i == i * (e - i);
    }
  }

  /** A product divided by one factor gives the other. */
  lemma ExactDiv(p: int, g: int, k: int)
    requires g > 0 && p == k * g
    ensures p % g == 0 && p / g == k
  {
    DivUnique(p, g, k, 0);
  }

  /** The `while (b)` loop of `gcd` on non-negative operands. */
  function Euclid(a: nat, b: nat): (r: nat)
    ensures a == 0 && b == 0 <==> r == 0
    ensures r > 0 ==> Divides(r, a) && Divides(r, b)
    ensures r > 0 ==> forall d :: d > 0 && Divides(d, a) && Divides(d, b) ==> Divides(d, r)
    decreases b
  {
    if b == 0 then a
    else
      var r := Euclid(b, a % b);
      assert a == b * (a / b) + a % b;
      assert r > 0 ==> Divides(r, a) && forall d :: d > 0 && Divides(d, a) && Divides(d, b) ==> Divides(d, a % b) by {
        if r > 0 {
          CombinationDivisible(r, b, a % b, a / b);
          forall d | d > 0 && Divides(d, a) && Divides(d, b) ensures Divides(d, a % b) {
            assert a % b == a + b * (-(a / b));
            CombinationDivisible(d, b, a, -(a / b));
          }
        }
      }
      r
  }

  /** If `d` divides `x` and `y`, it divides `y * q + x`. */
  lemma CombinationDivisible(d: int, y: int, x: int, q: int)
    requires d > 0 && Divides(d, y) && Divides(d, x)
    ensures Divides(d, y * q + x)
  {
    var ky, kx := y / d, x / d;
    assert y == d * ky && x == d * kx;
    assert y * q + x == d * (ky * q + kx);
    ModUnique(y * q + x, d, ky * q + kx, 0);
  }

  /** `gcd(a, b)`: Euclid's loop on the absolute values. The result is a common
      divisor that every common divisor divides, hence the greatest. */
  function Gcd(a: int, b: int): (r: nat)
    ensures a == 0 && b == 0 <==> r == 0
    ensures r > 0 ==> Divides(r, a) && Divides(r, b)
    ensures r > 0 ==> forall d :: d > 0 && Divides(d, a) && Divides(d, b) ==> d <= r
  {
    var r := Euclid(Abs(a), Abs(b));
    assert r > 0 ==> Divides(r, a) && Divides(r, b) && forall d :: d > 0 && Divides(d, a) && Divides(d, b) ==> d <= r by {
      if r > 0 {
        AbsDivides(r, a);
        AbsDivides(r, b);
        forall d | d > 0 && Divides(d, a) && Divides(d, b) ensures d <= r {
          AbsDivides(d, a);
          AbsDivides(d, b);
          DivisorBound(d, r);
        }
      }
    }
    r
  }

  /** Divisibility ignores sign. */
  lemma AbsDivides(d: int, n: int)
    requires d > 0
    ensures Divides(d, n) <==> Divides(d, Abs(n))
  {
    if n < 0 {
      if Divides(d, n) { ModUnique(-n, d, -(n / d), 0); }
      if Divides(d, -n) { ModUnique(n, d, -((-n) / d), 0); }
    }
  }

  lemma DivisorBound(d: int, n: int)
    requires d > 0 && n > 0 && Divides(d, n)
    ensures d <= n
  {
    var k := n / d;
    assert n == d * k;
    MulNonPos(d, k - 1);
    assert d * k == d * (k - 1) + d;
  }

  /** `lcm(a, b)`: `Math.abs(a * b) / gcd(a, b)`; both operands zero is `0 / 0`, `NaN`.
      The division is exact, and the result is a multiple of both operands. */
  function Lcm(a: int, b: int): (r: Option<nat>)
    ensures a == 0 && b == 0 <==> r.None?
    ensures r.Some? ==> r.value * Gcd(a, b) == Abs(a * b)
    ensures r.Some? && a != 0 ==> Divides(Abs(a), r.value)
    ensures r.Some? && b != 0 ==> Divides(Abs(b), r.value)
  {
    var g := Gcd(a, b);
    if g == 0 then None
    else
      LcmExact(a, b, g);
      Some(Abs(a * b) / g)
  }

  lemma LcmExact(a: int, b: int, g: nat)
    requires g == Gcd(a, b) && g > 0
    ensures (Abs(a * b) / g) * g == Abs(a * b)
    ensures a != 0 ==> Divides(Abs(a), Abs(a * b) / g)
    ensures b != 0 ==> Divides(Abs(b), Abs(a * b) / g)
  {
    AbsDivides(g, b);
    AbsDivides(g, a);
    AbsMul(a, b);
    var A, B := Abs(a), Abs(b);
    var ka, kb := A / g, B / g;
    assert A == g * ka && B == g * kb;
    ProductOverFactor(A, B, g, ka, kb);
    ExactDiv(A * B, g, A * kb);
    if a != 0 { ExactDiv(A * kb, A, kb); }
    if b != 0 { ExactDiv(A * kb, B, ka); }
  }

  lemma ProductOverFactor(A: int, B: int, g: int, ka: int, kb: int)
    requires A == g * ka && B == g * kb
    ensures A * B == (A * kb) * g
    ensures A * kb == kb * A == ka * B
  {
  }

  lemma AbsMul(a: int, b: int)
    ensures Abs(a * b) == Abs(a) * Abs(b)
  {
    if a < 0 && b < 0 { assert a * b == (-a) * (-b); }
    else if a < 0 { assert a * b == -((-a) * b); }
    else if b < 0 { assert a * b == -(a * (-b)); }
  }

  /** The recurrence `n! = n * (n - 1)!` with `0! = 1`. */
  function Fact(n: nat): nat {
    if n == 0 then 1 else n * Fact(n - 1)
  }

  /** `factorial(n)`: `NaN` below zero, otherwise the product `2 * 3 * ... * n`. */
  method Factorial(n: int) returns (r: Option<int>)
    ensures n < 0 <==> r.None?
    ensures n >= 0 ==> r == Some(Fact(n))
  {
    if n < 0 { return None; }
    if n == 0 || n == 1 { return Some(1); }
    var result := 1;
    var i := 2;
    while i <= n
      invariant 2 <= i <= n + 1
      invariant result == Fact(i - 1)
    {
      result := result * i;
      i := i + 1;
    }
    return Some(result);
  }

  /** The recurrence `F(n) = F(n - 1) + F(n - 2)` with `F(0) = 0`, `F(1) = 1`. */
  function Fib(n: nat): nat {
    if n <= 1 then n else Fib(n - 1) + Fib(n - 2)
  }

  /** `fibonacci(n)`: `NaN` below zero, otherwise the pair `(a, b)` stepped `n - 1` times. */
  method Fibonacci(n: int) returns (r: Option<int>)
    ensures n < 0 <==> r.None?
    ensures n >= 0 ==> r == Some(Fib(n))
  {
    if n < 0 { return None; }
    if n <= 1 { return Some(n); }
    var a, b := 0, 1;
    var i := 2;
    while i <= n
      invariant 2 <= i <= n + 1
      invariant a == Fib(i - 2) && b == Fib(i - 1)
    {
      a, b := b, a + b;
      i := i + 1;
    }
    return Some(b);
  }

  /** `sign(n)`: -1, 0 or 1, and multiplying it by the magnitude gives `n` back. */
  function Sign(n: int): (r: int)
    ensures r == -1 || r == 0 || r == 1
    ensures r == 0 <==> n == 0
    ensures r * Abs(n) == n
  {
    if n > 0 then 1 else if n < 0 then -1 else 0
  }
}
