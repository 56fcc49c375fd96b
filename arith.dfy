/** Exact integer arithmetic shared by the number types: divisibility, the greatest common
    divisor, reduced fractions, signs and powers of two. */
module Arith {
  function Abs(n: int): nat
  {
    if n < 0 then -n else n
  }

  /** `signum`: -1, 0 or 1. */
  function Sign(n: int): int
  {
    if n < 0 then -1 else if n == 0 then 0 else 1
  }

  lemma SignAbs(n: int)
    ensures Abs(n) * Sign(n) == n && Sign(n) * Sign(n) == (if n == 0 then 0 else 1)
  {
  }

  /** `k` divides every multiple of itself. */
  lemma MultipleMod(k: int, m: int)
    requires k > 0
    ensures (k * m) % k == 0 && (k * m) / k == m
  {
    var q, r := (k * m) / k, (k * m) % k;
    assert k * m == k * q + r && 0 <= r < k;
    var t := m - q;
    assert k * t == r;
    assert t >= 1 ==> k * t >= k * 1;
    assert t <= -1 ==> k * t <= k * -1;
  }

  /** A number divisible by `k` is `k` times its quotient. */
  lemma DivExact(n: int, k: int)
    requires k > 0 && n % k == 0
    ensures n == k * (n / k)
  {
  }

  /** Divisibility is closed under linear combination. */
  lemma DividesLinear(k: int, x: int, y: int, c: int)
    requires k > 0 && x % k == 0 && y % k == 0
    ensures (c * x + y) % k == 0
  {
    DivExact(x, k);
    DivExact(y, k);
    var p, q := x / k, y / k;
    assert c * x + y == k * (c * p + q) by {
      assert c * x == c * (k * p) == k * (c * p);
    }
    MultipleMod(k, c * p + q);
  }

  /** A divisor of a positive number is not larger than it. */
  lemma DivisorBound(k: int, n: int)
    requires k > 0 && n > 0 && n % k == 0
    ensures k <= n
  {
    DivExact(n, k);
    var q := n / k;
    assert q <= 0 ==> k * q <= 0;
    assert q >= 1 ==> k * q >= k * 1;
  }

  /** Euclid's algorithm; `gcd(0, 0)` is 0. */
  function Gcd(a: nat, b: nat): nat
    decreases b
  {
    if b == 0 then a else Gcd(b, a % b)
  }

  /** The gcd of two numbers, not both zero, is positive and divides both. */
  lemma {:induction false} GcdDivides(a: nat, b: nat)
    requires a > 0 || b > 0
    ensures Gcd(a, b) > 0 && a % Gcd(a, b) == 0 && b % Gcd(a, b) == 0
    decreases b
  {
    if b == 0 {
      MultipleMod(a, 1);
      MultipleMod(a, 0);
    } else {
      GcdDivides(b, a % b);
      var g := Gcd(b, a % b);
      assert a == (a / b) * b + a % b;
      DividesLinear(g, b, a % b, a / b);
    }
  }

  /** Every common divisor divides the gcd. */
  lemma {:induction false} GcdGreatest(a: nat, b: nat, k: int)
    requires k > 0 && a % k == 0 && b % k == 0
    ensures Gcd(a, b) % k == 0
    decreases b
  {
    if b != 0 {
      assert a % b == -(a / b) * b + a;
      DividesLinear(k, b, a, -(a / b));
      GcdGreatest(b, a % b, k);
    }
  }

  /** `k` divides `n` exactly when it divides `|n|`. */
  lemma AbsMod(n: int, k: int)
    requires k > 0
    ensures n % k == 0 <==> Abs(n) % k == 0
  {
    if n % k == 0 {
      DividesLinear(k, n, 0, Sign(n));
      SignAbs(n);
    }
    if Abs(n) % k == 0 {
      DividesLinear(k, Abs(n), 0, Sign(n));
      SignAbs(n);
    }
  }

  /** The fraction n/d with d > 0 is in lowest terms: no k > 1 divides both. */
  ghost predicate Reduced(n: int, d: int)
  {
    d > 0 && forall k: int :: 1 < k ==> !(n % k == 0 && d % k == 0)
  }

  /** n/g and d/g, for g the gcd of |n| and d, have no common divisor above 1. */
  lemma QuotientsReduced(n: int, d: int)
    requires d > 0
    ensures var g := Gcd(Abs(n), d); g > 0 && Reduced(n / g, d / g)
  {
    var g := Gcd(Abs(n), d);
    GcdDivides(Abs(n), d);
    AbsMod(n, g);
    DivExact(n, g);
    DivExact(d, g);
    var dq := d / g;
    assert dq <= 0 ==> g * dq <= 0;
    forall k: int | 1 < k ensures !((n / g) % k == 0 && (d / g) % k == 0) {
      if (n / g) % k == 0 && (d / g) % k == 0 {
        CommonFactor(n, d, g, k);
      }
    }
  }

  /** A common divisor k of n/g and d/g makes g * k a common divisor of n and d, so it
      divides their gcd g: k is 1. */
  lemma CommonFactor(n: int, d: int, g: int, k: int)
    requires d > 0 && 0 < k && g == Gcd(Abs(n), d) && g > 0
    requires n % g == 0 && d % g == 0 && (n / g) % k == 0 && (d / g) % k == 0
    ensures k <= 1
  {
    var p, q := n / g, d / g;
    DivExact(n, g);
    DivExact(d, g);
    DivExact(p, k);
    DivExact(q, k);
    var gk := g * k;
    MulAssoc(g, k, p / k);
    MulAssoc(g, k, q / k);
    MultipleMod(gk, p / k);
    MultipleMod(gk, q / k);
    AbsMod(n, gk);
    GcdGreatest(Abs(n), d, gk);
    DivisorBound(gk, g);
    MulCancel(g, k);
  }

  lemma MulAssoc(a: int, b: int, c: int)
    ensures a * (b * c) == (a * b) * c
  {
  }

  lemma MulDistrib(x: int, y: int, c: int)
    ensures (x + y) * c == x * c + y * c
  {
  }

  lemma MulCancel(g: int, k: int)
    requires g > 0 && g * k <= g
    ensures k <= 1
  {
    assert k >= 2 ==> g * k >= g * 2;
  }

  /** A fraction already in lowest terms has gcd 1. */
  lemma ReducedGcd(n: int, d: int)
    requires Reduced(n, d)
    ensures Gcd(Abs(n), d) == 1
  {
    var g := Gcd(Abs(n), d);
    GcdDivides(Abs(n), d);
    AbsMod(n, g);
  }

  function Pow2(e: nat): nat
  {
    if e == 0 then 1 else 2 * Pow2(e - 1)
  }

  /** `trailing_zeros` of a positive number: how often 2 divides it. */
  function TrailingZeros(n: nat): (e: nat)
    requires n > 0
    ensures n == Pow2(e) * OddPart(n)
  {
    if n % 2 == 1 then 0
    else
      var e := TrailingZeros(n / 2);
      var o := OddPart(n / 2);
      assert n == 2 * (Pow2(e) * o);
      assert OddPart(n) == o && Pow2(1 + e) == 2 * Pow2(e);
      MulAssoc(2, Pow2(e), o);
      1 + e
  }

  /** What is left of a positive number once every factor 2 is divided out. */
  function OddPart(n: nat): (o: nat)
    requires n > 0
    ensures o % 2 == 1
  {
    if n % 2 == 1 then n else OddPart(n / 2)
  }

  /** Euclidean division is unique. */
  lemma DivModUnique(x: int, m: int, q: int, r: int)
    requires m > 0 && x == q * m + r && 0 <= r < m
    ensures x / m == q && x % m == r
  {
    var q', r' := x / m, x % m;
    var t := q - q';
    assert t * m == r' - r;
    assert t >= 1 ==> t * m >= 1 * m;
    assert t <= -1 ==> t * m <= -1 * m;
  }

  /** Scaling both operands scales the remainder. */
  lemma ModScale(a: nat, b: nat, c: nat)
    requires b > 0 && c > 0
    ensures (a * c) % (b * c) == (a % b) * c
  {
    var q, r := a / b, a % b;
    ScaleSum(a, b, c, q, r);
    ScaleLess(r, b, c);
    DivModUnique(a * c, b * c, q, r * c);
  }

  lemma ScaleSum(a: int, b: int, c: int, q: int, r: int)
    requires a == q * b + r
    ensures a * c == q * (b * c) + r * c
  {
    MulDistrib(q * b, r, c);
    MulAssoc(q, b, c);
  }

  lemma ScaleLess(r: int, b: int, c: int)
    requires 0 <= r < b && c > 0
    ensures 0 <= r * c < b * c
  {
    MulDistrib(r, b - r, c);
    assert (b - r) * c >= 1 * c;
  }

  /** gcd(a c, b c) = gcd(a, b) c. */
  lemma {:induction false} GcdScale(a: nat, b: nat, c: nat)
    requires c > 0
    ensures Gcd(a * c, b * c) == Gcd(a, b) * c
    decreases b
  {
    if b != 0 {
      assert b * c > 0;
      ModScale(a, b, c);
      GcdScale(b, a % b, c);
    }
  }

  /** A number coprime to `a` that divides `a c` divides `c`. */
  lemma CoprimeDivides(a: nat, b: nat, c: nat)
    requires b > 0 && c > 0 && Gcd(a, b) == 1 && (a * c) % b == 0
    ensures c % b == 0
  {
    MultipleMod(b, c);
    assert (b * c) % b == 0;
    GcdGreatest(a * c, b * c, b);
    GcdScale(a, b, c);
  }

  /** Two fractions in lowest terms with the same value are the same fraction. */
  lemma ReducedUnique(n1: int, d1: int, n2: int, d2: int)
    requires Reduced(n1, d1) && Reduced(n2, d2) && n1 * d2 == n2 * d1
    ensures n1 == n2 && d1 == d2
  {
    DividesOther(n1, d1, n2, d2);
    DividesOther(n2, d2, n1, d1);
    DivisorBound(d1, d2);
    DivisorBound(d2, d1);
    assert (n1 - n2) * d1 == 0;
  }

  /** The denominator of a fraction in lowest terms divides the denominator of every
      fraction with the same value. */
  lemma DividesOther(n1: int, d1: int, n2: int, d2: int)
    requires Reduced(n1, d1) && d2 > 0 && n1 * d2 == n2 * d1
    ensures d2 % d1 == 0
  {
    ReducedGcd(n1, d1);
    MultipleMod(d1, n2);
    assert (n1 * d2) % d1 == 0 by {
      assert n1 * d2 == d1 * n2;
    }
    AbsMod(n1 * d2, d1);
    assert Abs(n1 * d2) == Abs(n1) * d2;
    CoprimeDivides(Abs(n1), d1, d2);
  }

  /** A fraction with a non-zero denominator in lowest terms, the sign on the numerator. */
  function Reduce(n: int, d: int): (r: (int, int))
    requires d != 0
    ensures Reduced(r.0, r.1) && r.0 * d == n * r.1
  {
    var n', d' := if d < 0 then -n else n, if d < 0 then -d else d;
    var g := Gcd(Abs(n'), d');
    GcdDivides(Abs(n'), d');
    AbsMod(n', g);
    QuotientsReduced(n', d');
    ExactCross(n', d', g);
    (n' / g, d' / g)
  }

  lemma ExactCross(n: int, d: int, g: int)
    requires g > 0 && n % g == 0 && d % g == 0
    ensures (n / g) * d == n * (d / g)
  {
    DivExact(n, g);
    DivExact(d, g);
    var p, q := n / g, d / g;
    MulAssoc(p, g, q);
    MulAssoc(g, p, q);
  }

  /** Reducing a fraction already in lowest terms gives it back. */
  lemma ReduceReduced(n: int, d: int)
    requires Reduced(n, d)
    ensures Reduce(n, d) == (n, d)
  {
    ReducedGcd(n, d);
  }

  /** A fraction whose gcd is 1 is in lowest terms. */
  lemma GcdOneReduced(n: int, d: int)
    requires d > 0 && Gcd(Abs(n), d) == 1
    ensures Reduced(n, d)
  {
    forall k: int | 1 < k ensures !(n % k == 0 && d % k == 0) {
      if n % k == 0 && d % k == 0 {
        AbsMod(n, k);
        GcdGreatest(Abs(n), d, k);
        DivisorBound(k, 1);
      }
    }
  }
}
