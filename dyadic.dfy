/** Dyadic rational numbers (src/dyadic_rational_number.rs): a fraction of two `i32`s kept
    in lowest terms with a positive denominator. Arithmetic that overflows `i32` panics in a
    debug build; the operations require that it does not. */
module DyadicRational {
  import opened Outcome
  import opened Arith

  const I32_MIN: int := -0x8000_0000
  const I32_MAX: int := 0x7fff_ffff

  predicate IsI32(n: int)
  {
    I32_MIN <= n <= I32_MAX
  }

  /** `abs` panics on `i32::MIN`: a value whose absolute value is an `i32`. */
  predicate AbsFits(n: int)
  {
    IsI32(n) && n != I32_MIN
  }

  datatype Dyadic = Dyadic(numerator: int, denominator: int)

  /** Every value the constructors build: two `i32`s in lowest terms, denominator > 0. */
  ghost predicate Valid(q: Dyadic)
  {
    IsI32(q.numerator) && IsI32(q.denominator) && Reduced(q.numerator, q.denominator)
  }

  /** a/b and c/d are the same rational number. */
  predicate SameValue(a: int, b: int, c: int, d: int)
  {
    a * d == c * b
  }

  /** `normalized`: both fields divided by the gcd of their absolute values. Dividing by an
      exact divisor, Rust's truncating `/` and Dafny's agree. The result is in lowest terms
      (for a positive denominator), has the same value and keeps the sign of the
      numerator. */
  function Normalized(q: Dyadic): (r: Dyadic)
    requires AbsFits(q.numerator) && AbsFits(q.denominator) && q.denominator != 0
    ensures IsI32(r.numerator) && IsI32(r.denominator)
    ensures SameValue(r.numerator, r.denominator, q.numerator, q.denominator)
    ensures Sign(r.numerator) == Sign(q.numerator) && Sign(r.denominator) == Sign(q.denominator)
    ensures q.denominator > 0 ==> Reduced(r.numerator, r.denominator)
  {
    var g := Gcd(Abs(q.numerator), Abs(q.denominator));
    GcdDivides(Abs(q.numerator), Abs(q.denominator));
    AbsMod(q.numerator, g);
    AbsMod(q.denominator, g);
    var r := Dyadic(q.numerator / g, q.denominator / g);
    QuotientFacts(q.numerator, g);
    QuotientFacts(q.denominator, g);
    ExactCross(q.numerator, q.denominator, g);
    if q.denominator > 0 then
      QuotientsReduced(q.numerator, q.denominator);
      r
    else
      r
  }

  /** Dividing by a positive exact divisor keeps the sign and does not grow the magnitude. */
  lemma QuotientFacts(n: int, g: int)
    requires g > 0 && n % g == 0
    ensures Sign(n / g) == Sign(n) && Abs(n / g) <= Abs(n)
  {
    DivExact(n, g);
    MulSign(g, n / g);
  }

  lemma MulSign(g: int, p: int)
    requires g > 0
    ensures Sign(g * p) == Sign(p) && Abs(p) <= Abs(g * p)
  {
    assert p >= 1 ==> g * p >= p;
    assert p <= -1 ==> g * p <= p;
    assert p == 0 ==> g * p == 0;
  }

  /** Normalizing a value already in lowest terms changes nothing; in particular
      normalizing twice is normalizing once. */
  lemma NormalizedIdentity(q: Dyadic)
    requires Valid(q) && AbsFits(q.numerator)
    ensures Normalized(q) == q
  {
    ReducedGcd(q.numerator, q.denominator);
  }

  /** `rational`: nothing for a zero denominator, 0/1 for a zero numerator, and otherwise
      the sign moved to the numerator and the fraction normalized. No check is made that
      the denominator is a power of two. */
  function Rational(n: int, d: int): (r: Option<Dyadic>)
    requires IsI32(n) && IsI32(d)
    requires n != 0 && d != 0 ==> AbsFits(n) && AbsFits(d)
    ensures r.None? <==> d == 0
    ensures d != 0 && n == 0 ==> r == Some(Dyadic(0, 1))
    ensures r.Some? ==> Valid(r.value)
    ensures r.Some? ==> Sign(r.value.numerator) == Sign(n) * Sign(d)
    ensures r.Some? ==> SameValue(r.value.numerator, r.value.denominator, n, d)
  {
    if d == 0 then None
    else if n == 0 then
      assert forall k: int :: 1 < k ==> 1 % k != 0;
      Some(Dyadic(0, 1))
    else
      var sign := Sign(n) * Sign(d);
      var q := Dyadic(Abs(n) * sign, Abs(d));
      var r := Normalized(q);
      SignAbs(n);
      SignAbs(d);
      RationalValue(n, d, r);
      Some(r)
  }

  lemma RationalValue(n: int, d: int, r: Dyadic)
    requires d != 0
    requires SameValue(r.numerator, r.denominator, Abs(n) * (Sign(n) * Sign(d)), Abs(d))
    ensures SameValue(r.numerator, r.denominator, n, d)
  {
    SignAbs(n);
    SignAbs(d);
  }

  /** `From<i32>`: n/1. */
  function FromInt(n: int): (r: Dyadic)
    requires IsI32(n)
    ensures Valid(r) && SameValue(r.numerator, r.denominator, n, 1)
  {
    assert forall k: int :: 1 < k ==> 1 % k != 0;
    Dyadic(n, 1)
  }

  /** `to_integer`: the numerator when the denominator is 1. For a value in lowest terms
      that is exactly when the value is an integer. */
  function ToInteger(q: Dyadic): (r: Option<int>)
    requires Valid(q)
    ensures r.Some? <==> q.numerator % q.denominator == 0
    ensures r.Some? ==> SameValue(r.value, 1, q.numerator, q.denominator)
  {
    MultipleMod(1, q.numerator);
    if q.denominator == 1 then Some(q.numerator)
    else
      MultipleMod(q.denominator, 1);
      None
  }

  /** An integer converts back to itself. */
  lemma IntegerRoundTrip(n: int)
    requires IsI32(n)
    ensures ToInteger(FromInt(n)) == Some(n)
  {
  }

  /** `denominator_exponent`: the trailing zero bits of the denominator, that is the
      exponent of the largest power of two dividing it. */
  function DenominatorExponent(q: Dyadic): (e: nat)
    requires Valid(q)
    ensures q.denominator == Pow2(e) * OddPart(q.denominator)
    ensures OddPart(q.denominator) % 2 == 1
  {
    TrailingZeros(q.denominator)
  }

  /** The denominator is a power of two. */
  ghost predicate IsDyadic(q: Dyadic)
  {
    q.denominator > 0 && OddPart(q.denominator) == 1
  }

  /** Fractions with numerator or denominator 1 are in lowest terms. */
  lemma UnitReduced(n: int, d: int)
    requires d > 0
    ensures Reduced(1, d) && Reduced(n, 1)
  {
    assert forall k: int :: 1 < k ==> 1 % k != 0;
  }

  /** 52/1 has exponent 0 and 1/8 has exponent 3. */
  lemma DenominatorExponentExamples()
    ensures Rational(52, 1).Some? && DenominatorExponent(Rational(52, 1).value) == 0
    ensures Rational(1, 8).Some? && DenominatorExponent(Rational(1, 8).value) == 3
  {
    UnitReduced(52, 8);
    NormalizedIdentity(Dyadic(52, 1));
    NormalizedIdentity(Dyadic(1, 8));
    assert Rational(52, 1) == Some(Dyadic(52, 1));
    assert Rational(1, 8) == Some(Dyadic(1, 8));
    assert TrailingZeros(1) == 0;
    assert TrailingZeros(2) == 1;
    assert TrailingZeros(4) == 2;
    assert TrailingZeros(8) == 3;
  }

  /** `rational` accepts 1/3, whose denominator is not a power of two. */
  lemma NotAlwaysDyadic()
    ensures Rational(1, 3) == Some(Dyadic(1, 3)) && !IsDyadic(Dyadic(1, 3))
  {
    UnitReduced(1, 3);
    NormalizedIdentity(Dyadic(1, 3));
  }

  /** The sum before normalization does not overflow `i32`, and its numerator is not
      `i32::MIN` (which `abs` rejects). */
  predicate AddFits(a: Dyadic, b: Dyadic)
  {
    IsI32(a.numerator * b.denominator) && IsI32(a.denominator * b.numerator)
    && AbsFits(a.numerator * b.denominator + a.denominator * b.numerator)
    && AbsFits(a.denominator * b.denominator)
  }

  /** `Add`: the cross-multiplied sum, normalized. It is the exact sum of the two values,
      in lowest terms. */
  function Add(a: Dyadic, b: Dyadic): (r: Dyadic)
    requires Valid(a) && Valid(b) && AddFits(a, b)
    ensures Valid(r)
    ensures SameValue(r.numerator, r.denominator,
                      a.numerator * b.denominator + b.numerator * a.denominator,
                      a.denominator * b.denominator)
  {
    assert a.denominator * b.denominator > 0;
    Normalized(Dyadic(a.numerator * b.denominator + a.denominator * b.numerator,
                      a.denominator * b.denominator))
  }

  /** Addition does not depend on the order of the operands. */
  lemma AddCommutes(a: Dyadic, b: Dyadic)
    requires Valid(a) && Valid(b) && AddFits(a, b)
    ensures AddFits(b, a) && Add(a, b) == Add(b, a)
  {
    assert a.numerator * b.denominator + a.denominator * b.numerator
        == b.numerator * a.denominator + b.denominator * a.numerator;
  }

  /** Zero is neutral. */
  lemma AddZero(a: Dyadic)
    requires Valid(a) && AbsFits(a.numerator)
    ensures AddFits(a, FromInt(0)) && Add(a, FromInt(0)) == a
  {
    NormalizedIdentity(a);
  }

  /** A `DyadicRationalNumber` place: the receiver of `normalize` and `+=`, whose two
      fields are overwritten. */
  class DyadicVar {
    var numerator: int
    var denominator: int

    function Value(): Dyadic
      reads this
    {
      Dyadic(numerator, denominator)
    }

    constructor (q: Dyadic)
      ensures Value() == q
    {
      numerator := q.numerator;
      denominator := q.denominator;
    }

    /** `normalize`: divide both fields by their gcd, in place. */
    method Normalize()
      requires AbsFits(numerator) && AbsFits(denominator) && denominator != 0
      modifies this
      ensures Value() == Normalized(old(Value()))
    {
      var d := Gcd(Abs(numerator), Abs(denominator));
      GcdDivides(Abs(numerator), Abs(denominator));
      numerator := numerator / d;
      denominator := denominator / d;
    }

    /** `+=`: overwrite the fields with the cross-multiplied sum, then normalize. */
    method AddAssign(rhs: Dyadic)
      requires Valid(Value()) && Valid(rhs) && AddFits(Value(), rhs)
      modifies this
      ensures Value() == Add(old(Value()), rhs)
      ensures Valid(Value())
    {
      numerator := numerator * rhs.denominator + denominator * rhs.numerator;
      denominator := denominator * rhs.denominator;
      assert denominator > 0;
      Normalize();
    }
  }
}
