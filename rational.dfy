/** Rationals extended with the two infinities (src/numeric/rational.rs). The finite part
    is `Rational64`: a fraction in lowest terms with a positive denominator, here with
    unbounded integers. Operations the source leaves `unimplemented!()`, and the division
    by a zero denominator, panic. */
module ExtendedRational {
  import opened Outcome
  import opened Arith

  const I64_MIN: int := -0x8000_0000_0000_0000
  const I64_MAX: int := 0x7fff_ffff_ffff_ffff
  const U32_MAX: int := 0xffff_ffff

  predicate IsI64(n: int)
  {
    I64_MIN <= n <= I64_MAX
  }

  /** `Rational64`. */
  datatype Ratio = Ratio(num: int, den: int)

  ghost predicate RatioValid(q: Ratio)
  {
    Reduced(q.num, q.den)
  }

  /** `Rational64::new`: the fraction n/d in lowest terms with the sign on the numerator. */
  function MakeRatio(n: int, d: int): (q: Ratio)
    requires d != 0
    ensures RatioValid(q) && q.num * d == n * q.den
  {
    var r := Reduce(n, d);
    Ratio(r.0, r.1)
  }

  datatype Rational = NegativeInfinity | Value(value: Ratio) | PositiveInfinity

  ghost predicate Valid(r: Rational)
  {
    r.Value? ==> RatioValid(r.value)
  }

  // ---------------------------------------------------------------------------------
  // The derived order: the variants in declaration order, values by size

  predicate RatioLess(x: Ratio, y: Ratio)
  {
    x.num * y.den < y.num * x.den
  }

  predicate Less(a: Rational, b: Rational)
  {
    match (a, b)
    case (NegativeInfinity, NegativeInfinity) => false
    case (NegativeInfinity, _) => true
    case (Value(x), Value(y)) => RatioLess(x, y)
    case (Value(_), PositiveInfinity) => true
    case _ => false
  }

  /** Negative infinity is below, and positive infinity above, every other value. */
  lemma InfinitiesBound(r: Rational)
    ensures r != NegativeInfinity ==> Less(NegativeInfinity, r)
    ensures r != PositiveInfinity ==> Less(r, PositiveInfinity)
    ensures !Less(r, NegativeInfinity) && !Less(PositiveInfinity, r)
  {
  }

  /** Exactly one of a < b, a == b and b < a holds: values in lowest terms with the same
      size are the same value. */
  lemma OrderTotal(a: Rational, b: Rational)
    requires Valid(a) && Valid(b)
    ensures Less(a, b) || a == b || Less(b, a)
    ensures !(Less(a, b) && Less(b, a)) && !Less(a, a)
  {
    if a.Value? && b.Value? && !Less(a, b) && !Less(b, a) {
      ReducedUnique(a.value.num, a.value.den, b.value.num, b.value.den);
    }
  }

  lemma MulLess(x: int, y: int, k: int)
    requires x < y && k > 0
    ensures x * k < y * k
  {
  }

  lemma OrderTransitive(a: Rational, b: Rational, c: Rational)
    requires Valid(a) && Valid(b) && Valid(c) && Less(a, b) && Less(b, c)
    ensures Less(a, c)
  {
    if a.Value? && b.Value? && c.Value? {
      var x, y, z := a.value, b.value, c.value;
      MulLess(x.num * y.den, y.num * x.den, z.den);
      MulLess(y.num * z.den, z.num * y.den, x.den);
      assert (x.num * z.den) * y.den < (z.num * x.den) * y.den by {
        MulAssoc(x.num, y.den, z.den);
        MulAssoc(x.num, z.den, y.den);
        MulAssoc(y.num, x.den, z.den);
        MulAssoc(y.num, z.den, x.den);
        MulAssoc(z.num, y.den, x.den);
        MulAssoc(z.num, x.den, y.den);
      }
      if z.num * x.den <= x.num * z.den {
        MulLe(z.num * x.den, x.num * z.den, y.den);
      }
    }
  }

  lemma MulLe(x: int, y: int, k: int)
    requires x <= y && k > 0
    ensures x * k <= y * k
  {
  }

  // ---------------------------------------------------------------------------------
  // Construction

  /** `new`: the value n/d; a zero denominator panics. */
  function New(n: int, d: nat): (r: Run<Rational>)
    requires IsI64(n) && d <= U32_MAX
    ensures r.Panics? <==> d == 0
    ensures r.Returns? ==> r.value.Value? && Valid(r.value)
    ensures r.Returns? ==> r.value.value.num * d == n * r.value.value.den
  {
    if d == 0 then Panics else Returns(Value(MakeRatio(n, d)))
  }

  /** `is_infinite`: the value is one of the two infinities. */
  function IsInfinite(r: Rational): (b: bool)
    ensures b <==> r == NegativeInfinity || r == PositiveInfinity
  {
    !r.Value?
  }

  /** Exactly the infinities are the least or the greatest element of the order. */
  lemma InfiniteIsExtreme(r: Rational)
    requires Valid(r)
    ensures IsInfinite(r) <==> (forall x :: !Less(x, r)) || (forall x :: !Less(r, x))
  {
    if !IsInfinite(r) {
      assert Less(NegativeInfinity, r) && Less(r, PositiveInfinity);
    }
  }

  /** `From<i64>` (and `From<i32>`, through `i64`): the integer n as n/1. */
  function FromInt(n: int): (r: Rational)
    requires IsI64(n)
    ensures r.Value? && Valid(r) && r.value.num == n * r.value.den
  {
    Value(MakeRatio(n, 1))
  }

  // ---------------------------------------------------------------------------------
  // Arithmetic

  function RatioAdd(x: Ratio, y: Ratio): (q: Ratio)
    requires RatioValid(x) && RatioValid(y)
    ensures RatioValid(q) && q.num * (x.den * y.den) == (x.num * y.den + y.num * x.den) * q.den
  {
    MakeRatio(x.num * y.den + y.num * x.den, x.den * y.den)
  }

  /** `+`: exact on two values; a value plus an infinity, in either order, is that
      infinity; two infinities panic. */
  function Add(a: Rational, b: Rational): (r: Run<Rational>)
    requires Valid(a) && Valid(b)
    ensures r.Panics? <==> IsInfinite(a) && IsInfinite(b)
    ensures r.Returns? ==> Valid(r.value)
    ensures a.Value? && b.Value? ==> r == Returns(Value(RatioAdd(a.value, b.value)))
    ensures a.Value? && IsInfinite(b) ==> r == Returns(b)
    ensures IsInfinite(a) && b.Value? ==> r == Returns(a)
  {
    match (a, b)
    case (Value(x), Value(y)) => Returns(Value(RatioAdd(x, y)))
    case (Value(_), PositiveInfinity) => Returns(PositiveInfinity)
    case (PositiveInfinity, Value(_)) => Returns(PositiveInfinity)
    case (Value(_), NegativeInfinity) => Returns(NegativeInfinity)
    case (NegativeInfinity, Value(_)) => Returns(NegativeInfinity)
    case _ => Panics
  }

  /** Addition does not depend on the order of the operands. */
  lemma AddCommutes(a: Rational, b: Rational)
    requires Valid(a) && Valid(b)
    ensures Add(a, b) == Add(b, a)
  {
    if a.Value? && b.Value? {
      var x, y := a.value, b.value;
      assert x.num * y.den + y.num * x.den == y.num * x.den + x.num * y.den;
      assert x.den * y.den == y.den * x.den;
    }
  }

  /** Zero is neutral for every value, infinite ones included. */
  lemma AddZero(a: Rational)
    requires Valid(a)
    ensures Add(a, FromInt(0)) == Returns(a)
  {
    UnitReduced(0);
    ReduceReduced(0, 1);
    if a.Value? {
      ReduceReduced(a.value.num, a.value.den);
    }
  }

  lemma UnitReduced(n: int)
    ensures Reduced(n, 1)
  {
    assert forall k: int :: 1 < k ==> 1 % k != 0;
  }

  /** `-` (unary): the infinities swap and a value is negated. */
  function Neg(a: Rational): (r: Rational)
    requires Valid(a)
    ensures Valid(r) && IsInfinite(r) == IsInfinite(a)
  {
    match a
    case NegativeInfinity => PositiveInfinity
    case Value(x) =>
      NegReduced(x.num, x.den);
      Value(Ratio(-x.num, x.den))
    case PositiveInfinity => NegativeInfinity
  }

  lemma NegReduced(n: int, d: int)
    requires Reduced(n, d)
    ensures Reduced(-n, d)
  {
    forall k: int | 1 < k ensures !((-n) % k == 0 && d % k == 0) {
      AbsMod(n, k);
      AbsMod(-n, k);
    }
  }

  /** Negating twice gives the value back. */
  lemma NegInvolution(a: Rational)
    requires Valid(a)
    ensures Neg(Neg(a)) == a
  {
  }

  /** Negation reverses the order. */
  lemma NegReverses(a: Rational, b: Rational)
    requires Valid(a) && Valid(b)
    ensures Less(a, b) <==> Less(Neg(b), Neg(a))
  {
    if a.Value? && b.Value? {
      var x, y := a.value, b.value;
      assert (-y.num) * x.den == -(y.num * x.den);
      assert (-x.num) * y.den == -(x.num * y.den);
    }
  }

  /** A value plus its negation is zero. */
  lemma AddNeg(a: Rational)
    requires Valid(a) && a.Value?
    ensures Add(a, Neg(a)) == Returns(FromInt(0))
  {
    var x := a.value;
    assert x.num * x.den + (-x.num) * x.den == 0;
    var d := x.den * x.den;
    assert d > 0;
    assert Gcd(0, d) == d;
    MultipleMod(d, 1);
    assert Reduce(0, d) == (0, 1);
    ReduceReduced(0, 1) by {
      UnitReduced(0);
    }
  }

  /** `-` (binary): exact on two values; anything else panics. */
  function Sub(a: Rational, b: Rational): (r: Run<Rational>)
    requires Valid(a) && Valid(b)
    ensures r.Panics? <==> IsInfinite(a) || IsInfinite(b)
    ensures r.Returns? ==> r.value.Value? && Valid(r.value)
  {
    if a.Value? && b.Value? then
      var x, y := a.value, b.value;
      Returns(Value(MakeRatio(x.num * y.den - y.num * x.den, x.den * y.den)))
    else Panics
  }

  /** Subtracting is adding the negation, for two values. */
  lemma SubIsAddNeg(a: Rational, b: Rational)
    requires Valid(a) && Valid(b) && a.Value? && b.Value?
    ensures Sub(a, b) == Add(a, Neg(b))
  {
    var x, y := a.value, b.value;
    assert x.num * y.den - y.num * x.den == x.num * y.den + (-y.num) * x.den;
  }

  /** `*`: exact on two values; a positive value times an infinity is that infinity and a
      negative one the other, in either order; zero times an infinity panics. Two
      infinities make the source call itself forever, so they are excluded. */
  function Mul(a: Rational, b: Rational): (r: Run<Rational>)
    requires Valid(a) && Valid(b) && !(IsInfinite(a) && IsInfinite(b))
    ensures r.Returns? ==> Valid(r.value)
    ensures a.Value? && b.Value? ==>
      r.Returns? && r.value.Value?
      && r.value.value.num * (a.value.den * b.value.den) == a.value.num * b.value.num * r.value.value.den
    decreases if a.Value? then 0 else 1
  {
    match (a, b)
    case (Value(x), Value(y)) => Returns(Value(MakeRatio(x.num * y.num, x.den * y.den)))
    case (Value(x), PositiveInfinity) =>
      if RatioLess(Zero, x) then Returns(PositiveInfinity)
      else if RatioLess(x, Zero) then Returns(NegativeInfinity)
      else Panics
    case (Value(x), NegativeInfinity) =>
      if RatioLess(Zero, x) then Returns(NegativeInfinity)
      else if RatioLess(x, Zero) then Returns(PositiveInfinity)
      else Panics
    case (_, _) => Mul(b, a)
  }

  /** `0`, as `Rational64` compares with it. */
  const Zero: Ratio := Ratio(0, 1)

  /** Multiplication does not depend on the order of the operands. */
  lemma MulCommutes(a: Rational, b: Rational)
    requires Valid(a) && Valid(b) && !(IsInfinite(a) && IsInfinite(b))
    ensures Mul(a, b) == Mul(b, a)
  {
    if a.Value? && b.Value? {
      var x, y := a.value, b.value;
      assert x.num * y.num == y.num * x.num && x.den * y.den == y.den * x.den;
    }
  }

  /** A value times an infinity: the infinity for a positive value, the other infinity
      for a negative one, and a panic for zero. */
  lemma MulInfinity(a: Rational, b: Rational)
    requires Valid(a) && a.Value? && IsInfinite(b)
    ensures a.value.num > 0 ==> Mul(a, b) == Returns(b)
    ensures a.value.num < 0 ==> Mul(a, b) == Returns(Neg(b))
    ensures a.value.num == 0 <==> Mul(a, b).Panics?
  {
  }

  /** `/`: exact on two values, panicking on a zero divisor; anything else panics. */
  function Div(a: Rational, b: Rational): (r: Run<Rational>)
    requires Valid(a) && Valid(b)
    ensures r.Panics? <==> IsInfinite(a) || IsInfinite(b) || b.value.num == 0
    ensures r.Returns? ==> r.value.Value? && Valid(r.value)
    ensures r.Returns? ==> r.value.value.num * (a.value.den * b.value.num) == a.value.num * b.value.den * r.value.value.den
  {
    if a.Value? && b.Value? then
      var x, y := a.value, b.value;
      if y.num == 0 then Panics
      else Returns(Value(MakeRatio(x.num * y.den, x.den * y.num)))
    else Panics
  }

  /** Dividing by a non-zero value and multiplying by it again gives the value back. */
  lemma DivMul(a: Rational, b: Rational)
    requires Valid(a) && Valid(b) && a.Value? && b.Value? && b.value.num != 0
    ensures Div(a, b).Returns? && Mul(Div(a, b).value, b) == Returns(a)
  {
    var x, y := a.value, b.value;
    var r := MakeRatio(x.num * y.den, x.den * y.num);
    var s := MakeRatio(r.num * y.num, r.den * y.den);
    assert Mul(Div(a, b).value, b) == Returns(Value(s));
    var p := r.den * y.den;
    assert p > 0;
    DivMulAlgebra(s.num, s.den, x.num, x.den, r.num, r.den, y.num, y.den);
    Cancel(s.num * x.den, x.num * s.den, p);
    ReducedUnique(s.num, s.den, x.num, x.den);
  }

  lemma DivMulAlgebra(sn: int, sd: int, xn: int, xd: int, rn: int, rd: int, yn: int, yd: int)
    requires sn * (rd * yd) == (rn * yn) * sd
    requires rn * (xd * yn) == (xn * yd) * rd
    ensures (sn * xd) * (rd * yd) == (xn * sd) * (rd * yd)
  {
    calc {
      (sn * xd) * (rd * yd);
      xd * (sn * (rd * yd));
      xd * ((rn * yn) * sd);
      (rn * (xd * yn)) * sd;
      ((xn * yd) * rd) * sd;
      (xn * sd) * (rd * yd);
    }
  }

  lemma Cancel(u: int, v: int, k: int)
    requires k > 0 && u * k == v * k
    ensures u == v
  {
    assert (u - v) * k == 0;
  }

  // ---------------------------------------------------------------------------------
  // Text

  predicate IsDigit(c: char)
  {
    '0' <= c <= '9'
  }

  function Digit(n: nat): char
    requires n < 10
  {
    "0123456789"[n]
  }

  /** The decimal digits of n, without leading zeros. */
  function NatToString(n: nat): (s: string)
    ensures s != [] && forall i :: 0 <= i < |s| ==> IsDigit(s[i])
  {
    if n < 10 then [Digit(n)] else NatToString(n / 10) + [Digit(n % 10)]
  }

  function IntToString(n: int): string
  {
    if n < 0 then "-" + NatToString(-n) else NatToString(n)
  }

  /** `Display`: `-∞`, `∞`, or the value as `n` when its denominator is 1 and `n/d`
      otherwise. */
  function Display(r: Rational): string
  {
    match r
    case NegativeInfinity => "-∞"
    case PositiveInfinity => "∞"
    case Value(x) =>
      if x.den == 1 then IntToString(x.num) else IntToString(x.num) + "/" + IntToString(x.den)
  }

  /** The number of leading digits. */
  function DigitRun(s: string): (k: nat)
    ensures k <= |s| && (forall i :: 0 <= i < k ==> IsDigit(s[i])) && (k < |s| ==> !IsDigit(s[k]))
  {
    if s == [] || !IsDigit(s[0]) then 0 else 1 + DigitRun(s[1..])
  }

  function DigitsValue(s: string): nat
    requires forall i :: 0 <= i < |s| ==> IsDigit(s[i])
  {
    if s == [] then 0
    else
      var c := s[|s| - 1];
      assert IsDigit(c);
      10 * DigitsValue(s[..|s| - 1]) + (c as int - '0' as int)
  }

  /** An unsigned number: the longest run of digits, which must not be empty; the value
      must fit. Returns the value and the rest of the input. */
  function ParseUnsigned(s: string, max: int): (r: Option<(nat, string)>)
    ensures r.Some? ==> r.value.0 <= max && |r.value.1| < |s|
  {
    var k := DigitRun(s);
    if k == 0 || max < DigitsValue(s[..k]) then None else Some((DigitsValue(s[..k]), s[k..]))
  }

  /** A signed `i64`: an optional `-` or `+`, then the digits; the value must fit. */
  function ParseI64(s: string): (r: Option<(int, string)>)
    ensures r.Some? ==> IsI64(r.value.0)
  {
    var negative := |s| > 0 && s[0] == '-';
    var body := if |s| > 0 && (s[0] == '-' || s[0] == '+') then s[1..] else s;
    match ParseUnsigned(body, if negative then -I64_MIN else I64_MAX)
    case None => None
    case Some((m, rest)) =>
      var v: int := if negative then 0 - m as int else m;
      Some((v, rest))
  }

  /** `parse`: a numerator, then optionally `/`, a `u32` denominator and the end of the
      input. Without `/` the rest of the input is returned unread. A parse error is
      `None`; a zero denominator makes `new` panic. */
  function Parse(s: string): (r: Run<Option<(string, Rational)>>)
  {
    match ParseI64(s)
    case None => Returns(None)
    case Some((n, rest)) =>
      if |rest| > 0 && rest[0] == '/' then
        match ParseUnsigned(rest[1..], U32_MAX)
        case None => Returns(None)
        case Some((d, rest')) =>
          if rest' != [] then Returns(None)
          else match New(n, d)
            case Panics => Panics
            case Returns(v) => Returns(Some((rest', v)))
      else Returns(Some((rest, FromInt(n))))
  }

  /** The digits of n read back as n. */
  lemma {:induction false} DigitsRoundTrip(n: nat)
    ensures DigitsValue(NatToString(n)) == n
  {
    if n >= 10 {
      var s := NatToString(n);
      assert s[..|s| - 1] == NatToString(n / 10);
      DigitsRoundTrip(n / 10);
    }
  }

  /** Reading digits followed by a non-digit stops exactly after the digits. */
  lemma DigitRunOf(n: nat, t: string)
    requires t == [] || !IsDigit(t[0])
    ensures DigitRun(NatToString(n) + t) == |NatToString(n)|
    ensures (NatToString(n) + t)[..|NatToString(n)|] == NatToString(n)
    ensures (NatToString(n) + t)[|NatToString(n)|..] == t
  {
    var s, l := NatToString(n) + t, |NatToString(n)|;
    assert forall i :: 0 <= i < l ==> s[i] == NatToString(n)[i];
    assert l < |s| ==> s[l] == t[0];
  }

  /** An `i64` printed and followed by a non-digit reads back as itself. */
  lemma IntRoundTrip(n: int, t: string)
    requires IsI64(n) && (t == [] || !IsDigit(t[0]))
    ensures ParseI64(IntToString(n) + t) == Some((n, t))
  {
    if n < 0 {
      NegativeRoundTrip(n, t);
    } else {
      NonNegativeRoundTrip(n, t);
    }
  }

  lemma NegativeRoundTrip(n: int, t: string)
    requires IsI64(n) && n < 0 && (t == [] || !IsDigit(t[0]))
    ensures ParseI64(IntToString(n) + t) == Some((n, t))
  {
    var m: nat := -n;
    var u := NatToString(m) + t;
    assert IntToString(n) + t == "-" + u;
    UnsignedRoundTrip(m, t, -I64_MIN);
    ParseNegative(u, m, t);
  }

  /** A `-` before digits that read as m gives -m. */
  lemma ParseNegative(u: string, m: nat, t: string)
    requires ParseUnsigned(u, -I64_MIN) == Some((m, t))
    ensures ParseI64("-" + u) == Some((0 - m, t))
  {
    var s := "-" + u;
    assert s[0] == '-' && s[1..] == u;
  }

  lemma NonNegativeRoundTrip(n: int, t: string)
    requires IsI64(n) && n >= 0 && (t == [] || !IsDigit(t[0]))
    ensures ParseI64(IntToString(n) + t) == Some((n, t))
  {
    var s := NatToString(n) + t;
    assert IntToString(n) + t == s;
    assert IsDigit(s[0]);
    UnsignedRoundTrip(n, t, I64_MAX);
  }

  /** A natural number up to `max` printed and followed by a non-digit reads back as
      itself. */
  lemma UnsignedRoundTrip(m: nat, t: string, max: int)
    requires m <= max && (t == [] || !IsDigit(t[0]))
    ensures ParseUnsigned(NatToString(m) + t, max) == Some((m, t))
  {
    DigitRunOf(m, t);
    DigitsRoundTrip(m);
  }

  /** Every value whose numerator fits `i64` and whose denominator fits `u32` prints as
      text that parses back to it, with nothing left over. */
  lemma DisplayParse(r: Rational)
    requires Valid(r) && r.Value? && IsI64(r.value.num) && r.value.den <= U32_MAX
    ensures Parse(Display(r)) == Returns(Some(("", r)))
  {
    if r.value.den == 1 {
      IntegerDisplayParse(r.value);
    } else {
      FractionDisplayParse(r.value);
    }
  }

  lemma IntegerDisplayParse(x: Ratio)
    requires RatioValid(x) && IsI64(x.num) && x.den == 1
    ensures Parse(Display(Value(x))) == Returns(Some(("", Value(x))))
  {
    IntRoundTrip(x.num, "");
    assert IntToString(x.num) + "" == IntToString(x.num);
    ReduceReduced(x.num, 1);
  }

  lemma FractionDisplayParse(x: Ratio)
    requires RatioValid(x) && IsI64(x.num) && 1 < x.den <= U32_MAX
    ensures Parse(Display(Value(x))) == Returns(Some(("", Value(x))))
  {
    var t := "/" + IntToString(x.den);
    var s := Display(Value(x));
    assert s == IntToString(x.num) + t;
    IntRoundTrip(x.num, t);
    assert t[1..] == NatToString(x.den) + "";
    UnsignedRoundTrip(x.den, "", U32_MAX);
    ReduceReduced(x.num, x.den);
    assert New(x.num, x.den) == Returns(Value(x));
  }

  /** The texts `3/16`, `42`, `-1/2` and `2/3` parse, and print back unchanged. */
  lemma ExampleThreeSixteenths()
    ensures Parse("3/16") == Returns(Some(("", Value(Ratio(3, 16))))) && Display(Value(Ratio(3, 16))) == "3/16"
  {
    assert Gcd(3, 16) == 1 by {
      assert Gcd(3, 16) == Gcd(16, 3) == Gcd(3, 1) == Gcd(1, 0);
    }
    GcdOneReduced(3, 16);
    assert NatToString(16) == NatToString(1) + [Digit(6)] == "16";
    ShowFraction(3, 16, "3", "16");
    assert "3" + "/" + "16" == "3/16";
  }

  lemma ExampleFortyTwo()
    ensures Parse("42") == Returns(Some(("", Value(Ratio(42, 1))))) && Display(Value(Ratio(42, 1))) == "42"
  {
    UnitReduced(42);
    assert NatToString(42) == NatToString(4) + [Digit(2)] == "42";
    DisplayParse(Value(Ratio(42, 1)));
  }

  lemma ExampleMinusHalf()
    ensures Parse("-1/2") == Returns(Some(("", Value(Ratio(-1, 2))))) && Display(Value(Ratio(-1, 2))) == "-1/2"
  {
    assert Gcd(1, 2) == Gcd(2, 1) == Gcd(1, 0) == 1;
    GcdOneReduced(-1, 2);
    ShowFraction(-1, 2, "-1", "2");
    assert "-1" + "/" + "2" == "-1/2";
  }

  lemma ExampleTwoThirds()
    ensures Parse("2/3") == Returns(Some(("", Value(Ratio(2, 3))))) && Display(Value(Ratio(2, 3))) == "2/3"
  {
    assert Gcd(2, 3) == Gcd(3, 2) == Gcd(2, 1) == Gcd(1, 0) == 1;
    GcdOneReduced(2, 3);
    ShowFraction(2, 3, "2", "3");
    assert "2" + "/" + "3" == "2/3";
  }

  /** A fraction whose numerator and denominator print as `n` and `d` prints as `n/d`,
      which parses back. */
  lemma ShowFraction(num: int, den: int, n: string, d: string)
    requires Reduced(num, den) && IsI64(num) && 1 < den <= U32_MAX
    requires IntToString(num) == n && IntToString(den) == d
    ensures Parse(n + "/" + d) == Returns(Some(("", Value(Ratio(num, den)))))
    ensures Display(Value(Ratio(num, den))) == n + "/" + d
  {
    DisplayParse(Value(Ratio(num, den)));
  }
  /** Without `/` after the numerator, the rest of the input is left unread. */
  lemma ParseInteger(n: int, t: string)
    requires IsI64(n) && (t == [] || (!IsDigit(t[0]) && t[0] != '/'))
    ensures Parse(IntToString(n) + t) == Returns(Some((t, FromInt(n))))
  {
    IntRoundTrip(n, t);
  }

  /** A `/` not followed by a digit is a parse error. */
  lemma ParseMissingDenominator(n: int, t: string)
    requires IsI64(n) && (t == [] || !IsDigit(t[0]))
    ensures Parse(IntToString(n) + "/" + t) == Returns(None)
  {
    assert IntToString(n) + "/" + t == IntToString(n) + ("/" + t);
    IntRoundTrip(n, "/" + t);
    assert ("/" + t)[1..] == t;
  }

  /** Anything after the denominator is a parse error. */
  lemma ParseTrailing(n: int, d: nat, t: string)
    requires IsI64(n) && d <= U32_MAX && t != [] && !IsDigit(t[0])
    ensures Parse(IntToString(n) + "/" + NatToString(d) + t) == Returns(None)
  {
    var a, b := IntToString(n), NatToString(d);
    ConcatAssoc(a, "/", b, t);
    IntRoundTrip(n, "/" + (b + t));
    UnsignedRoundTrip(d, t, U32_MAX);
    SlashTrailing(a + "/" + b + t, n, b + t, d, t);
  }

  lemma ConcatAssoc(a: string, b: string, c: string, d: string)
    ensures a + b + c + d == a + (b + (c + d))
  {
  }

  lemma SlashTrailing(s: string, n: int, u: string, d: nat, t: string)
    requires ParseI64(s) == Some((n, "/" + u)) && ParseUnsigned(u, U32_MAX) == Some((d, t)) && t != []
    ensures Parse(s) == Returns(None)
  {
    assert ("/" + u)[1..] == u;
  }

  /** A zero denominator makes `new` panic. */
  lemma ParseZeroDenominator(n: int)
    requires IsI64(n)
    ensures Parse(IntToString(n) + "/0") == Panics
  {
    assert IntToString(n) + "/0" == IntToString(n) + ("/" + (NatToString(0) + ""));
    IntRoundTrip(n, "/" + (NatToString(0) + ""));
    assert ("/" + (NatToString(0) + ""))[1..] == NatToString(0) + "";
    UnsignedRoundTrip(0, "", U32_MAX);
  }
}
