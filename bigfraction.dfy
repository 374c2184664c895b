/** BigFraction: an immutable rational number over unbounded integers, kept
    in lowest terms with a positive denominator. */
module BigFractions {
  import opened Outcomes
  import opened Divisibility
  import Decimal
  import Text

  datatype Fraction = Fraction(num: int, den: int)

  /** What every BigFraction constructor establishes: the sign is on the
      numerator and numerator and denominator are coprime (so 0 is 0/1). */
  predicate Normalized(f: Fraction) {
    f.den > 0 && Gcd(Abs(f.num), f.den) == 1
  }

  /** The values a BigFraction object can hold. */
  type BigFraction = f: Fraction | Normalized(f) witness Fraction(0, 1)

  /** The rational number a fraction denotes. */
  ghost function Value(f: Fraction): real
    requires f.den != 0
  {
    f.num as real / f.den as real
  }

  const Zero: BigFraction := Fraction(0, 1)

  // ---------------------------------------------------------------------
  // Construction

  /** Dividing n and d > 0 by their gcd gives a normalized fraction of the same value. */
  lemma Reduce(n: int, d: int)
    requires d > 0
    ensures Gcd(Abs(n), d) > 0
    ensures Normalized(Fraction(n / Gcd(Abs(n), d), d / Gcd(Abs(n), d)))
    ensures (n / Gcd(Abs(n), d)) * d == n * (d / Gcd(Abs(n), d))
  {
    var g := Gcd(Abs(n), d);
    GcdReduced(Abs(n), d);
    DividesAbs(g, n);
    AbsQuotient(n, g);
    CrossQuotient(n, d, g);
  }

  /** Dividing by a divisor commutes with taking the absolute value. */
  lemma AbsQuotient(n: int, g: nat)
    requires Divides(g, n)
    ensures Abs(n / g) == Abs(n) / g
  {
    var a := n / g;
    DividesFactor(g, n);
    if n < 0 {
      MultipleDivides(g, -a);
      assert Abs(n) == g * (-a);
    } else {
      MultipleDivides(g, a);
    }
  }

  /** Dividing either side of a product by a common divisor gives the same cross product. */
  lemma CrossQuotient(n: int, d: int, g: nat)
    requires Divides(g, n) && Divides(g, d)
    ensures (n / g) * d == n * (d / g)
  {
    DividesFactor(g, n);
    DividesFactor(g, d);
    var a, b := n / g, d / g;
    calc {
      a * d;
      a * (g * b);
      (g * a) * b;
      n * b;
    }
  }

  lemma MulCancel(x: int, y: int, d: int)
    requires d != 0 && x * d == y * d
    ensures x == y
  {
    assert (x - y) * d == 0;
  }

  /** `new BigFraction(n, d)`: throws ArithmeticException when d is 0; otherwise
      moves the sign to the numerator and divides both parts by their gcd. */
  function Make(n: int, d: int): (r: Result<BigFraction>)
    ensures r.Err? <==> d == 0
    ensures r.Err? ==> r.error == DivByZero
    ensures r.Ok? ==> r.value.num * d == n * r.value.den
  {
    if d == 0 then Err(DivByZero)
    else
      var n' := if d < 0 then -n else n;
      var d' := if d < 0 then -d else d;
      var g := Gcd(Abs(n'), d');
      Reduce(n', d');
      assert (n' / g) * d == n * (d' / g) by {
        if d < 0 {
          assert (n' / g) * d == -((n' / g) * d');
          assert n * (d' / g) == -(n' * (d' / g));
        }
      }
      Ok(Fraction(n' / g, d' / g))
  }

  /** Normalized fractions of equal value are identical: the representation is canonical. */
  lemma SameValueUnique(f: BigFraction, h: BigFraction)
    requires f.num * h.den == h.num * f.den
    ensures f == h
  {
    MultipleDivides(f.den, h.num);
    assert Divides(f.den, f.num * h.den) by { assert f.num * h.den == f.den * h.num; }
    EuclidDivides(f.den, f.num, h.den);
    MultipleDivides(h.den, f.num);
    assert Divides(h.den, h.num * f.den) by { assert h.num * f.den == h.den * f.num; }
    EuclidDivides(h.den, h.num, f.den);
    MutualDivides(f.den, h.den);
    MulCancel(f.num, h.num, f.den);
  }

  /** Two fractions with the value n/d have equal cross products. */
  lemma CrossTransitive(a: int, b: int, p: int, q: int, n: int, d: int)
    requires d != 0 && a * d == n * b && p * d == n * q
    ensures a * q == p * b
  {
    calc {
      (a * q) * d;
      (a * d) * q;
      (n * b) * q;
      (n * q) * b;
      (p * d) * b;
      (p * b) * d;
    }
    MulCancel(a * q, p * b, d);
  }

  /** Make(n, d) is THE normalized fraction whose value is n/d. */
  lemma MakeCanonical(n: int, d: int, f: BigFraction)
    requires d != 0 && f.num * d == n * f.den
    ensures Make(n, d) == Ok(f)
  {
    var r := Make(n, d).value;
    CrossTransitive(r.num, r.den, f.num, f.den, n, d);
    SameValueUnique(r, f);
  }

  /** A zero numerator always yields 0/1. */
  lemma MakeZero(d: int)
    requires d != 0
    ensures Make(0, d) == Ok(Zero)
  {
    MakeCanonical(0, d, Zero);
  }

  /** Constructing from the parts of a BigFraction gives that BigFraction back. */
  lemma MakeIdentity(f: BigFraction)
    ensures Make(f.num, f.den) == Ok(f)
  {
    MakeCanonical(f.num, f.den, f);
  }

  lemma RatioEq(a: int, b: int, n: int, d: int)
    requires b != 0 && d != 0 && a * d == n * b
    ensures a as real / b as real == n as real / d as real
  {
    var A, B, N, D := a as real, b as real, n as real, d as real;
    assert A * D == N * B;
    assert A / B == (A * D) / (B * D);
  }

  lemma RatioSum(a: real, b: real, p: real, q: real)
    requires b != 0.0 && q != 0.0
    ensures (a * q + p * b) / (b * q) == a / b + p / q
  {
  }

  lemma SumOfRatios(a: int, b: int, p: int, q: int)
    requires b != 0 && q != 0
    ensures (a * q + p * b) as real / (b * q) as real == a as real / b as real + p as real / q as real
  {
    CastMul(a, q);
    CastMul(p, b);
    CastMul(b, q);
    RatioSum(a as real, b as real, p as real, q as real);
  }

  lemma RatioDifference(a: real, b: real, p: real, q: real)
    requires b != 0.0 && q != 0.0
    ensures (a * q - p * b) / (b * q) == a / b - p / q
  {
  }

  lemma DifferenceOfRatios(a: int, b: int, p: int, q: int)
    requires b != 0 && q != 0
    ensures (a * q - p * b) as real / (b * q) as real == a as real / b as real - p as real / q as real
  {
    CastMul(a, q);
    CastMul(p, b);
    CastMul(b, q);
    RatioDifference(a as real, b as real, p as real, q as real);
  }

  lemma RatioProduct(a: real, b: real, p: real, q: real)
    requires b != 0.0 && q != 0.0
    ensures (a * p) / (b * q) == (a / b) * (p / q)
  {
  }

  lemma ProductOfRatios(a: int, b: int, p: int, q: int)
    requires b != 0 && q != 0
    ensures (a * p) as real / (b * q) as real == (a as real / b as real) * (p as real / q as real)
  {
    CastMul(a, p);
    CastMul(b, q);
    RatioProduct(a as real, b as real, p as real, q as real);
  }

  lemma RatioQuotient(a: real, b: real, p: real, q: real)
    requires b != 0.0 && q != 0.0 && p != 0.0
    ensures (a * q) / (b * p) == (a / b) / (p / q)
  {
  }

  lemma QuotientOfRatios(a: int, b: int, p: int, q: int)
    requires b != 0 && q != 0 && p != 0
    ensures p as real / q as real != 0.0
    ensures (a * q) as real / (b * p) as real == (a as real / b as real) / (p as real / q as real)
  {
    CastMul(a, q);
    CastMul(b, p);
    RatioQuotient(a as real, b as real, p as real, q as real);
  }

  lemma CastMul(a: int, b: int)
    ensures (a * b) as real == a as real * b as real
  {
  }

  lemma MulPositive(a: int, b: int)
    requires a > 0 && b > 0
    ensures a * b > 0
  {
  }

  lemma NonZeroProduct(a: int, b: int)
    requires a != 0 && b != 0
    ensures a * b != 0
  {
  }

  /** Make denotes n/d. */
  lemma MakeValue(n: int, d: int)
    requires d != 0
    ensures Value(Make(n, d).value) == n as real / d as real
  {
    var r := Make(n, d).value;
    RatioEq(r.num, r.den, n, d);
  }

  /** Equal values mean equal BigFractions. */
  lemma ValueInjective(f: BigFraction, h: BigFraction)
    requires Value(f) == Value(h)
    ensures f == h
  {
    RatioCross(f.num as real, f.den as real, h.num as real, h.den as real);
    CastMul(f.num, h.den);
    CastMul(h.num, f.den);
    SameValueUnique(f, h);
  }

  lemma RatioCross(a: real, b: real, n: real, d: real)
    requires b != 0.0 && d != 0.0 && a / b == n / d
    ensures a * d == n * b
  {
    assert a == (a / b) * b;
    assert n == (n / d) * d;
  }

  // ---------------------------------------------------------------------
  // Arithmetic by cross-multiplication

  function Add(x: BigFraction, y: BigFraction): (r: BigFraction)
    ensures Value(r) == Value(x) + Value(y)
  {
    MulPositive(x.den, y.den);
    MakeValue(x.num * y.den + y.num * x.den, x.den * y.den);
    SumOfRatios(x.num, x.den, y.num, y.den);
    Make(x.num * y.den + y.num * x.den, x.den * y.den).value
  }

  function Subtract(x: BigFraction, y: BigFraction): (r: BigFraction)
    ensures Value(r) == Value(x) - Value(y)
  {
    MulPositive(x.den, y.den);
    MakeValue(x.num * y.den - y.num * x.den, x.den * y.den);
    DifferenceOfRatios(x.num, x.den, y.num, y.den);
    Make(x.num * y.den - y.num * x.den, x.den * y.den).value
  }

  function Multiply(x: BigFraction, y: BigFraction): (r: BigFraction)
    ensures Value(r) == Value(x) * Value(y)
  {
    MulPositive(x.den, y.den);
    MakeValue(x.num * y.num, x.den * y.den);
    ProductOfRatios(x.num, x.den, y.num, y.den);
    Make(x.num * y.num, x.den * y.den).value
  }

  /** Throws ArithmeticException exactly when the divisor's numerator is 0,
      whatever its denominator. */
  function Divide(x: BigFraction, y: BigFraction): (r: Result<BigFraction>)
    ensures r.Err? <==> y.num == 0
    ensures r.Err? ==> r.error == DivByZero
    ensures r.Ok? ==> Value(y) != 0.0 && Value(r.value) == Value(x) / Value(y)
  {
    if y.num == 0 then Err(DivByZero)
    else
      NonZeroProduct(x.den, y.num);
      MakeValue(x.num * y.den, x.den * y.num);
      QuotientOfRatios(x.num, x.den, y.num, y.den);
      Make(x.num * y.den, x.den * y.num)
  }

  // ---------------------------------------------------------------------
  // Algebra of the operations

  /** The calculator's clear followed by add leaves exactly the added value. */
  lemma AddZeroLeft(v: BigFraction)
    ensures Add(Zero, v) == v
  {
    ValueInjective(Add(Zero, v), v);
  }

  lemma AddCommutative(x: BigFraction, y: BigFraction)
    ensures Add(x, y) == Add(y, x)
  {
    ValueInjective(Add(x, y), Add(y, x));
  }

  lemma AddAssociative(x: BigFraction, y: BigFraction, z: BigFraction)
    ensures Add(Add(x, y), z) == Add(x, Add(y, z))
  {
    ValueInjective(Add(Add(x, y), z), Add(x, Add(y, z)));
  }

  /** Subtracting and adding back the same value returns the original fraction. */
  lemma SubtractAddInverse(x: BigFraction, y: BigFraction)
    ensures Add(Subtract(x, y), y) == x
  {
    ValueInjective(Add(Subtract(x, y), y), x);
  }

  /** Dividing by a nonzero value and multiplying back returns the original fraction. */
  lemma DivideMultiplyInverse(x: BigFraction, y: BigFraction)
    requires y.num != 0
    ensures Divide(x, y).Ok? && Multiply(Divide(x, y).value, y) == x
  {
    var q := Divide(x, y).value;
    assert Value(q) * Value(y) == Value(x);
    ValueInjective(Multiply(q, y), x);
  }

  /** The fraction n/1, the value of a whole-number literal. */
  function Whole(n: int): (r: BigFraction)
    ensures r.num == n && r.den == 1
  {
    GcdOneRight(Abs(n));
    Fraction(n, 1)
  }

  /** On whole numbers the four operations are integer arithmetic; division
      gives the normalized quotient. */
  lemma WholeArithmetic(a: int, b: int)
    ensures Add(Whole(a), Whole(b)) == Whole(a + b)
    ensures Subtract(Whole(a), Whole(b)) == Whole(a - b)
    ensures Multiply(Whole(a), Whole(b)) == Whole(a * b)
    ensures Divide(Whole(a), Whole(b)) == Make(a, b)
  {
    MakeCanonical(a * 1 + b * 1, 1 * 1, Whole(a + b));
    MakeCanonical(a * 1 - b * 1, 1 * 1, Whole(a - b));
    MakeCanonical(a * b, 1 * 1, Whole(a * b));
  }

  /** Every representation of zero is refused as a divisor. */
  lemma DivideByAnyZero(x: BigFraction, d: int)
    requires d != 0
    ensures Make(0, d).Ok? && Divide(x, Make(0, d).value) == Err(DivByZero)
  {
    MakeZero(d);
  }

  // ---------------------------------------------------------------------
  // Text form

  /** `new BigFraction(String)`: with a '/', the first two pieces of
      `split("/")`, trimmed, are the numerator and denominator given to the
      (BigInteger, BigInteger) constructor; otherwise the trimmed string is the
      numerator over 1. A missing piece is an out-of-bounds array access. */
  function Parse(s: string): (r: Result<BigFraction>)
    ensures '/' !in s && r.Ok? ==> r.value.den == 1
  {
    if '/' in s then
      var parts := Text.Split(s, '/');
      if |parts| == 0 then Err(OutOfBounds)
      else
        var n :- Decimal.ParseInt(Text.Trim(parts[0]));
        if |parts| == 1 then Err(OutOfBounds)
        else
          var d :- Decimal.ParseInt(Text.Trim(parts[1]));
          Make(n, d)
    else
      var n :- Decimal.ParseInt(Text.Trim(s));
      GcdOneRight(Abs(n));
      Ok(Fraction(n, 1))
  }

  /** `toString()`: the numerator alone for a whole number, else "num/denom". */
  function ToString(f: BigFraction): string {
    if f.den == 1 then Decimal.IntToString(f.num)
    else Decimal.IntToString(f.num) + "/" + Decimal.IntToString(f.den)
  }

  /** The decimal form of an integer has no '/' and nothing for trim to remove. */
  lemma IntTextShape(i: int)
    ensures '/' !in Decimal.IntToString(i)
    ensures Text.Trim(Decimal.IntToString(i)) == Decimal.IntToString(i)
  {
    var t := Decimal.IntToString(i);
    assert forall k :: 0 <= k < |t| ==> t[k] != '/' && !Text.IsTrimmed(t[k]);
    Text.TrimUntrimmed(t);
  }

  /** The text of a whole number parses to that number over 1. */
  lemma ParseWhole(n: int)
    ensures Parse(Decimal.IntToString(n)) == Ok(Fraction(n, 1))
  {
    IntTextShape(n);
    Decimal.IntToStringRoundTrip(n);
    GcdOneRight(Abs(n));
  }

  /** The text "n/d" (either part may carry a sign) parses to the normalized n/d,
      or fails with division by zero when d is 0. */
  lemma ParseRatio(n: int, d: int)
    ensures Parse(Decimal.IntToString(n) + "/" + Decimal.IntToString(d)) == Make(n, d)
  {
    var a, b := Decimal.IntToString(n), Decimal.IntToString(d);
    IntTextShape(n);
    IntTextShape(d);
    Text.SplitTwo(a, b, '/');
    assert a + "/" + b == a + ['/'] + b;
    assert (a + ['/'] + b)[|a|] == '/';
    Decimal.IntToStringRoundTrip(n);
    Decimal.IntToStringRoundTrip(d);
  }

  /** Parsing the text of a BigFraction reconstructs it exactly. */
  lemma ParseToString(f: BigFraction)
    ensures Parse(ToString(f)) == Ok(f)
  {
    if f.den == 1 {
      ParseWhole(f.num);
    } else {
      ParseRatio(f.num, f.den);
      MakeIdentity(f);
    }
  }

  lemma Examples()
    ensures Make(5, 0) == Err(DivByZero)
    ensures Make(0, -7) == Ok(Zero)
    ensures Make(2, -4) == Ok(Fraction(-1, 2))
    ensures Add(Fraction(1, 2), Fraction(1, 3)) == Fraction(5, 6)
    ensures Multiply(Make(2, 4).value, Make(3, 6).value) == Fraction(1, 4)
    ensures Divide(Fraction(1, 2), Make(0, 5).value) == Err(DivByZero)
    ensures Make(4, 2) == Ok(Fraction(2, 1))
  {
    MakeCanonical(4, 2, Fraction(2, 1));
    MakeZero(-7);
    MakeCanonical(2, -4, Fraction(-1, 2));
    MakeCanonical(5, 6, Fraction(5, 6));
    MakeCanonical(2, 4, Fraction(1, 2));
    MakeCanonical(3, 6, Fraction(1, 2));
    MakeCanonical(1, 4, Fraction(1, 4));
    MakeZero(5);
  }

  lemma ParseWholeExample()
    ensures Parse("42") == Ok(Fraction(42, 1))
  {
    assert Decimal.IntToString(42) == "42";
    ParseWhole(42);
  }

  /** The sign may sit on either part of the text. */
  lemma ParseSignExamples()
    ensures Parse("-3/6") == Ok(Fraction(-1, 2))
    ensures Parse("3/-6") == Ok(Fraction(-1, 2))
  {
    SignExampleTexts();
    ParseRatio(-3, 6);
    ParseRatio(3, -6);
    MakeCanonical(-3, 6, Fraction(-1, 2));
    MakeCanonical(3, -6, Fraction(-1, 2));
  }

  lemma SignExampleTexts()
    ensures Decimal.IntToString(-3) + "/" + Decimal.IntToString(6) == "-3/6"
    ensures Decimal.IntToString(3) + "/" + Decimal.IntToString(-6) == "3/-6"
  {
    assert Decimal.IntToString(-3) == "-3";
    assert Decimal.IntToString(6) == "6";
    assert Decimal.IntToString(3) == "3";
    assert Decimal.IntToString(-6) == "-6";
  }

  lemma ParseZeroDenominatorExample()
    ensures Parse("5/0") == Err(DivByZero)
  {
    assert Decimal.IntToString(5) + "/" + Decimal.IntToString(0) == "5/0" by {
      assert Decimal.IntToString(5) == "5";
      assert Decimal.IntToString(0) == "0";
    }
    ParseRatio(5, 0);
  }

  lemma ParseGarbageExample()
    ensures Parse("abc") == Err(Invalid)
  {
    var t := "abc";
    assert t[0] == 'a' && t[1] == 'b' && t[2] == 'c';
    assert '/' !in t;
    Text.TrimUntrimmed(t);
    assert !Decimal.IsDigit(t[0]);
    assert Decimal.ParseInt(t) == Err(Invalid);
  }
}
