/** Integer divisibility and the greatest common divisor, as computed by
    BigInteger.gcd: the gcd of the absolute values, with gcd(0, 0) = 0. */
module Divisibility {

  function Abs(x: int): (r: nat)
    ensures r == x || r == -x
  {
    if x < 0 then -x else x
  }

  /** `c` is a positive divisor of `a`. */
  predicate Divides(c: nat, a: int) {
    c > 0 && a % c == 0
  }

  /** Euclid's algorithm. */
  function Gcd(a: nat, b: nat): nat
    decreases b
  {
    if b == 0 then a else Gcd(b, a % b)
  }

  // ---------------------------------------------------------------------
  // Euclidean division facts the solver does not find on its own

  /** Quotient and remainder are unique. */
  lemma DivModUnique(x: int, m: int, q: int, r: int)
    requires m > 0 && 0 <= r < m && x == q * m + r
    ensures x / m == q && x % m == r
  {
    var q', r' := x / m, x % m;
    assert (q - q') * m == r' - r;
    if q > q' {
      MulAtLeast(q - q', m);
    } else if q < q' {
      MulAtLeast(q' - q, m);
    }
  }

  lemma MulAtLeast(t: int, m: int)
    requires t >= 1 && m > 0
    ensures t * m >= m
  {
    assert t * m == m + (t - 1) * m;
  }

  lemma MultipleDivides(c: nat, k: int)
    requires c > 0
    ensures Divides(c, c * k) && (c * k) / c == k
  {
    DivModUnique(c * k, c, k, 0);
  }

  lemma DividesFactor(c: nat, a: int)
    requires Divides(c, a)
    ensures a == c * (a / c)
  {
  }

  /** Common divisors are closed under linear combination. */
  lemma DividesLinear(c: nat, x: int, y: int, q: int)
    requires Divides(c, x) && Divides(c, y)
    ensures Divides(c, y + q * x)
  {
    var kx, ky := x / c, y / c;
    DividesFactor(c, x);
    DividesFactor(c, y);
    assert y + q * x == c * (ky + q * kx);
    MultipleDivides(c, ky + q * kx);
  }

  lemma DividesNegate(c: nat, a: int)
    requires Divides(c, a)
    ensures Divides(c, -a)
  {
    DividesLinear(c, a, 0, -1);
  }

  lemma DividesAbs(c: nat, a: int)
    requires c > 0
    ensures Divides(c, a) <==> Divides(c, Abs(a))
  {
    if Divides(c, a) { DividesNegate(c, a); }
    if Divides(c, Abs(a)) { DividesNegate(c, Abs(a)); }
  }

  /** A positive divisor of a positive number is no larger than it. */
  lemma DividesBound(c: nat, a: int)
    requires Divides(c, a) && a > 0
    ensures c <= a
  {
    DividesFactor(c, a);
    var k := a / c;
    assert k >= 1;
    MulAtLeast(k, c);
    assert k * c == c * k;
  }

  // ---------------------------------------------------------------------
  // The defining properties of Gcd

  /** Gcd(a, b) divides both a and b. */
  lemma {:induction false} GcdDivides(a: nat, b: nat)
    requires a > 0 || b > 0
    decreases b
    ensures Gcd(a, b) > 0 && Divides(Gcd(a, b), a) && Divides(Gcd(a, b), b)
  {
    if b == 0 {
      MultipleDivides(a, 1);
      MultipleDivides(a, 0);
    } else {
      GcdDivides(b, a % b);
      var g := Gcd(b, a % b);
      assert a == a % b + (a / b) * b;
      DividesLinear(g, b, a % b, a / b);
    }
  }

  /** Every common divisor of a and b divides Gcd(a, b). */
  lemma {:induction false} GcdGreatest(a: nat, b: nat, c: nat)
    requires Divides(c, a) && Divides(c, b)
    ensures Divides(c, Gcd(a, b))
    decreases b
  {
    if b != 0 {
      assert a % b == a + (-(a / b)) * b;
      DividesLinear(c, b, a, -(a / b));
      GcdGreatest(b, a % b, c);
    }
  }

  /** Scaling both arguments scales the gcd. */
  lemma {:induction false} GcdScale(k: nat, a: nat, b: nat)
    ensures Gcd(k * a, k * b) == k * Gcd(a, b)
    decreases b
  {
    if b == 0 {
      assert k * b == 0;
    } else if k == 0 {
      assert k * a == 0 && k * b == 0;
    } else {
      var q, r := a / b, a % b;
      assert k * a == q * (k * b) + k * r;
      assert 0 <= k * r < k * b;
      DivModUnique(k * a, k * b, q, k * r);
      GcdScale(k, b, r);
    }
  }

  lemma GcdZeroLeft(b: nat)
    ensures Gcd(0, b) == b
  {
  }

  lemma GcdOneRight(a: nat)
    ensures Gcd(a, 1) == 1
  {
    assert a % 1 == 0;
  }

  /** Dividing both arguments by their gcd leaves coprime numbers. */
  lemma GcdReduced(a: nat, b: nat)
    requires b > 0
    ensures Gcd(a, b) > 0
    ensures Divides(Gcd(a, b), a) && Divides(Gcd(a, b), b)
    ensures Gcd(a / Gcd(a, b), b / Gcd(a, b)) == 1
  {
    var g := Gcd(a, b);
    GcdDivides(a, b);
    DividesFactor(g, a);
    DividesFactor(g, b);
    GcdScale(g, a / g, b / g);
    OneFactor(g, Gcd(a / g, b / g));
  }

  /** The only factor that leaves a positive number unchanged is 1. */
  lemma OneFactor(g: nat, c: nat)
    requires g > 0 && g * c == g
    ensures c == 1
  {
    assert g * (c - 1) == 0;
  }

  lemma AbsMul(x: int, y: int)
    ensures Abs(x * y) == Abs(x) * Abs(y)
  {
    if x < 0 && y < 0 {
      assert x * y == (-x) * (-y);
    } else if x < 0 {
      assert -(x * y) == (-x) * y;
    } else if y < 0 {
      assert -(x * y) == x * (-y);
    }
  }

  /** Euclid's lemma: a divisor of x * y that is coprime to x divides y. */
  lemma EuclidDivides(d: nat, x: int, y: int)
    requires Divides(d, x * y) && Gcd(Abs(x), d) == 1
    ensures Divides(d, y)
  {
    DividesAbsProduct(d, x, y);
    EuclidNat(d, Abs(x), Abs(y));
    DividesAbs(d, y);
  }

  lemma DividesAbsProduct(d: nat, x: int, y: int)
    requires Divides(d, x * y)
    ensures Divides(d, Abs(x) * Abs(y))
  {
    AbsMul(x, y);
    DividesAbs(d, x * y);
  }

  /** Euclid's lemma on natural numbers: d divides a * b and the gcd of a * b
      and d * b is b, so d divides b. */
  lemma EuclidNat(d: nat, a: nat, b: nat)
    requires Divides(d, a * b) && Gcd(a, d) == 1
    ensures Divides(d, b)
  {
    GcdScaleCoprime(b, a, d);
    MultipleDivides(d, b);
    CommonDivisor(d, a * b, d * b, b);
  }

  /** Scaling two coprime numbers by b gives numbers whose gcd is b. */
  lemma GcdScaleCoprime(b: nat, a: nat, d: nat)
    requires Gcd(a, d) == 1
    ensures Gcd(a * b, d * b) == b
  {
    GcdScale(b, a, d);
    MulCommutes(b, a);
    MulCommutes(b, d);
  }

  lemma MulCommutes(x: int, y: int)
    ensures x * y == y * x
  {
  }

  /** A common divisor of two numbers divides any number known to be their gcd. */
  lemma CommonDivisor(d: nat, p: nat, q: nat, g: nat)
    requires Divides(d, p) && Divides(d, q) && Gcd(p, q) == g
    ensures Divides(d, g)
  {
    GcdGreatest(p, q, d);
  }

  lemma MutualDivides(a: nat, b: nat)
    requires Divides(a, b) && Divides(b, a)
    ensures a == b
  {
    DividesBound(a, b);
    DividesBound(b, a);
  }
}
