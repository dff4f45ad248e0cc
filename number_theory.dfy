/** Divisibility, greatest common divisors, Bezout coefficients and primes over
    mathematical integers: the number theory that modular inversion and the
    coprimality test rest on. */
module NumberTheory {

  /** d is a positive divisor of x. */
  predicate Divides(d: int, x: int) {
    d > 0 && x % d == 0
  }

  /** x and y are congruent modulo the positive modulus m. */
  predicate Congruent(x: int, y: int, m: int) {
    Divides(m, x - y)
  }

  /** The only positive common divisor of a and b is 1. */
  ghost predicate NoCommonDivisor(a: int, b: int) {
    forall d :: Divides(d, a) && Divides(d, b) ==> d == 1
  }

  ghost predicate IsPrime(p: int) {
    p > 1 && forall d :: Divides(d, p) ==> d == 1 || d == p
  }

  /** Euclid's algorithm. */
  function Gcd(a: nat, b: nat): nat
    decreases b
  {
    if b == 0 then a else Gcd(b, a % b)
  }

  /** The extended Euclidean algorithm: the gcd together with Bezout
      coefficients (x, y) such that a * x + b * y is that gcd. */
  function ExtGcd(a: nat, b: nat): (r: (nat, int, int))
    decreases b
    ensures r.0 == Gcd(a, b)
    ensures a * r.1 + b * r.2 == r.0
  {
    if b == 0 then (a, 1, 0)
    else
      var t := ExtGcd(b, a % b);
      BezoutStep(a, b, t.0, t.1, t.2);
      (t.0, t.2, t.1 - (a / b) * t.2)
  }

  lemma BezoutStep(a: nat, b: nat, g: int, x: int, y: int)
    requires b > 0 && b * x + (a % b) * y == g
    ensures a * y + b * (x - (a / b) * y) == g
  {
    var q := a / b;
    assert a == q * b + a % b;
    calc {
      a * y + b * (x - q * y);
      (q * b + a % b) * y + b * x - b * (q * y);
      b * x + (a % b) * y;
    }
  }

  /** A multiple of m strictly between -m and m is zero. */
  lemma SmallMultipleIsZero(c: int, m: int)
    requires m > 0 && -m < c * m < m
    ensures c == 0
  {
    assert c >= 1 ==> c * m >= m;
    assert c <= -1 ==> c * m <= -m;
  }

  /** Remainders are unique: shifting x by a multiple of m keeps its remainder. */
  lemma RemainderUnique(x: int, k: int, m: int)
    requires m > 0 && 0 <= x < m
    ensures (k * m + x) % m == x
  {
    var y := k * m + x;
    assert y == (y / m) * m + y % m;
    assert (k - y / m) * m == y % m - x;
    SmallMultipleIsZero(k - y / m, m);
  }

  /** Euclidean division: quotient times divisor plus remainder. */
  lemma DivMod(x: int, m: int)
    requires m > 0
    ensures (x / m) * m + x % m == x
  {
  }

  lemma MultipleDivides(d: int, k: int)
    requires d > 0
    ensures Divides(d, k * d)
  {
    RemainderUnique(0, k, d);
  }

  /** Divisibility is closed under integer linear combinations. */
  lemma DividesLinear(d: int, x: int, y: int, a: int, b: int)
    requires Divides(d, x) && Divides(d, y)
    ensures Divides(d, a * x + b * y)
  {
    var X, Y := x / d, y / d;
    assert x == X * d && y == Y * d;
    assert a * x + b * y == (a * X + b * Y) * d;
    MultipleDivides(d, a * X + b * Y);
  }

  /** A positive divisor of a positive number is at most that number. */
  lemma DividesBounded(d: int, x: int)
    requires Divides(d, x) && x > 0
    ensures d <= x
  {
    var k := x / d;
    assert x == k * d;
    assert k <= 0 ==> k * d <= 0;
    assert k >= 1 ==> k * d >= d;
  }

  /** A positive multiple x of p below 2 * p is p itself. */
  lemma MultipleBelowDouble(p: int, x: int)
    requires Divides(p, x) && 0 < x < 2 * p
    ensures x == p
  {
    var k := x / p;
    assert x == k * p;
    assert k <= 0 ==> k * p <= 0;
    assert k >= 2 ==> k * p >= 2 * p;
  }

  /** Every positive divisor of an odd number is odd. */
  lemma DivisorOfOddIsOdd(d: int, v: int)
    requires Divides(d, v) && v % 2 == 1
    ensures d % 2 == 1
  {
    var k, e := v / d, d / 2;
    assert v == k * d;
    assert d % 2 == 0 ==> v == 2 * (k * e);
  }

  /** An odd modulus that divides 2 * w divides w. */
  lemma OddDividesHalf(m: int, w: int)
    requires m % 2 == 1 && Divides(m, 2 * w)
    ensures Divides(m, w)
  {
    var k := (2 * w) / m;
    assert 2 * w == k * m;
    var j := k / 2;
    assert k % 2 == 1 ==> k * m == 2 * (j * m) + m;
    assert k == 2 * j;
    assert 2 * w == 2 * (j * m);
    MultipleDivides(m, j);
  }

  /** Gcd(a, b) is a positive common divisor of a and b. */
  lemma {:induction false} GcdDividesBoth(a: nat, b: nat)
    requires a > 0 || b > 0
    ensures Gcd(a, b) > 0 && Divides(Gcd(a, b), a) && Divides(Gcd(a, b), b)
    decreases b
  {
    if b > 0 {
      GcdDividesBoth(b, a % b);
      var g := Gcd(b, a % b);
      assert Gcd(a, b) == g;
      DividesLinear(g, b, a % b, a / b, 1);
      DivMod(a, b);
    }
  }

  /** Every common divisor of a and b divides Gcd(a, b). */
  lemma {:induction false} CommonDivisorDividesGcd(d: int, a: nat, b: nat)
    requires Divides(d, a) && Divides(d, b)
    ensures Divides(d, Gcd(a, b))
    decreases b
  {
    if b > 0 {
      var q, r := a / b, a % b;
      DivMod(a, b);
      assert 1 * a + (-q) * b == r;
      DividesLinear(d, a, b, 1, -q);
      CommonDivisorDividesGcd(d, b, r);
    }
  }

  /** Gcd(a, b) is 1 exactly when 1 is the only positive common divisor. */
  lemma GcdOneIff(a: nat, b: nat)
    requires a > 0 || b > 0
    ensures Gcd(a, b) == 1 <==> NoCommonDivisor(a, b)
  {
    GcdDividesBoth(a, b);
    if Gcd(a, b) == 1 {
      forall d | Divides(d, a) && Divides(d, b) ensures d == 1 {
        CommonDivisorDividesGcd(d, a, b);
        DividesBounded(d, 1);
      }
    }
  }

  /** The common divisors of x and m are those of x's remainder and m. */
  lemma CommonDivisorsOfRemainder(d: int, x: int, m: int)
    requires m > 0 && Divides(d, m)
    ensures Divides(d, x) <==> Divides(d, x % m)
  {
    var q, r := x / m, x % m;
    DivMod(x, m);
    assert 1 * x + (-q) * m == r && 1 * r + q * m == x;
    if Divides(d, x) {
      DividesLinear(d, x, m, 1, -q);
    }
    if Divides(d, r) {
      DividesLinear(d, r, m, 1, q);
    }
  }

  /** A product of two numbers each coprime to c is coprime to c. */
  lemma CoprimeProduct(a: nat, b: nat, c: nat)
    requires c > 0 && NoCommonDivisor(a, c) && NoCommonDivisor(b, c)
    ensures NoCommonDivisor(a * b, c)
  {
    GcdOneIff(a, c);
    GcdOneIff(b, c);
    var (_, x, y) := ExtGcd(a, c);
    var (_, u, v) := ExtGcd(b, c);
    var s, t := x * u, a * x * v + y * b * u + c * y * v;
    BezoutProduct(a, b, c, x, y, u, v);
    forall d | Divides(d, a * b) && Divides(d, c) ensures d == 1 {
      DividesLinear(d, a * b, c, s, t);
      DividesBounded(d, 1);
    }
  }

  /** Multiplying two Bezout identities for a and c and for b and c gives one
      for a * b and c. */
  lemma BezoutProduct(a: int, b: int, c: int, x: int, y: int, u: int, v: int)
    requires a * x + c * y == 1 && b * u + c * v == 1
    ensures (x * u) * (a * b) + (a * x * v + y * b * u + c * y * v) * c == 1
  {
    calc {
      1;
      (a * x + c * y) * (b * u + c * v);
      (a * x) * (b * u) + (a * x) * (c * v) + (c * y) * (b * u) + (c * y) * (c * v);
      (x * u) * (a * b) + (a * x * v + y * b * u + c * y * v) * c;
    }
  }

  /** A prime that does not divide x shares no divisor with x but 1. */
  lemma PrimeNotDividing(p: int, x: int)
    requires IsPrime(p) && !Divides(p, x)
    ensures NoCommonDivisor(x, p) && NoCommonDivisor(p, x)
  {
  }

  /** Euclid's lemma: a prime dividing neither factor does not divide the product. */
  lemma EuclidPrime(p: nat, a: nat, b: nat)
    requires IsPrime(p) && !Divides(p, a) && !Divides(p, b)
    ensures !Divides(p, a * b)
  {
    PrimeNotDividing(p, a);
    PrimeNotDividing(p, b);
    CoprimeProduct(a, b, p);
    assert Divides(p, p);
  }

  /** Primes above 2 are odd. */
  lemma OddPrime(p: int)
    requires IsPrime(p) && p > 2
    ensures p % 2 == 1
  {
    assert !Divides(2, p);
  }

  /** For odd primes p and q within a factor of two of each other (as two
      primes of the same bit length are), N = p * q and its totient
      (p - 1) * (q - 1) share no divisor but 1. */
  lemma RsaModulusCoprimeToTotient(p: nat, q: nat)
    requires IsPrime(p) && IsPrime(q) && p > 2 && q > 2
    requires p < 2 * q && q < 2 * p
    ensures NoCommonDivisor(p * q, (p - 1) * (q - 1))
  {
    OddPrime(p);
    OddPrime(q);
    PrimeCoprimeToTotient(p, q);
    PrimeCoprimeToTotient(q, p);
    CoprimeProduct(p, q, (p - 1) * (q - 1));
  }

  /** An odd prime p is coprime to (p - 1) * (q - 1) when q is an odd prime
      below 2 * p. */
  lemma PrimeCoprimeToTotient(p: nat, q: nat)
    requires IsPrime(p) && IsPrime(q) && p % 2 == 1 && q % 2 == 1 && q < 2 * p
    ensures NoCommonDivisor(p, (p - 1) * (q - 1)) && NoCommonDivisor(p, (q - 1) * (p - 1))
  {
    var r: nat, s: nat := p - 1, q - 1;
    if Divides(p, r) {
      DividesBounded(p, r);
    }
    if Divides(p, s) {
      MultipleBelowDouble(p, s);
    }
    EuclidPrime(p, r, s);
    assert r * s == s * r;
    PrimeNotDividing(p, r * s);
  }
}
