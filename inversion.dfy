/** The two modular-inversion algorithms of mod_t (DEFAULT and SCR), the
    dispatch between them, and the RSA/Paillier helper N_inv_mod_phiN_2048. */
module Inversion {
  import opened NumberTheory
  import opened ModArith

  /** The algorithm selector of mod_t::inv. */
  datatype InvAlgo = Default | Scr

  /** DEFAULT: the extended Euclidean algorithm on (m, a mod m), keeping for
      each remainder a coefficient t with t * a = remainder (mod m). */
  method InvDefault(a: int, m: Modulus) returns (r: Result<int>)
    ensures r.Ok? <==> Coprime(a, m)
    ensures r.Ok? ==> 0 <= r.value < m && Mod(a * r.value, m) == 1
    ensures r == ModInverse(a, m)
  {
    var x := Mod(a, m);
    var r0: nat, r1: nat := m, x;
    var t0, t1 := 0, 1;
    DividesLinear(m, m, m, 0, 0);
    DividesLinear(m, m, m, -1, 0);
    while r1 != 0
      invariant r0 > 0
      invariant Gcd(r0, r1) == Gcd(m, x)
      invariant Congruent(t0 * x, r0, m) && Congruent(t1 * x, r1, m)
      decreases r1
    {
      var q := r0 / r1;
      EuclidStep(r0, r1, t0, t1, x, m);
      r0, r1 := r1, r0 % r1;
      t0, t1 := t1, t0 - q * t1;
    }
    ModOfInRange(x, m);
    assert Gcd(x, m) == Gcd(m, x);
    if r0 == 1 {
      InverseFromCongruence(a, m, t0);
      InverseUnique(a, m, Mod(t0, m));
      r := Ok(Mod(t0, m));
    } else {
      r := Err(NotInvertible);
    }
  }

  /** One division step of the extended Euclidean algorithm keeps the
      coefficient invariant. */
  lemma EuclidStep(r0: nat, r1: nat, t0: int, t1: int, x: int, m: Modulus)
    requires r1 > 0
    requires Congruent(t0 * x, r0, m) && Congruent(t1 * x, r1, m)
    ensures Congruent((t0 - (r0 / r1) * t1) * x, r0 % r1, m)
  {
    var q, rem := r0 / r1, r0 % r1;
    DivMod(r0, r1);
    CoefficientStep(t0, t1, x, q, r0, r1, rem);
    DividesLinear(m, t0 * x - r0, t1 * x - r1, 1, -q);
  }

  /** The algebra of one division step: with r0 = q * r1 + rem, the new
      coefficient's error is a combination of the two old ones. */
  lemma CoefficientStep(t0: int, t1: int, x: int, q: int, r0: int, r1: int, rem: int)
    requires r0 == q * r1 + rem
    ensures (t0 - q * t1) * x - rem == 1 * (t0 * x - r0) + (-q) * (t1 * x - r1)
  {
    assert (t0 - q * t1) * x == t0 * x - q * (t1 * x);
  }

  /** The common divisors of u and v are exactly those of x and m. */
  ghost predicate SameCommonDivisors(u: int, v: int, x: int, m: int) {
    forall d :: Divides(d, u) && Divides(d, v) <==> Divides(d, x) && Divides(d, m)
  }

  /** y / 2 modulo the odd m: the exact half of y or of y + m. */
  function Halve(y: int, m: Modulus): (h: int)
    ensures Congruent(2 * h, y, m)
  {
    DividesLinear(m, m, m, 0, 0);
    DividesLinear(m, m, m, 1, 0);
    if y % 2 == 0 then y / 2 else (y + m) / 2
  }

  /** SCR: a binary extended gcd. It keeps v odd, only halves, subtracts and
      swaps, and keeps coefficients x1, x2 with x1 * a = u and x2 * a = v
      (mod m); when u reaches 0, v is the gcd. */
  method InvScr(a: int, m: Modulus) returns (r: Result<int>)
    ensures r.Ok? <==> Coprime(a, m)
    ensures r.Ok? ==> 0 <= r.value < m && Mod(a * r.value, m) == 1
    ensures r == ModInverse(a, m)
  {
    var x := Mod(a, m);
    var u: nat, v: nat := x, m;
    var x1, x2 := 1, 0;
    DividesLinear(m, m, m, 0, 0);
    DividesLinear(m, m, m, -1, 0);
    while u != 0
      invariant v % 2 == 1
      invariant SameCommonDivisors(u, v, x, m)
      invariant Congruent(x1 * x, u, m) && Congruent(x2 * x, v, m)
      decreases u + v
    {
      if u % 2 == 0 {
        HalveStep(u, v, x1, x, m);
        u, x1 := u / 2, Halve(x1, m);
      } else if u >= v {
        SubtractStep(u, v, x1, x2, x, m);
        u, x1 := u - v, x1 - x2;
      } else {
        SubtractStep(v, u, x2, x1, x, m);
        u, v := v - u, u;
        x1, x2 := x2 - x1, x1;
      }
    }
    ModOfInRange(x, m);
    if v == 1 {
      InverseFromCongruence(a, m, x2);
      InverseUnique(a, m, Mod(x2, m));
      r := Ok(Mod(x2, m));
    } else {
      assert Divides(v, 0) && Divides(v, v);
      SharedDivisorNotCoprime(a, m, v);
      r := Err(NotInvertible);
    }
  }

  /** A divisor above 1 shared by a's representative and m rules out coprime. */
  lemma SharedDivisorNotCoprime(a: int, m: Modulus, v: int)
    requires v > 1 && Divides(v, Mod(a, m)) && Divides(v, m)
    ensures !Coprime(a, m)
  {
    RepresentativeDivisors(a, m);
  }

  /** Halving an even u (v odd) keeps both invariants of the binary loop. */
  lemma HalveStep(u: nat, v: nat, x1: int, x: int, m: Modulus)
    requires u % 2 == 0 && v % 2 == 1
    requires SameCommonDivisors(u, v, x, m) && Congruent(x1 * x, u, m)
    ensures SameCommonDivisors(u / 2, v, x, m)
    ensures Congruent(Halve(x1, m) * x, u / 2, m)
  {
    forall d | Divides(d, v)
      ensures Divides(d, u / 2) <==> Divides(d, u)
    {
      if Divides(d, u / 2) {
        DividesLinear(d, u / 2, v, 2, 0);
      }
      if Divides(d, u) {
        DivisorOfOddIsOdd(d, v);
        OddDividesHalf(d, u / 2);
      }
    }
    HalveCoefficient(u, x1, x, m);
  }

  lemma HalveCoefficient(u: nat, x1: int, x: int, m: Modulus)
    requires u % 2 == 0 && Congruent(x1 * x, u, m)
    ensures Congruent(Halve(x1, m) * x, u / 2, m)
  {
    var h, w := Halve(x1, m), u / 2;
    var e, f := 2 * h - x1, x1 * x - u;
    assert 2 * (h * x - w) == x * e + 1 * f;
    DividesLinear(m, e, f, x, 1);
    OddDividesHalf(m, h * x - w);
  }

  /** Replacing u by u - v (and x1 by x1 - x2) keeps both invariants. */
  lemma SubtractStep(u: nat, v: nat, x1: int, x2: int, x: int, m: Modulus)
    requires u >= v
    requires SameCommonDivisors(u, v, x, m) || SameCommonDivisors(v, u, x, m)
    requires Congruent(x1 * x, u, m) && Congruent(x2 * x, v, m)
    ensures SameCommonDivisors(u - v, v, x, m) && SameCommonDivisors(v, u - v, x, m)
    ensures Congruent((x1 - x2) * x, u - v, m)
  {
    forall d | Divides(d, v)
      ensures Divides(d, u - v) <==> Divides(d, u)
    {
      if Divides(d, u - v) {
        DividesLinear(d, u - v, v, 1, 1);
      }
      if Divides(d, u) {
        DividesLinear(d, u, v, 1, -1);
      }
    }
    assert (x1 - x2) * x - (u - v) == (x1 * x - u) - (x2 * x - v);
    DividesLinear(m, x1 * x - u, x2 * x - v, 1, -1);
  }

  /** mod_t::inv(a, algo): both algorithms return the unique inverse, so they
      agree on every operand. */
  method Inv(a: int, m: Modulus, algo: InvAlgo) returns (r: Result<int>)
    ensures r.Ok? <==> Coprime(a, m)
    ensures r.Ok? ==> 0 <= r.value < m && Mod(a * r.value, m) == 1
    ensures r == ModInverse(a, m)
  {
    match algo
    case Default => r := InvDefault(a, m);
    case Scr => r := InvScr(a, m);
  }

  /** mod_t::N_inv_mod_phiN_2048(N, phiN): the inverse of the odd N modulo the
      even phiN. It inverts phiN modulo the odd N instead, x * phiN = 1 + k * N,
      so that N * (-k) = 1 (mod phiN). */
  method NInvModPhiN(n: int, phiN: int) returns (r: Result<int>)
    requires n > 1 && n % 2 == 1 && phiN > 1
    ensures r.Ok? <==> NoCommonDivisor(n, phiN)
    ensures r.Ok? ==> 0 <= r.value < phiN && Mod(n * r.value, phiN) == 1
  {
    var x := InvDefault(phiN, n);
    if x.Err? {
      r := Err(NotInvertible);
      return;
    }
    var xv := x.value;
    var k := (phiN * xv - 1) / n;
    assert phiN * xv - 1 == k * n by {
      DivMod(phiN * xv - 1, n);
      DivMod(phiN * xv, n);
    }
    r := Ok(Mod(-k, phiN));
    TotientInverse(n, phiN, xv, k);
  }

  lemma TotientInverse(n: int, phiN: int, x: int, k: int)
    requires n > 1 && phiN > 1 && phiN * x - 1 == k * n
    ensures Mod(n * Mod(-k, phiN), phiN) == 1
  {
    ModOfResidues(n, -k, phiN);
    ModOfInRange(Mod(-k, phiN), phiN);
    assert n * (-k) == 1 + (-x) * phiN;
    MultipleDivides(phiN, -x);
    ModOfCongruent(n * (-k), 1, phiN);
    ModOfInRange(1, phiN);
    ModOfResidues(n, Mod(-k, phiN), phiN);
  }
}
