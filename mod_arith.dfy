/** The modular-arithmetic type mod_t: a modulus value, the two timing modes,
    canonical reduction, coprimality, mode-dependent addition and
    multiplication, and the modular inverse both inversion algorithms are
    measured against. */
module ModArith {
  import opened NumberTheory

  /** The fatal conditions the library reports. */
  datatype Fatal =
    | MontCtxSetFailed           // the Montgomery context rejects the modulus value
    | OutOfRangeForConstantTime  // an operand outside [0, m) reached a constant-time operation
    | NotInvertible              // the operand shares a factor with the modulus

  datatype Result<T> = Ok(value: T) | Err(error: Fatal)

  /** The timing mode an operation runs under. */
  datatype Mode = ConstantTime | VariableTime

  /** A modulus value that a Montgomery context accepts: odd and above 1. */
  type Modulus = m: int | 1 < m && m % 2 == 1 witness 3

  /** Building a mod_t from a value: odd values above 1 are accepted, every
      even value is rejected. */
  function NewModulus(v: int): (r: Result<Modulus>)
    ensures r.Ok? <==> v > 1 && !Divides(2, v)
    ensures r.Ok? ==> r.value == v
    ensures r.Err? ==> r.error == MontCtxSetFailed
  {
    if v % 2 == 0 || v <= 1 then Err(MontCtxSetFailed) else Ok(v)
  }

  /** mod(a, m): the canonical representative of a in [0, m), for a of any
      sign and size and any positive m. */
  function Mod(a: int, m: int): (r: int)
    requires m > 0
    ensures 0 <= r < m && Congruent(a, r, m)
    ensures r == 0 <==> Divides(m, a)
  {
    DivMod(a, m);
    MultipleDivides(m, a / m);
    a % m
  }

  /** The representative is unique: any r in [0, m) congruent to a is Mod(a, m). */
  lemma ModUnique(a: int, m: int, r: int)
    requires m > 0 && 0 <= r < m && Congruent(a, r, m)
    ensures r == Mod(a, m)
  {
    var k := (a - r) / m;
    DivMod(a - r, m);
    assert a == k * m + r;
    RemainderUnique(r, k, m);
  }

  /** Congruent numbers have the same representative. */
  lemma ModOfCongruent(x: int, y: int, m: int)
    requires m > 0 && Congruent(x, y, m)
    ensures Mod(x, m) == Mod(y, m)
  {
    var r := Mod(y, m);
    DividesLinear(m, x - y, y - r, 1, 1);
    ModUnique(x, m, r);
  }

  lemma CongruentTrans(x: int, y: int, z: int, m: int)
    requires Congruent(x, y, m) && Congruent(y, z, m)
    ensures Congruent(x, z, m)
  {
    DividesLinear(m, x - y, y - z, 1, 1);
  }

  lemma CongruentSym(x: int, y: int, m: int)
    requires Congruent(x, y, m)
    ensures Congruent(y, x, m)
  {
    DividesLinear(m, x - y, x - y, -1, 0);
  }

  /** Congruences may be added and multiplied. */
  lemma CongruentAddMul(x: int, x': int, y: int, y': int, m: int)
    requires Congruent(x, x', m) && Congruent(y, y', m)
    ensures Congruent(x + y, x' + y', m)
    ensures Congruent(x * y, x' * y', m)
  {
    DividesLinear(m, x - x', y - y', 1, 1);
    ProductDifference(x, x', y, y');
    DividesLinear(m, y - y', x - x', x, y');
  }

  lemma ProductDifference(x: int, x': int, y: int, y': int)
    ensures x * y - x' * y' == x * (y - y') + y' * (x - x')
  {
    assert x * (y - y') == x * y - x * y';
    assert y' * (x - x') == x * y' - x' * y';
  }

  /** Reducing the operands first does not change the reduced sum or product. */
  lemma ModOfResidues(a: int, b: int, m: int)
    requires m > 0
    ensures Mod(Mod(a, m) + Mod(b, m), m) == Mod(a + b, m)
    ensures Mod(Mod(a, m) * Mod(b, m), m) == Mod(a * b, m)
  {
    CongruentSym(a, Mod(a, m), m);
    CongruentSym(b, Mod(b, m), m);
    CongruentAddMul(Mod(a, m), a, Mod(b, m), b, m);
    ModOfCongruent(Mod(a, m) + Mod(b, m), a + b, m);
    ModOfCongruent(Mod(a, m) * Mod(b, m), a * b, m);
  }

  /** A value already in [0, m) is its own representative. */
  lemma ModOfInRange(a: int, m: int)
    requires 0 <= a < m
    ensures Mod(a, m) == a
  {
    DividesLinear(m, m, m, 0, 0);
    ModUnique(a, m, a);
  }

  /** coprime(a, m): gcd(a, m) == 1, computed on the representative of a. It
      holds exactly when 1 is the only positive common divisor of a and m. */
  predicate Coprime(a: int, m: Modulus): (b: bool)
    ensures b <==> NoCommonDivisor(a, m)
  {
    GcdOneIff(Mod(a, m), m);
    RepresentativeDivisors(a, m);
    Gcd(Mod(a, m), m) == 1
  }

  /** The divisors of m that divide a are those that divide a's representative. */
  lemma RepresentativeDivisors(a: int, m: Modulus)
    ensures forall d :: Divides(d, m) ==> (Divides(d, a) <==> Divides(d, Mod(a, m)))
  {
    forall d | Divides(d, m)
      ensures Divides(d, a) <==> Divides(d, Mod(a, m))
    {
      CommonDivisorsOfRemainder(d, a, m);
    }
  }

  /** 1 is coprime to every modulus, 0 to none, and m - 1 to m. */
  lemma CoprimeEdgeCases(m: Modulus)
    ensures Coprime(1, m) && !Coprime(0, m) && Coprime(m - 1, m)
  {
    ModOfInRange(1, m);
    ModOfInRange(0, m);
    ModOfInRange(m - 1, m);
    assert Gcd(1, m) == Gcd(m, 1) == Gcd(1, 0) == 1;
    assert Gcd(0, m) == Gcd(m, 0) == m;
    RemainderUnique(1, 1, m - 1);
    assert Gcd(m - 1, m) == Gcd(m, m - 1) == Gcd(m - 1, 1) == Gcd(1, 0);
  }

  /** Modulo a prime, a is coprime exactly when the prime does not divide it. */
  lemma CoprimeModPrime(a: int, m: Modulus)
    requires IsPrime(m)
    ensures Coprime(a, m) <==> !Divides(m, a)
  {
    if !Divides(m, a) {
      PrimeNotDividing(m, a);
    }
    assert Divides(m, m);
  }

  predicate InRange(a: int, m: Modulus) {
    0 <= a < m
  }

  /** The constant-time sum of two reduced operands: one conditional subtraction. */
  function AddReduced(x: int, y: int, m: Modulus): (r: int)
    requires InRange(x, m) && InRange(y, m)
    ensures r == Mod(x + y, m)
  {
    var s := x + y;
    var r := if s >= m then s - m else s;
    DividesLinear(m, m, m, 0, 0);
    DividesLinear(m, m, m, 1, 0);
    ModUnique(s, m, r);
    r
  }

  /** m.add(a, b). In constant-time mode both operands must already lie in
      [0, m), anything else is the fatal range error; in variable-time mode
      operands of any sign or size are reduced first. */
  function Add(m: Modulus, mode: Mode, a: int, b: int): (r: Result<int>)
    ensures r.Ok? <==> mode == VariableTime || (InRange(a, m) && InRange(b, m))
    ensures r.Ok? ==> r.value == Mod(a + b, m)
    ensures r.Err? ==> r.error == OutOfRangeForConstantTime
  {
    match mode
    case ConstantTime =>
      if InRange(a, m) && InRange(b, m) then Ok(AddReduced(a, b, m))
      else Err(OutOfRangeForConstantTime)
    case VariableTime =>
      ModOfResidues(a, b, m);
      Ok(AddReduced(Mod(a, m), Mod(b, m), m))
  }

  /** m.mul(a, b), with the same two-mode contract as Add. */
  function Mul(m: Modulus, mode: Mode, a: int, b: int): (r: Result<int>)
    ensures r.Ok? <==> mode == VariableTime || (InRange(a, m) && InRange(b, m))
    ensures r.Ok? ==> r.value == Mod(a * b, m)
    ensures r.Err? ==> r.error == OutOfRangeForConstantTime
  {
    match mode
    case ConstantTime =>
      if InRange(a, m) && InRange(b, m) then Ok(Mod(a * b, m))
      else Err(OutOfRangeForConstantTime)
    case VariableTime =>
      ModOfResidues(a, b, m);
      Ok(Mod(Mod(a, m) * Mod(b, m), m))
  }

  /** Variable-time add and mul are the constant-time ones on reduced operands. */
  lemma VartimeReducesFirst(m: Modulus, a: int, b: int)
    ensures Add(m, VariableTime, a, b) == Add(m, ConstantTime, Mod(a, m), Mod(b, m))
    ensures Mul(m, VariableTime, a, b) == Mul(m, ConstantTime, Mod(a, m), Mod(b, m))
  {
    ModOfResidues(a, b, m);
  }

  /** On in-range operands the two modes agree: variable time only widens
      what is accepted. */
  lemma ModesAgreeInRange(m: Modulus, a: int, b: int)
    requires InRange(a, m) && InRange(b, m)
    ensures Add(m, ConstantTime, a, b) == Add(m, VariableTime, a, b)
    ensures Mul(m, ConstantTime, a, b) == Mul(m, VariableTime, a, b)
  {
  }

  /** The inverse of a modulo m: the r in [0, m) with a * r = 1 (mod m), which
      exists exactly when a is coprime to m. Defined through the recursive
      extended Euclidean algorithm. */
  function ModInverse(a: int, m: Modulus): (r: Result<int>)
    ensures r.Ok? <==> Coprime(a, m)
    ensures r.Ok? ==> 0 <= r.value < m && Mod(a * r.value, m) == 1
    ensures r.Err? ==> r.error == NotInvertible
  {
    var t := ExtGcd(Mod(a, m), m);
    if t.0 == 1 then
      InverseFromBezout(a, m, t.1, t.2);
      Ok(Mod(t.1, m))
    else Err(NotInvertible)
  }

  lemma InverseFromBezout(a: int, m: Modulus, x: int, y: int)
    requires Mod(a, m) * x + m * y == 1
    ensures Mod(a * Mod(x, m), m) == 1
  {
    assert Mod(a, m) * x - 1 == (-y) * m;
    MultipleDivides(m, -y);
    InverseFromCongruence(a, m, x);
  }

  /** If Mod(a, m) * x = 1 (mod m) then the representative of x is an inverse of a. */
  lemma InverseFromCongruence(a: int, m: Modulus, x: int)
    requires Congruent(Mod(a, m) * x, 1, m)
    ensures Mod(a * Mod(x, m), m) == 1
  {
    var A, X := Mod(a, m), Mod(x, m);
    ModOfInRange(A, m);
    ModOfInRange(X, m);
    ModOfInRange(1, m);
    calc {
      Mod(a * X, m);
      { ModOfResidues(a, X, m); }
      Mod(A * X, m);
      { ModOfResidues(A, x, m); }
      Mod(A * x, m);
      { ModOfCongruent(A * x, 1, m); }
      1;
    }
  }

  /** An inverse exists only for coprime operands: if a * r = 1 (mod m) for
      some r then a is coprime to m. */
  lemma InverseNeedsCoprime(a: int, m: Modulus, r: int)
    requires Mod(a * r, m) == 1
    ensures Coprime(a, m)
  {
    var k := (a * r - 1) / m;
    assert a * r - 1 == k * m by {
      DivMod(a * r - 1, m);
    }
    forall d | Divides(d, a) && Divides(d, m) ensures d == 1 {
      DividesLinear(d, a, m, r, -k);
      assert r * a + (-k) * m == 1;
      DividesBounded(d, 1);
    }
  }

  /** The inverse is unique: every r in [0, m) with a * r = 1 (mod m) is
      ModInverse(a, m). Hence any two correct inversion algorithms agree. */
  lemma InverseUnique(a: int, m: Modulus, r: int)
    requires 0 <= r < m && Mod(a * r, m) == 1
    ensures ModInverse(a, m) == Ok(r)
  {
    InverseNeedsCoprime(a, m, r);
    InversesAgree(a, m, r, ModInverse(a, m).value);
  }

  /** Two inverses of a in [0, m) are equal: r = r * (a * s) = s * (a * r) = s
      (mod m). */
  lemma InversesAgree(a: int, m: Modulus, r: int, s: int)
    requires 0 <= r < m && Mod(a * r, m) == 1
    requires 0 <= s < m && Mod(a * s, m) == 1
    ensures r == s
  {
    var p, q := a * r, a * s;
    assert Congruent(q, 1, m) && Congruent(p, 1, m);
    CongruentAddMul(r, r, q, 1, m);
    CongruentAddMul(s, s, p, 1, m);
    assert r * q == s * p by {
      assert r * (a * s) == s * (a * r);
    }
    CongruentSym(r * q, r * 1, m);
    CongruentTrans(r, r * q, s, m);
    ModOfCongruent(r, s, m);
    ModOfInRange(r, m);
    ModOfInRange(s, m);
  }

  /** The tests' check mul(inv, a) == 1 holds for the inverse of any in-range
      coprime operand, in constant-time mode. */
  lemma InverseTimesOperandIsOne(a: int, m: Modulus)
    requires InRange(a, m) && Coprime(a, m)
    ensures Mul(m, ConstantTime, ModInverse(a, m).value, a) == Ok(1)
  {
    var r := ModInverse(a, m).value;
    assert r * a == a * r;
  }
}
