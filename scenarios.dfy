/** The situations the unit tests of mod_t exercise, stated over the model:
    literal moduli where they are small, parameters where the tests draw
    random primes or use the order of the Ed25519 group. */
module ModScenarios {
  import opened NumberTheory
  import opened ModArith
  import opened ModuloBlock
  import opened TimingScope
  import opened Inversion

  /** 2^128 - 1, an odd composite (divisible by 3, 5, 17, ...). */
  const Composite128: Modulus := 340282366920938463463374607431768211455

  /** The product of two odd numbers is odd. */
  lemma OddProduct(p: int, q: int)
    requires p % 2 == 1 && q % 2 == 1
    ensures (p * q) % 2 == 1
  {
    var a, b := p / 2, q / 2;
    assert p == 2 * a + 1 && q == 2 * b + 1;
    assert p * q == 2 * (2 * a * b + a + b) + 1;
  }

  /** Construction: small odd values, odd primes and products of two odd
      primes are accepted; 100 and every doubled value are rejected. */
  lemma ConstructionExamples(p: int, q: int, r: int)
    requires IsPrime(p) && IsPrime(q) && p > 2 && q > 2
    ensures NewModulus(3).Ok? && NewModulus(7).Ok? && NewModulus(11).Ok?
    ensures NewModulus(21).Ok? && NewModulus(99).Ok?
    ensures NewModulus(p).Ok? && NewModulus(p * q).Ok?
    ensures NewModulus(100) == Err(MontCtxSetFailed)
    ensures NewModulus(2 * r) == Err(MontCtxSetFailed)
  {
    OddPrime(p);
    OddPrime(q);
    OddProduct(p, q);
    assert p * q > 1 by {
      assert p * q >= 3 * q;
    }
  }

  /** Adding with the overflowed operands q + 5 and q + 8: fatal in constant
      time, 13 inside a vartime scope (directly or in a MODULO block, with
      either operand or both overflowed), fatal again once the scope has
      ended. */
  method AddOverflowScenario(q: Modulus)
    returns (plain: Result<int>, block: Result<int>, ctLeft: Result<int>, ctRight: Result<int>,
             vt: seq<Result<int>>, vtBlock: seq<Result<int>>, after: Result<int>)
    requires q > 13
    ensures plain == Ok(13) && block == Ok(13)
    ensures ctLeft == Err(OutOfRangeForConstantTime) && ctRight == Err(OutOfRangeForConstantTime)
    ensures vt == [Ok(13), Ok(13), Ok(13)] && vtBlock == [Ok(13), Ok(13), Ok(13)]
    ensures after == Err(OutOfRangeForConstantTime)
  {
    ModOfInRange(13, q);
    DividesLinear(q, q, q, 1, 0);
    DividesLinear(q, q, q, 2, 0);
    ModOfCongruent(q + 5 + 8, 13, q);
    ModOfCongruent(5 + (q + 8), 13, q);
    ModOfCongruent(q + 5 + (q + 8), 13, q);
    var ctx := new ExecutionContext();
    plain := ctx.Add(q, 5, 8);
    var small := Sum(Operand(5), Operand(8));
    assert InRange(5, q) && InRange(8, q);
    assert OperandsInRange(Operand(5), q) && OperandsInRange(Operand(8), q);
    assert OperandsInRange(small, q) && Value(small) == 13;
    block := ctx.Modulo(q, small);
    ctLeft := ctx.Add(q, q + 5, 8);
    ctRight := ctx.Add(q, 5, q + 8);
    ctx.EnterVartimeScope();
    var c1 := ctx.Add(q, q + 5, 8);
    var c2 := ctx.Add(q, 5, q + 8);
    var c3 := ctx.Add(q, q + 5, q + 8);
    vt := [c1, c2, c3];
    var b1 := ctx.Modulo(q, Sum(Operand(q + 5), Operand(8)));
    var b2 := ctx.Modulo(q, Sum(Operand(5), Operand(q + 8)));
    var b3 := ctx.Modulo(q, Sum(Operand(q + 5), Operand(q + 8)));
    vtBlock := [b1, b2, b3];
    ctx.ExitVartimeScope();
    after := ctx.Add(q, 5, q + 8);
  }

  /** A negative operand inside a vartime scope: -8 + 5 in MODULO(37) is 34. */
  method NegativeOperandScenario() returns (c: Result<int>)
    ensures c == Ok(34)
  {
    var m: Modulus := 37;
    var ctx := new ExecutionContext();
    ctx.EnterVartimeScope();
    c := ctx.Modulo(m, Sum(Operand(-8), Operand(5)));
    ctx.ExitVartimeScope();
  }

  /** coprime modulo a prime p: 5, p - 1, 1 and every nonzero residue are
      coprime to p, 0 is not. */
  lemma CoprimePrimeExamples(p: Modulus, rnd: int)
    requires IsPrime(p) && p > 5 && 0 < rnd < p
    ensures Coprime(5, p) && Coprime(p - 1, p) && Coprime(1, p) && !Coprime(0, p)
    ensures Coprime(rnd, p)
  {
    CoprimeEdgeCases(p);
    CoprimeModPrime(5, p);
    CoprimeModPrime(rnd, p);
    if Divides(p, 5) {
      DividesBounded(p, 5);
    }
    if Divides(p, rnd) {
      DividesBounded(p, rnd);
    }
  }

  /** coprime modulo the composite 2^128 - 1: 14 and 7 are coprime to it, 9
      is not (both are divisible by 3). */
  lemma CoprimeCompositeExamples()
    ensures Coprime(Composite128 - 1, Composite128) && Coprime(1, Composite128)
    ensures !Coprime(0, Composite128)
    ensures Coprime(14, Composite128) && Coprime(7, Composite128)
    ensures !Coprime(9, Composite128)
  {
    var m := Composite128;
    CoprimeEdgeCases(m);
    ModOfInRange(14, m);
    ModOfInRange(7, m);
    ModOfInRange(9, m);
    assert Gcd(14, m) == Gcd(m, 14) == Gcd(14, 3) == Gcd(3, 2) == Gcd(2, 1) == Gcd(1, 0) == 1;
    assert Gcd(7, m) == Gcd(m, 7) == Gcd(7, 3) == Gcd(3, 1) == Gcd(1, 0) == 1;
    assert Gcd(9, m) == Gcd(m, 9) == Gcd(9, 3) == Gcd(3, 0) == 3;
  }

  /** inv(a, SCR) modulo a prime q (as the order of Ed25519) for any nonzero
      a in range: mul(inv, a) == 1. */
  method ScrInversePrimeScenario(q: Modulus, a: int) returns (inv: Result<int>, check: Result<int>)
    requires IsPrime(q) && 0 < a < q
    ensures inv.Ok? && check == Ok(1)
  {
    CoprimeModPrime(a, q);
    if Divides(q, a) {
      DividesBounded(q, a);
    }
    InverseTimesOperandIsOne(a, q);
    inv := Inv(a, q, Scr);
    var ctx := new ExecutionContext();
    check := ctx.Mul(q, inv.value, a);
  }

  /** inv(7, SCR) modulo the composite 2^128 - 1: mul(inv, 7) == 1, and the
      DEFAULT algorithm returns the same inverse. */
  method ScrInverseCompositeScenario() returns (inv: Result<int>, check: Result<int>, other: Result<int>)
    ensures inv.Ok? && check == Ok(1) && other == inv
  {
    var m := Composite128;
    CoprimeCompositeExamples();
    InverseTimesOperandIsOne(7, m);
    inv := Inv(7, m, Scr);
    other := Inv(7, m, Default);
    var ctx := new ExecutionContext();
    check := ctx.Mul(m, inv.value, 7);
  }

  /** N_inv_mod_phiN_2048 for N = p * q and phiN = (p - 1) * (q - 1), with p
      and q odd primes of the same bit length (so each is below twice the
      other): N_inv * N = 1 (mod phiN). */
  method PaillierInverseScenario(p: nat, q: nat) returns (nInv: Result<int>)
    requires IsPrime(p) && IsPrime(q) && p > 2 && q > 2
    requires p < 2 * q && q < 2 * p
    ensures nInv.Ok? && Mod(nInv.value * (p * q), (p - 1) * (q - 1)) == 1
  {
    var n, phi := p * q, (p - 1) * (q - 1);
    RsaModulusCoprimeToTotient(p, q);
    RsaParameters(p, q);
    nInv := NInvModPhiN(n, phi);
    assert nInv.value * n == n * nInv.value;
  }

  /** For odd primes p and q, N = p * q is an odd number above 1 and
      (p - 1) * (q - 1) is above 1. */
  lemma RsaParameters(p: nat, q: nat)
    requires IsPrime(p) && IsPrime(q) && p > 2 && q > 2
    ensures p * q > 1 && (p * q) % 2 == 1 && (p - 1) * (q - 1) > 1
  {
    OddPrime(p);
    OddPrime(q);
    OddProduct(p, q);
    ProductAbove(p, q, 3);
    ProductAbove(p - 1, q - 1, 2);
  }

  lemma ProductAbove(x: int, y: int, k: int)
    requires k > 0 && x >= k && y >= k
    ensures x * y >= k * k
  {
    var a, b := x - k, y - k;
    assert x * y == k * k + k * b + a * k + a * b;
    assert a * b >= 0 && k * b >= 0 && a * k >= 0;
  }
}
