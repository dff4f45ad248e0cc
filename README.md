# mod_t: modular arithmetic under two timing modes

A Dafny model of the modular-arithmetic type `mod_t` of cb-mpc (declared in
`cbmpc/crypto/base.h`). The contract modelled here is the one the unit tests
in `tests/unit/crypto/test_base_mod.cpp` pin down. The model works over
mathematical integers and has these parts:

- **NumberTheory** (`number_theory.dfy`): divisibility, Euclid's gcd, the
  recursive extended Euclidean algorithm with its Bezout identity, and the
  prime facts that the coprimality and inversion results rest on.
- **ModArith** (`mod_arith.dfy`):
  - the three fatal conditions;
  - the modulus type, odd and above 1, and its checked construction;
  - the two timing modes;
  - `mod`, `coprime`, and mode-dependent `add` and `mul`;
  - the modular inverse that both inversion algorithms are measured against.
- **ModuloBlock** (`modulo_block.dfy`): a `MODULO(m) { ... }` block is an
  expression tree. Every `+` in it is evaluated as `m.add` and every `*` as
  `m.mul`, under the active mode.
- **TimingScope** (`timing_scope.dfy`): the variable-time scope
  (`vartime_scope_t`) modelled as a class.
  - The class holds the stack of active modes, with constant time at the bottom.
  - Constructing a scope pushes variable time; destroying it pops.
  - `add`, `mul` and `MODULO` blocks read the top of the stack.
- **Inversion** (`inversion.dfy`): `inv(a, algo)` has two loops.
  - `DEFAULT` is the extended Euclidean algorithm.
  - `SCR` is a binary extended gcd that only halves, subtracts and swaps.
  - Both are proved to return the unique inverse, so they agree on every operand.
  - This file also holds `N_inv_mod_phiN_2048`.
- **ModScenarios** (`scenarios.dfy`): the situations the unit tests exercise,
  stated as lemmas and methods over the model.
  - Random primes and the order of the Ed25519 group become prime parameters.

## Model

| member | source | states |
|---|---|---|
| ModArith.NewModulus | tests/unit/crypto/test_base_mod.cpp:22-40 | Construction succeeds exactly for odd values above 1, and keeps that value. Otherwise it fails with the Montgomery-context error. |
| ModArith.Mod | tests/unit/crypto/test_base_mod.cpp:130-146 | mod(a, m) lies in [0, m) and is congruent to a, for any sign and size of a. It is 0 exactly when m divides a. |
| ModArith.ModUnique | tests/unit/crypto/test_base_mod.cpp:143-145 | Every r in [0, m) congruent to a equals mod(a, m), so the representative is canonical. |
| ModArith.ModOfCongruent | tests/unit/crypto/test_base_mod.cpp:59-72 | Congruent values reduce to the same representative. |
| ModArith.ModOfResidues | tests/unit/crypto/test_base_mod.cpp:59-72 | Reducing the operands first does not change the reduced sum or product. |
| ModArith.ModOfInRange | tests/unit/crypto/test_base_mod.cpp:49 | A value already in [0, m) is its own representative. |
| ModArith.Coprime | tests/unit/crypto/test_base_mod.cpp:163-200 | coprime(a, m) is gcd(mod(a, m), m) = 1, and it holds exactly when 1 is the only positive common divisor of a and m. It takes no mode, so both modes give the same answer. |
| ModArith.RepresentativeDivisors | tests/unit/crypto/test_base_mod.cpp:163-200 | The divisors of m that divide a are exactly those that divide mod(a, m). |
| ModArith.CoprimeEdgeCases | tests/unit/crypto/test_base_mod.cpp:169-171 | For every modulus, 1 and m - 1 are coprime to m and 0 is not. |
| ModArith.CoprimeModPrime | tests/unit/crypto/test_base_mod.cpp:167-176 | Modulo a prime, a is coprime exactly when the prime does not divide a. |
| ModArith.AddReduced | tests/unit/crypto/test_base_mod.cpp:49 | The constant-time sum of two in-range operands, using one conditional subtraction, is mod(a + b, m). |
| ModArith.Add | tests/unit/crypto/test_base_mod.cpp:43-73 | add succeeds exactly in variable time or when both operands are in [0, m); it then returns mod(a + b, m). Otherwise it fails with the constant-time range error. |
| ModArith.Mul | tests/unit/crypto/test_base_mod.cpp:94-112 | mul has the same two-mode contract, with the value mod(a * b, m). |
| ModArith.VartimeReducesFirst | tests/unit/crypto/test_base_mod.cpp:59-72 | In variable time, add and mul equal their constant-time versions applied to the reduced operands. |
| ModArith.ModesAgreeInRange | tests/unit/crypto/test_base_mod.cpp:49-63 | On in-range operands the two modes give the same result. |
| ModArith.ModInverse | tests/unit/crypto/test_base_mod.cpp:114-128 | The inverse exists exactly when a is coprime to m. It lies in [0, m) and a times it is 1 modulo m. Otherwise the result is the not-invertible error. |
| ModArith.InverseFromCongruence | tests/unit/crypto/test_base_mod.cpp:114-128 | A coefficient x with mod(a, m) * x = 1 (mod m) yields an inverse of a. |
| ModArith.InverseFromBezout | tests/unit/crypto/test_base_mod.cpp:114-128 | Bezout coefficients for mod(a, m) and m yield an inverse of a. |
| ModArith.InverseNeedsCoprime | tests/unit/crypto/test_base_mod.cpp:114-128 | If some r has a * r = 1 (mod m), then a is coprime to m. |
| ModArith.InverseUnique | tests/unit/crypto/test_base_mod.cpp:202-229 | Any r in [0, m) with a * r = 1 (mod m) is the inverse, so any two correct algorithms agree. |
| ModArith.InversesAgree | tests/unit/crypto/test_base_mod.cpp:202-229 | Two values in [0, m) that are both inverses of a are equal. |
| ModArith.InverseTimesOperandIsOne | tests/unit/crypto/test_base_mod.cpp:210 | For in-range coprime a, the constant-time mul(inv(a), a) is 1. |
| NumberTheory.ExtGcd | tests/unit/crypto/test_base_mod.cpp:114-128 | The extended Euclidean algorithm returns gcd(a, b) with coefficients x, y such that a * x + b * y = gcd. |
| NumberTheory.GcdDividesBoth | tests/unit/crypto/test_base_mod.cpp:163-200 | gcd(a, b) is a positive common divisor of a and b. |
| NumberTheory.CommonDivisorDividesGcd | tests/unit/crypto/test_base_mod.cpp:163-200 | Every common divisor of a and b divides gcd(a, b). |
| NumberTheory.GcdOneIff | tests/unit/crypto/test_base_mod.cpp:163-200 | gcd(a, b) = 1 exactly when 1 is the only positive common divisor. |
| NumberTheory.CommonDivisorsOfRemainder | tests/unit/crypto/test_base_mod.cpp:163-200 | The divisors of m that divide x are those that divide x mod m. |
| NumberTheory.CoprimeProduct | tests/unit/crypto/test_base_mod.cpp:148-161 | A product of two numbers, each coprime to c, is coprime to c. |
| NumberTheory.EuclidPrime | tests/unit/crypto/test_base_mod.cpp:148-161 | A prime dividing neither factor does not divide the product. |
| NumberTheory.RsaModulusCoprimeToTotient | tests/unit/crypto/test_base_mod.cpp:148-153 | For odd primes p, q within a factor of two of each other, N = p * q is coprime to (p - 1) * (q - 1). |
| NumberTheory.PrimeCoprimeToTotient | tests/unit/crypto/test_base_mod.cpp:148-153 | An odd prime p is coprime to (p - 1) * (q - 1) when the odd prime q is below 2p. |
| ModuloBlock.EvalModulo | tests/unit/crypto/test_base_mod.cpp:51 | Evaluating a MODULO block can only fail with the constant-time range error. |
| ModuloBlock.VartimeBlock | tests/unit/crypto/test_base_mod.cpp:65-71 | In variable time a block never fails. Its result is congruent to the integer value of the expression, and equals its reduction for every sum or product. |
| ModuloBlock.VartimeStep | tests/unit/crypto/test_base_mod.cpp:66-71 | In variable time, add and mul of operands congruent to vx and vy give the reductions of vx + vy and vx * vy. |
| ModuloBlock.ConstantTimeBlock | tests/unit/crypto/test_base_mod.cpp:50-52 | In constant time, a block whose operands all lie in [0, m) yields the reduction of its integer value. |
| ModuloBlock.ConstantTimeBlockRejects | tests/unit/crypto/test_base_mod.cpp:54-57 | In constant time, a sum or product with any operand outside [0, m) ends in the range error. |
| TimingScope.ExecutionContext.CurrentMode | tests/unit/crypto/test_base_mod.cpp:59-72 | The active mode is variable time exactly when a variable-time scope is live. |
| TimingScope.ExecutionContext.constructor | tests/unit/crypto/test_base_mod.cpp:43-57 | A fresh context runs in constant time. |
| TimingScope.ExecutionContext.EnterVartimeScope | tests/unit/crypto/test_base_mod.cpp:60 | Entering a scope pushes variable time onto the mode stack and keeps the stack well formed. |
| TimingScope.ExecutionContext.ExitVartimeScope | tests/unit/crypto/test_base_mod.cpp:72 | Leaving a scope pops it, restoring variable time while an outer scope is live and constant time after the outermost. |
| TimingScope.ExecutionContext.Add | tests/unit/crypto/test_base_mod.cpp:49-63 | add under the active mode: it succeeds exactly inside a scope or on in-range operands, and returns the reduced sum. |
| TimingScope.ExecutionContext.Mul | tests/unit/crypto/test_base_mod.cpp:210 | mul under the active mode, with the same contract and the reduced product. |
| TimingScope.ExecutionContext.Modulo | tests/unit/crypto/test_base_mod.cpp:81-91 | A MODULO block that is a sum or product yields the reduced value inside a scope or on in-range operands; in constant time with an operand outside [0, m) it yields the range error. A block that is a single operand yields that operand unchanged. |
| Inversion.InvDefault | tests/unit/crypto/test_base_mod.cpp:114-128 | The extended Euclidean loop succeeds exactly for coprime a. It returns an r in [0, m) with a * r = 1 (mod m), namely ModInverse(a, m). |
| Inversion.EuclidStep | tests/unit/crypto/test_base_mod.cpp:114-128 | One division step keeps each coefficient's remainder congruence. |
| Inversion.Halve | tests/unit/crypto/test_base_mod.cpp:202-229 | Halving modulo the odd m: twice the result is congruent to the input. |
| Inversion.InvScr | tests/unit/crypto/test_base_mod.cpp:202-229 | The binary gcd loop succeeds exactly for coprime a. It returns the same inverse as InvDefault, for prime and for composite odd m. |
| Inversion.SharedDivisorNotCoprime | tests/unit/crypto/test_base_mod.cpp:202-229 | A divisor above 1 shared by mod(a, m) and m rules out coprime(a, m), which is the SCR loop's failure case. |
| Inversion.HalveStep | tests/unit/crypto/test_base_mod.cpp:202-229 | Halving an even u, with v odd, keeps the common divisors and the coefficient congruence. |
| Inversion.HalveCoefficient | tests/unit/crypto/test_base_mod.cpp:202-229 | Halving the coefficient of an even remainder keeps its congruence. |
| Inversion.SubtractStep | tests/unit/crypto/test_base_mod.cpp:202-229 | Subtracting v from u keeps the common divisors and the coefficient congruence. |
| Inversion.Inv | tests/unit/crypto/test_base_mod.cpp:209 | inv(a, algo) returns ModInverse(a, m) whichever algorithm is chosen. |
| Inversion.NInvModPhiN | tests/unit/crypto/test_base_mod.cpp:154 | For odd N above 1, the result exists exactly when N is coprime to phiN. It lies in [0, phiN) and N times it is 1 modulo phiN. |
| Inversion.TotientInverse | tests/unit/crypto/test_base_mod.cpp:158 | From phiN * x - 1 = k * N it follows that N * mod(-k, phiN) = 1 (mod phiN). |
| ModScenarios.ConstructionExamples | tests/unit/crypto/test_base_mod.cpp:23-40 | 3, 7, 11, 21, 99, any odd prime and any product of two odd primes are accepted. 100 and every doubled value are rejected. |
| ModScenarios.AddOverflowScenario | tests/unit/crypto/test_base_mod.cpp:43-73 | 5 + 8 is 13 with add and in a block. In constant time, add with either operand overflowed is the range error. Inside a scope, add and a block give 13 with the first, the second or both operands overflowed. After the scope ends, the range error returns. |
| ModScenarios.NegativeOperandScenario | tests/unit/crypto/test_base_mod.cpp:81-85 | In MODULO(37) inside a scope, -8 + 5 is 34. |
| ModScenarios.CoprimePrimeExamples | tests/unit/crypto/test_base_mod.cpp:167-176 | Modulo a prime above 5: 5, p - 1, 1 and every nonzero residue are coprime to p; 0 is not. |
| ModScenarios.CoprimeCompositeExamples | tests/unit/crypto/test_base_mod.cpp:185-193 | Modulo 2^128 - 1: m - 1, 14, 1 and 7 are coprime; 9 and 0 are not. |
| ModScenarios.ScrInversePrimeScenario | tests/unit/crypto/test_base_mod.cpp:203-219 | Modulo a prime, inv(a, SCR) exists for every nonzero in-range a, and mul(inv, a) is 1. |
| ModScenarios.ScrInverseCompositeScenario | tests/unit/crypto/test_base_mod.cpp:220-228 | Modulo 2^128 - 1, inv(7, SCR) exists, mul(inv, 7) is 1, and DEFAULT returns the same value. |
| ModScenarios.PaillierInverseScenario | tests/unit/crypto/test_base_mod.cpp:148-161 | For odd primes p, q within a factor of two, N_inv_mod_phiN_2048(p * q, (p - 1) * (q - 1)) exists and N_inv * N mod phiN is 1. |
| ModScenarios.RsaParameters | tests/unit/crypto/test_base_mod.cpp:150-153 | For odd primes p and q, N = p * q is odd and above 1, and phiN is above 1, so NInvModPhiN may be called. |

## Left out

- Prime generation, `rand`, `rand_bitlen` and the probabilistic `prime()` test. They draw on randomness. Their outputs become parameters with an `IsPrime` precondition. The prime check of `LARGEST_PRIME_MOD_2048` is also not modelled.
- Montgomery-context internals and the `BN_*` calls of the big-number library. They are foreign code. Only the odd-modulus precondition they impose is modelled.
- The constant-time guarantee itself, since running time is not a functional property. Only the range check that guards constant-time operations is modelled. SCR's data-independent control flow is likewise not modelled: its loop branches on the data.
- Thread-local ownership of the mode stack. This is concurrency; one execution context object is modelled.
- Logging, the test framework's death and assert macros, and console output.
- Decimal string parsing and the 1000-bit constants of the Mul, Inverse and VTMod tests. They are covered by the general contracts of `Mul`, `ModInverse` and `Mod`, not checked as literals.
- The Ed25519 group. Its order is taken as a prime parameter above 13.
- The second constructor argument used for 2^128 - 1. The model does not distinguish the constructor variants.
- ModArith.Add and ModArith.Mul: the constant-time range check is modelled as always active. The tests observe it only in debug builds, and release-build behaviour on out-of-range operands is not pinned down.
- ModArith.NewModulus: values below 2 are rejected with the same error as even values, because the library's behaviour on them is not pinned down.
- Inversion.Inv: inverting a non-coprime operand returns a not-invertible error, because the library's behaviour there is not pinned down. `inv` applies no range check, since no range check on inv is pinned down either.
- Inversion.NInvModPhiN: its body inverts phiN modulo the odd N and derives N's inverse from that. The library's own procedure is not shown. The 2048-bit size bound is not modelled.
- ModArith.Coprime takes no mode. The tests ask for equal answers in both modes; the model gives them by construction.
- Inversion.InvDefault / Inversion.InvScr: the library's inversion code is not part of this model. These two loops, extended Euclid and a binary extended gcd, stand in for DEFAULT and SCR; only their contract, the unique inverse, is fixed by the tests. Integers are unbounded here, so the word-level overflow the 2^128 - 1 case guards against cannot arise in the model.
