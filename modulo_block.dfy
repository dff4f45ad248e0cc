/** The MODULO(m) { ... } block: arithmetic written with the ordinary + and *
    operators, evaluated so that every + is m.add and every * is m.mul under
    the timing mode in force. */
module ModuloBlock {
  import opened NumberTheory
  import opened ModArith

  /** An arithmetic expression as written inside a MODULO(m) block. */
  datatype Expr =
    | Operand(v: int)
    | Sum(left: Expr, right: Expr)
    | Product(left: Expr, right: Expr)

  /** The value of the expression over the integers, outside any block. */
  function Value(e: Expr): int {
    match e
    case Operand(v) => v
    case Sum(l, r) => Value(l) + Value(r)
    case Product(l, r) => Value(l) * Value(r)
  }

  /** Every operand of the expression lies in [0, m). */
  predicate OperandsInRange(e: Expr, m: Modulus) {
    match e
    case Operand(v) => InRange(v, m)
    case Sum(l, r) => OperandsInRange(l, m) && OperandsInRange(r, m)
    case Product(l, r) => OperandsInRange(l, m) && OperandsInRange(r, m)
  }

  /** Evaluation inside MODULO(m): both sides are evaluated, then combined by
      m.add or m.mul; the first fatal error ends the block. */
  function EvalModulo(m: Modulus, mode: Mode, e: Expr): (r: Result<int>)
    ensures r.Err? ==> r.error == OutOfRangeForConstantTime
  {
    match e
    case Operand(v) => Ok(v)
    case Sum(l, r) =>
      (match EvalModulo(m, mode, l)
       case Err(f) => Err(f)
       case Ok(x) =>
         match EvalModulo(m, mode, r)
         case Err(f) => Err(f)
         case Ok(y) => Add(m, mode, x, y))
    case Product(l, r) =>
      (match EvalModulo(m, mode, l)
       case Err(f) => Err(f)
       case Ok(x) =>
         match EvalModulo(m, mode, r)
         case Err(f) => Err(f)
         case Ok(y) => Mul(m, mode, x, y))
  }

  /** In a variable-time scope a block never fails, and every sum or product
      it computes is the reduction of the integer value of the expression:
      operands of any sign or size may be used. */
  lemma {:induction false} VartimeBlock(m: Modulus, e: Expr)
    ensures EvalModulo(m, VariableTime, e).Ok?
    ensures Congruent(EvalModulo(m, VariableTime, e).value, Value(e), m)
    ensures !e.Operand? ==> EvalModulo(m, VariableTime, e).value == Mod(Value(e), m)
  {
    match e
    case Operand(v) =>
      DividesLinear(m, m, m, 0, 0);
    case Sum(l, r) =>
      VartimeBlock(m, l);
      VartimeBlock(m, r);
      VartimeStep(m, EvalModulo(m, VariableTime, l).value, Value(l), EvalModulo(m, VariableTime, r).value, Value(r));
    case Product(l, r) =>
      VartimeBlock(m, l);
      VartimeBlock(m, r);
      VartimeStep(m, EvalModulo(m, VariableTime, l).value, Value(l), EvalModulo(m, VariableTime, r).value, Value(r));
  }

  /** Variable-time add and mul of values congruent to vx and vy give the
      reductions of vx + vy and vx * vy, which are congruent to them. */
  lemma VartimeStep(m: Modulus, x: int, vx: int, y: int, vy: int)
    requires Congruent(x, vx, m) && Congruent(y, vy, m)
    ensures Add(m, VariableTime, x, y) == Ok(Mod(vx + vy, m))
    ensures Mul(m, VariableTime, x, y) == Ok(Mod(vx * vy, m))
    ensures Congruent(Mod(vx + vy, m), vx + vy, m) && Congruent(Mod(vx * vy, m), vx * vy, m)
  {
    CongruentAddMul(x, vx, y, vy, m);
    ModOfCongruent(x + y, vx + vy, m);
    ModOfCongruent(x * y, vx * vy, m);
    CongruentSym(vx + vy, Mod(vx + vy, m), m);
    CongruentSym(vx * vy, Mod(vx * vy, m), m);
  }

  /** In constant-time mode a block whose operands are all in [0, m) yields
      the reduction of the integer value of the expression. */
  lemma {:induction false} ConstantTimeBlock(m: Modulus, e: Expr)
    requires OperandsInRange(e, m)
    ensures EvalModulo(m, ConstantTime, e) == Ok(Mod(Value(e), m))
  {
    match e
    case Operand(v) =>
      ModOfInRange(v, m);
    case Sum(l, r) =>
      ConstantTimeBlock(m, l);
      ConstantTimeBlock(m, r);
      ModOfResidues(Value(l), Value(r), m);
    case Product(l, r) =>
      ConstantTimeBlock(m, l);
      ConstantTimeBlock(m, r);
      ModOfResidues(Value(l), Value(r), m);
  }

  /** In constant-time mode a block with any operand outside [0, m) ends in
      the fatal range error. */
  lemma {:induction false} ConstantTimeBlockRejects(m: Modulus, e: Expr)
    requires !e.Operand? && !OperandsInRange(e, m)
    ensures EvalModulo(m, ConstantTime, e) == Err(OutOfRangeForConstantTime)
  {
    var l, r := e.left, e.right;
    var x, y := EvalModulo(m, ConstantTime, l), EvalModulo(m, ConstantTime, r);
    if x.Ok? && y.Ok? {
      if !OperandsInRange(l, m) {
        if !l.Operand? {
          ConstantTimeBlockRejects(m, l);
        }
      } else {
        if !r.Operand? {
          ConstantTimeBlockRejects(m, r);
        }
      }
    }
  }
}
