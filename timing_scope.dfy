/** The timing-mode scope (vartime_scope_t): each execution context owns a
    stack of modes with constant time at the bottom; entering a variable-time
    scope pushes, leaving it pops. mod_t's add and mul, and MODULO blocks,
    consult the top of that stack at call time. */
module TimingScope {
  import opened ModArith
  import opened ModuloBlock

  class ExecutionContext {
    /** The mode stack, bottom first. */
    var modes: seq<Mode>

    /** Constant time is always at the bottom, and every live scope above it
        is a variable-time scope. */
    ghost predicate Valid()
      reads this
    {
      |modes| >= 1 && modes[0] == ConstantTime &&
      forall i :: 1 <= i < |modes| ==> modes[i] == VariableTime
    }

    /** The number of live variable-time scopes. */
    function Depth(): nat
      reads this
      requires Valid()
    {
      |modes| - 1
    }

    /** The active mode: the innermost live scope decides. */
    function CurrentMode(): (mode: Mode)
      reads this
      requires Valid()
      ensures mode == VariableTime <==> Depth() > 0
    {
      modes[|modes| - 1]
    }

    /** A fresh context runs in constant time. */
    constructor ()
      ensures Valid() && modes == [ConstantTime]
      ensures CurrentMode() == ConstantTime
    {
      modes := [ConstantTime];
    }

    /** Entering a vartime scope (constructing vartime_scope_t). Nested
        entries stay in variable time. */
    method EnterVartimeScope()
      requires Valid()
      modifies this
      ensures Valid() && modes == old(modes) + [VariableTime]
      ensures Depth() == old(Depth()) + 1 && CurrentMode() == VariableTime
    {
      modes := modes + [VariableTime];
    }

    /** Leaving a vartime scope (destroying vartime_scope_t) restores the mode
        that was active when it was entered: variable time while an outer
        scope is still live, constant time after the outermost one. */
    method ExitVartimeScope()
      requires Valid() && Depth() > 0
      modifies this
      ensures Valid() && modes == old(modes)[..|old(modes)| - 1]
      ensures Depth() == old(Depth()) - 1
      ensures CurrentMode() == (if old(Depth()) > 1 then VariableTime else ConstantTime)
    {
      modes := modes[..|modes| - 1];
    }

    /** m.add(a, b) under the active mode. */
    method Add(m: Modulus, a: int, b: int) returns (r: Result<int>)
      requires Valid()
      ensures r.Ok? <==> Depth() > 0 || (InRange(a, m) && InRange(b, m))
      ensures r.Ok? ==> r.value == Mod(a + b, m)
      ensures r.Err? ==> r.error == OutOfRangeForConstantTime
    {
      r := ModArith.Add(m, CurrentMode(), a, b);
    }

    /** m.mul(a, b) under the active mode. */
    method Mul(m: Modulus, a: int, b: int) returns (r: Result<int>)
      requires Valid()
      ensures r.Ok? <==> Depth() > 0 || (InRange(a, m) && InRange(b, m))
      ensures r.Ok? ==> r.value == Mod(a * b, m)
      ensures r.Err? ==> r.error == OutOfRangeForConstantTime
    {
      r := ModArith.Mul(m, CurrentMode(), a, b);
    }

    /** A MODULO(m) block evaluated under the active mode. Inside a vartime
        scope every sum or product yields the reduced integer value; in
        constant time so does one whose operands are all in [0, m), and any
        other sum or product is the range error. A block that is a single
        operand involves no add or mul and yields that operand unchanged. */
    method Modulo(m: Modulus, e: Expr) returns (r: Result<int>)
      requires Valid()
      ensures (Depth() > 0 || OperandsInRange(e, m)) && !e.Operand? ==> r == Ok(Mod(Value(e), m))
      ensures Depth() == 0 && !OperandsInRange(e, m) && !e.Operand? ==> r == Err(OutOfRangeForConstantTime)
      ensures e.Operand? ==> r == Ok(e.v)
    {
      r := EvalModulo(m, CurrentMode(), e);
      if CurrentMode() == VariableTime {
        VartimeBlock(m, e);
      } else if OperandsInRange(e, m) {
        ConstantTimeBlock(m, e);
      } else if !e.Operand? {
        ConstantTimeBlockRejects(m, e);
      }
    }
  }
}
