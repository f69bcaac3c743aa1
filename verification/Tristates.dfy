/** The three values no < mod < yes and the operators the C macros define on them. */
module Tristates {

  type Tristate = t: int | 0 <= t <= 2

  const NO: Tristate := 0
  const MOD: Tristate := 1
  const YES: Tristate := 2

  /** The two connectives; And is the minimum and Or the maximum. */
  datatype Op = And | Or

  function Apply(op: Op, a: Tristate, b: Tristate): Tristate {
    match op
    case And => if a < b then a else b
    case Or => if a > b then a else b
  }

  function Complement(a: Tristate): Tristate {
    2 - a
  }

  /** The unit of a connective: x op Unit(op) == x. */
  function Unit(op: Op): Tristate {
    if op == And then YES else NO
  }

  function Dual(op: Op): Op {
    if op == And then Or else And
  }

  /** A definite verdict may not change; mod may become anything. */
  predicate Refines(before: Tristate, after: Tristate) {
    before == MOD || before == after
  }
}
