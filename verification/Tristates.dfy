/** The three truth values of Kconfig and their connectives (expr.h), together with the
    information order that the simplifier of expr.c respects. */
module Tristates {

  /** no < mod < yes, numbered as in the C enumeration. */
  type Tristate = t: int | 0 <= t <= 2

  const NO: Tristate := 0
  const MOD: Tristate := 1
  const YES: Tristate := 2

  /** EXPR_AND */
  function Min(a: Tristate, b: Tristate): Tristate {
    if a < b then a else b
  }

  /** EXPR_OR */
  function Max(a: Tristate, b: Tristate): Tristate {
    if a > b then a else b
  }

  /** EXPR_NOT */
  function Negate(a: Tristate): Tristate {
    2 - a
  }

  function FromBool(b: bool): Tristate {
    if b then YES else NO
  }

  /** `m` counts as `y` wherever no third value exists. */
  function Promote(t: Tristate): Tristate {
    if t == MOD then YES else t
  }

  /** `b` keeps every definite answer of `a`; only `mod` may have become something else. */
  predicate Refines(a: Tristate, b: Tristate) {
    a == MOD || a == b
  }
}
