/**
 * The part of JavaScript's number semantics the widget relies on:
 * truthiness (`!x`), strict equality with an integer and the ordered
 * comparisons, all of which treat NaN specially.
 */
module Js {
  /** A JavaScript number. `undefined` behaves like NaN in every test the widget makes. */
  datatype Number = NaN | Finite(value: real)

  /** `!!x`: every number except 0 and NaN is truthy. */
  predicate Truthy(x: Number) {
    x.Finite? && x.value != 0.0
  }

  /** `x === n` for an integer `n`; NaN equals nothing. */
  predicate StrictEquals(x: Number, n: int) {
    x.Finite? && x.value == n as real
  }

  /** `x < bound`; false whenever `x` is NaN. */
  predicate Less(x: Number, bound: real) {
    x.Finite? && x.value < bound
  }

  /** `x > bound`; false whenever `x` is NaN. */
  predicate Greater(x: Number, bound: real) {
    x.Finite? && x.value > bound
  }

  /** `a - b`; NaN as soon as either operand is. */
  function Sub(a: Number, b: Number): Number {
    if a.Finite? && b.Finite? then Finite(a.value - b.value) else NaN
  }
}
