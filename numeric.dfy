/**
 * The numbers the dashboard reads out of numeric strings (`+s`, `Number(s)`,
 * `BigNumber(s)`): an exact decimal, or NaN when the text is not a number.
 * Exact reals stand in for IEEE-754 doubles throughout.
 */
module Numeric {

  datatype Num = Dec(value: real) | NaN

  /** `+x > 0`: false for NaN. */
  predicate Positive(x: Num)
  {
    x.Dec? && x.value > 0.0
  }

  /** `a + b`; NaN absorbs. */
  function Add(a: Num, b: Num): Num
  {
    if a.Dec? && b.Dec? then Dec(a.value + b.value) else NaN
  }

  /** `a * b`; NaN absorbs. */
  function Mul(a: Num, b: Num): Num
  {
    if a.Dec? && b.Dec? then Dec(a.value * b.value) else NaN
  }

  /** `a - b`; NaN absorbs. */
  function Sub(a: Num, b: Num): Num
  {
    if a.Dec? && b.Dec? then Dec(a.value - b.value) else NaN
  }

  /** `Number(n)` of a count. */
  function FromInt(n: int): Num
  {
    Dec(n as real)
  }
}
