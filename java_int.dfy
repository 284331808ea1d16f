/**
 * Java's integer division and remainder, which truncate toward zero
 * (Dafny's `/` and `%` are Euclidean and differ on negative operands).
 */
module JavaInt {

  /** `a / b` on Java ints, for a positive divisor. */
  function JavaDiv(a: int, b: int): (q: int)
    requires b > 0
    ensures a >= 0 ==> 0 <= a - q * b < b
    ensures a < 0 ==> -b < a - q * b <= 0
  {
    if a >= 0 then a / b else -((-a) / b)
  }

  /** `a % b` on Java ints, for a positive divisor: the sign follows the dividend. */
  function JavaRem(a: int, b: int): (r: int)
    requires b > 0
    ensures a == JavaDiv(a, b) * b + r
    ensures a >= 0 ==> 0 <= r < b
    ensures a < 0 ==> -b < r <= 0
  {
    if a >= 0 then a % b else -((-a) % b)
  }
}
