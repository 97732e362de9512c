/** Go's 64-bit signed integers: results wrap, division truncates toward zero. */
module Int64 {

  const MIN: int := -0x8000_0000_0000_0000
  const MAX: int := 0x7fff_ffff_ffff_ffff

  predicate Fits(x: int) {
    MIN <= x <= MAX
  }

  function Wrap(x: int): (r: int)
    ensures Fits(r)
    ensures Fits(x) ==> r == x
  {
    (x - MIN) % 0x1_0000_0000_0000_0000 + MIN
  }

  /** Go's `/` for a positive divisor. */
  function Quotient(x: int, d: int): (q: int)
    requires d > 0
    ensures x >= 0 ==> q == x / d
  {
    if x >= 0 then x / d else -(-x / d)
  }

  /** Go's `%` for a positive divisor. */
  function Remainder(x: int, d: int): (r: int)
    requires d > 0
    ensures x >= 0 ==> r == x % d
    ensures x < 0 ==> -d < r <= 0
  {
    if x >= 0 then x % d else -(-x % d)
  }
}
