/**
 C integer semantics that differ from Dafny's unbounded, Euclidean arithmetic.
 The album code divides signed `int`s (which truncates toward zero) and
 converts 32-bit `size_t` values (the console's ABI) back to `int`.
 */
module CArith {

  const SizeTModulus: int := 0x1_0000_0000

  /** `a / b` on C `int`: the quotient is truncated toward zero. */
  function CDiv(a: int, b: int): (q: int)
    requires b > 0
    ensures a >= 0 ==> 0 <= a - q * b < b
    ensures a < 0 ==> -b < a - q * b <= 0
  {
    if a >= 0 then a / b else -((-a) / b)
  }

  /** `a % b` on C `int`: the remainder takes the sign of the dividend. */
  function CMod(a: int, b: int): (r: int)
    requires b > 0
    ensures a == CDiv(a, b) * b + r
    ensures a >= 0 ==> 0 <= r < b
    ensures a < 0 ==> -b < r <= 0
  {
    a - CDiv(a, b) * b
  }

  /** On non-negative operands C and Dafny division agree. */
  lemma CDivNonNegative(a: int, b: int)
    requires a >= 0 && b > 0
    ensures CDiv(a, b) == a / b && CMod(a, b) == a % b
  {
  }

  /** A 32-bit unsigned wrap-around, as in `images.size() - 1` on an empty vector. */
  function SizeT(x: int): (r: int)
    ensures 0 <= r < SizeTModulus
    ensures 0 <= x < SizeTModulus ==> r == x
    ensures x == -1 ==> r == SizeTModulus - 1
  {
    x % SizeTModulus
  }

  /** `(int)` of a 32-bit unsigned value: values of 2^31 and above turn negative. */
  function IntOfSizeT(u: int): (r: int)
    requires 0 <= u < SizeTModulus
    ensures -0x8000_0000 <= r < 0x8000_0000
    ensures (r - u) % SizeTModulus == 0
  {
    if u < 0x8000_0000 then u else u - SizeTModulus
  }
}
