/**
 * Java's 32-bit `int`: two's-complement values from -2^31 to 2^31 - 1,
 * whose arithmetic wraps around modulo 2^32.
 */
module JavaInt {

  const MaxInt: int := 0x7FFF_FFFF
  const MinInt: int := -0x8000_0000
  const Modulus: int := 0x1_0000_0000   // 2^32, the number of bit patterns

  predicate IsInt32(x: int)
  {
    MinInt <= x <= MaxInt
  }

  /** The `int` whose 32-bit pattern, read unsigned, is `u`. */
  function AsInt32(u: nat): (x: int)
    requires u < Modulus
    ensures IsInt32(x)
    ensures x == u || x == u - Modulus
  {
    if u <= MaxInt then u else u - Modulus
  }

  /** The 32-bit pattern of `x`, read unsigned (Java's `Integer.toUnsignedLong`). */
  function AsUnsigned(x: int): (u: nat)
    requires IsInt32(x)
    ensures u < Modulus && AsInt32(u) == x
  {
    if x < 0 then x + Modulus else x
  }

  /** The `int` an exact result wraps around to. */
  function Wrap(z: int): (x: int)
    ensures IsInt32(x) && AsUnsigned(x) == z % Modulus
    ensures IsInt32(z) ==> x == z
  {
    AsInt32(z % Modulus)
  }

  /** `a + b` on `int`s. */
  function Add(a: int, b: int): (s: int)
    requires IsInt32(a) && IsInt32(b)
    ensures IsInt32(s)
    ensures s == Wrap(a + b)
    ensures s % 2 == (a + b) % 2
  {
    var sum := a + b;
    if sum > MaxInt then sum - Modulus
    else if sum < MinInt then sum + Modulus
    else sum
  }

  /** `a * b` on `int`s. */
  function Mul(a: int, b: int): (p: int)
    requires IsInt32(a) && IsInt32(b)
    ensures IsInt32(p) && AsUnsigned(p) == (a * b) % Modulus
    ensures IsInt32(a * b) ==> p == a * b
  {
    Wrap(a * b)
  }
}
