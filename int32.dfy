/** Kotlin's `Int`: 32-bit two's-complement integers whose arithmetic wraps on overflow. */
module Int32Arith {

  const MIN: int := -0x8000_0000
  const MAX: int := 0x7fff_ffff
  const MODULUS: int := 0x1_0000_0000

  /** The values a Kotlin `Int` can hold. */
  type Int32 = x: int | MIN <= x <= MAX

  /** The `Int` the JVM keeps of the mathematical result `x`: the one congruent to `x` modulo 2^32. */
  function Wrap(x: int): (r: Int32)
    ensures (x - r) % MODULUS == 0
    ensures MIN <= x <= MAX ==> r == x
  {
    if MIN <= x <= MAX then x else (x - MIN) % MODULUS + MIN
  }

  /** Values congruent modulo 2^32 wrap to the same `Int`. */
  lemma WrapUnique(x: int, y: int)
    requires (x - y) % MODULUS == 0
    ensures Wrap(x) == Wrap(y)
  {
    var a, b := Wrap(x), Wrap(y);
    assert (a - b) % MODULUS == 0;
    assert -MODULUS < a - b < MODULUS;
  }

  /** Kotlin `a + b` on `Int`. */
  function Add(a: Int32, b: Int32): (r: Int32)
    ensures (a + b - r) % MODULUS == 0
    ensures MIN <= a + b <= MAX ==> r == a + b
  {
    Wrap(a + b)
  }

  /** Kotlin `a - b` on `Int`. */
  function Sub(a: Int32, b: Int32): (r: Int32)
    ensures (a - b - r) % MODULUS == 0
    ensures MIN <= a - b <= MAX ==> r == a - b
  {
    Wrap(a - b)
  }

  /** Kotlin `a * b` on `Int`. */
  function Mul(a: Int32, b: Int32): (r: Int32)
    ensures (a * b - r) % MODULUS == 0
    ensures MIN <= a * b <= MAX ==> r == a * b
  {
    Wrap(a * b)
  }
}
