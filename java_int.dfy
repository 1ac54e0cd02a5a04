/** Java `int` arithmetic: 32-bit two's complement wrap-around and truncating remainder. */
module JavaInt {

  const MIN_VALUE: int := -0x8000_0000
  const MAX_VALUE: int := 0x7FFF_FFFF
  /** 2^32, the period of `int` wrap-around. */
  const Modulus: int := 0x1_0000_0000

  predicate IsInt(x: int) {
    MIN_VALUE <= x <= MAX_VALUE
  }

  /** The `int` that Java keeps when a result `x` overflows. */
  function Wrap(x: int): (r: int)
    ensures IsInt(r)
    ensures Multiple(x - r)
    ensures IsInt(x) ==> r == x
  {
    var m := x % Modulus;
    if m <= MAX_VALUE then m else m - Modulus
  }

  /** `x++` on an `int` field. */
  function Inc(x: int): (r: int)
    requires IsInt(x)
    ensures r != x
    ensures IsInt(r)
  {
    if x < MAX_VALUE then x + 1 else MIN_VALUE
  }

  /** Java's `a % b` for a positive divisor: the remainder takes the sign of `a`. */
  function Rem(a: int, b: int): (r: int)
    requires b > 0
    ensures a >= 0 ==> 0 <= r < b && r == a % b
    ensures a < 0 ==> -b < r <= 0
  {
    if a >= 0 then a % b else -((-a) % b)
  }

  /** `x` is a multiple of 2^32: the two sides of an `==` that Java cannot tell apart. */
  predicate Multiple(x: int) {
    x % Modulus == 0
  }

  lemma MultipleIsProduct(x: int)
    requires Multiple(x)
    ensures x == (x / Modulus) * Modulus
  {
  }

  lemma ProductIsMultiple(k: int)
    ensures Multiple(k * Modulus)
  {
  }

  lemma MultipleSum(x: int, y: int)
    requires Multiple(x) && Multiple(y)
    ensures Multiple(x + y)
  {
    MultipleIsProduct(x);
    MultipleIsProduct(y);
    assert x + y == (x / Modulus + y / Modulus) * Modulus;
    ProductIsMultiple(x / Modulus + y / Modulus);
  }

  /** Multiplying by a constant keeps a multiple of 2^32 a multiple. */
  lemma MultipleScale(x: int, c: int)
    requires Multiple(x)
    ensures Multiple(c * x)
  {
    MultipleIsProduct(x);
    assert c * x == (c * (x / Modulus)) * Modulus;
    ProductIsMultiple(c * (x / Modulus));
  }

  /** Two values congruent modulo 2^32 wrap to the same `int`. */
  lemma WrapCongruent(a: int, b: int)
    requires Multiple(a - b)
    ensures Wrap(a) == Wrap(b)
  {
    MultipleIsProduct(a - b);
    var k := (a - b) / Modulus;
    var q, r := b / Modulus, b % Modulus;
    assert a == (q + k) * Modulus + r;
    assert a % Modulus == r;
  }

  /** `x++` is the wrap-around of `x + 1`. */
  lemma IncIsWrap(x: int)
    requires IsInt(x)
    ensures Inc(x) == Wrap(x + 1)
  {
  }

  /** Where `n` successive `x++` take an `int` that starts at `c`, for fewer than 2^32 of them. */
  function Advance(c: int, n: nat): (r: int)
    requires IsInt(c) && n < Modulus
    ensures IsInt(r)
  {
    if c + n <= MAX_VALUE then c + n else c + n - Modulus
  }

  /** No steps leave an `int` where it was; one more step is one more `x++`. */
  lemma AdvanceStep(c: int, n: nat)
    requires IsInt(c) && n + 1 < Modulus
    ensures Advance(c, 0) == c
    ensures Advance(c, n + 1) == Inc(Advance(c, n))
  {
  }

  /** `n` increments one by one land where one wrap of the whole sum does. */
  lemma AdvanceWrap(c: int, n: nat)
    requires IsInt(c) && n < Modulus
    ensures Advance(c, n) == Wrap(c + n)
  {
  }
}
