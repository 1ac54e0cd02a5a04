/**
 * The table's hash function: Java's `String.hashCode` recurrence `h := 31 * h + c`
 * over the characters, in wrapping 32-bit arithmetic, and the normalisation the table
 * applies before taking the remainder by the capacity.
 */
module StringHash {
  import opened JavaInt

  /** The integer code of one character (a UTF-16 unit in the source). */
  function Code(c: char): nat {
    c as nat
  }

  /** The hash polynomial without any overflow: sum of code(s[i]) * 31^(|s|-1-i). */
  function Poly(s: string): nat {
    if s == [] then 0 else 31 * Poly(s[..|s| - 1]) + Code(s[|s| - 1])
  }

  /** The value `stringHashCode` returns: each step is `hash *= 31; hash += c` on an `int`. */
  function HashCode(s: string): (h: int)
    ensures IsInt(h)
  {
    if s == [] then 0 else Wrap(Wrap(HashCode(s[..|s| - 1]) * 31) + Code(s[|s| - 1]))
  }

  /** `stringHashCode`: the loop over the characters of `item`. */
  method StringHashCode(item: string) returns (hash: int)
    ensures hash == HashCode(item)
    ensures hash == Wrap(Poly(item))
  {
    hash := 0;
    for i := 0 to |item|
      invariant hash == HashCode(item[..i])
    {
      assert item[..i + 1][..i] == item[..i];
      hash := Wrap(hash * 31);
      hash := Wrap(hash + Code(item[i]));
    }
    assert item[..|item|] == item;
    HashCodeIsWrappedPoly(item);
  }

  /** The wrapping recurrence computes the polynomial reduced to a 32-bit `int`. */
  lemma {:induction false} HashCodeIsWrappedPoly(s: string)
    ensures HashCode(s) == Wrap(Poly(s))
  {
    if s != [] {
      var p := s[..|s| - 1];
      var c := Code(s[|s| - 1]);
      var h, q := HashCode(p), Poly(p);
      HashCodeIsWrappedPoly(p);
      // h == Wrap(q), so 31 * h and 31 * q differ by a multiple of 2^32 ...
      MultipleScale(q - h, 31);
      assert 31 * (q - h) == 31 * q - h * 31;
      // ... and so do Wrap(h * 31) and h * 31: every wrap of the step can be deferred.
      MultipleSum(h * 31 - Wrap(h * 31), 31 * q - h * 31);
      assert (31 * q + c) - (Wrap(h * 31) + c) == (h * 31 - Wrap(h * 31)) + (31 * q - h * 31);
      WrapCongruent(31 * q + c, Wrap(h * 31) + c);
    }
  }

  /**
   * The table's correction of a negative hash: `hash += Integer.MAX_VALUE + 1`, where
   * `Integer.MAX_VALUE + 1` itself wraps to `Integer.MIN_VALUE`.
   */
  function Normalise(h: int): int {
    if h < 0 then Wrap(h + Wrap(MAX_VALUE + 1)) else h
  }

  /** A normalised `int` is non-negative and agrees with the `int` modulo 2^31. */
  lemma NormaliseRange(h: int)
    requires IsInt(h)
    ensures 0 <= Normalise(h) < 0x8000_0000
    ensures Normalise(h) == h % 0x8000_0000
  {
  }

  /** The normalised hash of a key is the unsigned hash polynomial modulo 2^31. */
  lemma NormalisedHash(s: string)
    ensures 0 <= Normalise(HashCode(s)) < 0x8000_0000
    ensures Normalise(HashCode(s)) == Poly(s) % 0x8000_0000
  {
    HashCodeIsWrappedPoly(s);
    var p := Poly(s);
    var h := Wrap(p);
    NormaliseRange(h);
    MultipleIsProduct(p - h);
    var k := (p - h) / Modulus;
    assert p == h + (2 * k) * 0x8000_0000;
    HalfPeriod(h, 2 * k);
  }

  lemma HalfPeriod(h: int, k: int)
    ensures (h + k * 0x8000_0000) % 0x8000_0000 == h % 0x8000_0000
  {
  }

  /** The slot of a key in a table of `capacity` slots: `hash % capacity` on the normalised hash. */
  function SlotIndex(s: string, capacity: int): (i: int)
    requires capacity > 0
    ensures 0 <= i < capacity
  {
    NormalisedHash(s);
    Rem(Normalise(HashCode(s)), capacity)
  }

  /** A key's slot is its unsigned hash polynomial, modulo 2^31, modulo the capacity. */
  lemma SlotIndexOfPoly(s: string, capacity: int)
    requires capacity > 0
    ensures SlotIndex(s, capacity) == Poly(s) % 0x8000_0000 % capacity
  {
    NormalisedHash(s);
  }

  /** The examples of the hash function: one character gives its code; two give c0 * 31 + c1. */
  lemma HashExamples()
    ensures HashCode("a") == 97
    ensures HashCode("ab") == 97 * 31 + 98
  {
    assert "a"[..0] == [];
    assert "ab"[..1] == "a";
  }
}
