/** Multiplicative hashing of an integer key into a bucket index.

    The source multiplies the key by A = 0.618033, keeps the fractional part
    of the product and scales it by the capacity. Here A is the exact decimal
    fraction Numerator / Scale and every step is done in exact integer
    arithmetic, so a fraction x is represented by the integer x * Scale. */
module Hashing {

  const Numerator := 618033
  const Scale := 1000000

  /** Division that truncates toward zero, as C++ `/` and `(int)` casts do. */
  function TruncDiv(a: int, b: int): (q: int)
    requires b > 0
    ensures a >= 0 ==> 0 <= q && 0 <= a - q * b < b
    ensures a < 0 ==> q <= 0 && -b < a - q * b <= 0
  {
    if a >= 0 then a / b else -((-a) / b)
  }

  /** The index the source computes, AS WRITTEN: the fractional part is
      `key * A - (int)(key * A)`, which has the sign of the key, and the scaled
      value is truncated toward zero. */
  function SourceHash(key: int, capacity: int): (r: int)
    requires capacity >= 1
    ensures -capacity < r < capacity
    ensures key >= 0 ==> 0 <= r
  {
    var product := key * Numerator;                            // key * A, times Scale
    var fraction := product - TruncDiv(product, Scale) * Scale; // in (-Scale, Scale)
    ScaledIndex(capacity, fraction)
  }

  /** `(int)(capacity * f)` for a fraction f = fraction / Scale with |f| < 1. */
  function ScaledIndex(capacity: int, fraction: int): (r: int)
    requires capacity >= 1 && -Scale < fraction < Scale
    ensures -capacity < r < capacity
    ensures fraction >= 0 ==> 0 <= r
  {
    var p := capacity * fraction;
    if fraction >= 0 then
      ScaledBelow(capacity, fraction);
      TruncDiv(p, Scale)
    else
      ScaledBelow(capacity, -fraction);
      assert -p == capacity * -fraction;
      TruncDiv(p, Scale)
  }

  /** Scaling a fraction in [0, 1) by the capacity stays in [0, capacity). */
  lemma ScaledBelow(capacity: int, fraction: int)
    requires capacity >= 1 && 0 <= fraction < Scale
    ensures 0 <= (capacity * fraction) / Scale < capacity
  {
  }

  /** The index the table uses: the fractional part is taken in [0, 1), the
      floor of `key * A` being subtracted, so every key lands in a bucket. */
  function Hash(key: int, capacity: int): (r: int)
    requires capacity >= 1
    ensures 0 <= r < capacity
  {
    var fraction := (key * Numerator) % Scale;                 // in [0, Scale)
    ScaledBelow(capacity, fraction);
    (capacity * fraction) / Scale
  }

  /** On non-negative keys the corrected index is the one the source computes. */
  lemma HashAgreesOnNonNegativeKeys(key: int, capacity: int)
    requires key >= 0 && capacity >= 1
    ensures Hash(key, capacity) == SourceHash(key, capacity)
  {
    var product := key * Numerator;
    assert product >= 0;
    assert product - TruncDiv(product, Scale) * Scale == product % Scale;
  }

  /** The source's index is negative for key -1 at the default capacity 8:
      `(int)(8 * -0.618033) == -4`, outside the bucket array. Not every
      negative key goes wrong: for -13 the fraction is only -0.034429. */
  lemma SourceHashNegativeForNegativeKey()
    ensures SourceHash(-1, 8) == -4
    ensures Hash(-1, 8) == 3
    ensures SourceHash(-13, 8) == 0
  {
  }
}
