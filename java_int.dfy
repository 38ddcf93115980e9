/** Java's 32-bit `int` arithmetic, as far as the timer uses it: the value range,
    the wrap-around of `*`, and the truncating `/` and `%` used for the display. */
module JavaInt {

  const MinInt: int := -0x8000_0000
  const MaxInt: int := 0x7FFF_FFFF
  const Modulus: int := 0x1_0000_0000

  /** The values a Java `int` can hold. */
  predicate IsInt32(x: int) {
    MinInt <= x <= MaxInt
  }

  /** The two's-complement reduction that Java applies to the exact result of an
      `int` operation: the unique `int` congruent to `x` modulo 2^32. */
  function Wrap(x: int): (r: int)
    ensures IsInt32(r)
    ensures (r - x) % Modulus == 0
    ensures IsInt32(x) ==> r == x
  {
    (x - MinInt) % Modulus + MinInt
  }

  /** Java `x / 60` and `x % 60` on an `int`: the quotient is truncated toward
      zero and the remainder takes the sign of the dividend. */
  function Split(x: int): (r: (int, int))
    ensures r.0 * 60 + r.1 == x
    ensures x >= 0 ==> 0 <= r.1 < 60 && r.0 >= 0
    ensures x < 0 ==> -60 < r.1 <= 0 && r.0 <= 0
  {
    if x >= 0 then (x / 60, x % 60)
    else (-((-x) / 60), -((-x) % 60))
  }

  /** The contract of `Split` is a complete specification: any pair with the
      same properties is the pair `Split` returns. */
  lemma SplitUnique(x: int, m: int, s: int)
    requires m * 60 + s == x
    requires x >= 0 ==> 0 <= s < 60
    requires x < 0 ==> -60 < s <= 0
    ensures (m, s) == Split(x)
  {
  }
}
