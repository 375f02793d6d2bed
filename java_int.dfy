/**
 * Java `int` arithmetic where it differs from mathematical integers:
 * 32-bit two's-complement wrap-around, the truncating remainder `%`,
 * and the narrowing cast `(int)` from `long`.
 */
module JavaInt {
  const MinInt: int := -0x8000_0000
  const MaxInt: int := 0x7fff_ffff
  const Modulus: int := 0x1_0000_0000

  /** The values a Java `int` can hold. */
  type Int32 = v: int | MinInt <= v <= MaxInt

  function Abs(v: int): nat { if v < 0 then -v else v }

  function Min(a: int, b: int): (r: int)
    ensures r <= a && r <= b && (r == a || r == b)
  {
    if a <= b then a else b
  }

  function Max(a: int, b: int): (r: int)
    ensures r >= a && r >= b && (r == a || r == b)
  {
    if a >= b then a else b
  }

  /** The `int` a Java computation on 32 bits yields for the exact result `v`
      (also the narrowing cast `(int)` of a `long`). */
  function Wrap(v: int): (r: Int32)
    ensures MinInt <= v <= MaxInt ==> r == v
    ensures v == MaxInt + 1 ==> r == MinInt
    ensures v == MinInt - 1 ==> r == MaxInt
  {
    (v - MinInt) % Modulus + MinInt
  }

  lemma SmallRemainder(a: int, b: int)
    requires b > 0
    ensures 0 <= a % b < b
    ensures 0 <= a < b ==> a % b == a
  {
    if 0 <= a < b {
      assert a == (a / b) * b + a % b;
      assert a / b == 0;
    }
  }

  /** Java's `a % b` for a positive divisor: the remainder takes the sign
      of the dividend, where Dafny's `%` is never negative. */
  function Rem(a: int, b: int): (r: int)
    requires b > 0
    ensures 0 <= a ==> 0 <= r < b
    ensures a < 0 ==> -b < r <= 0
    ensures -b < a < b ==> r == a
  {
    if a >= 0 then
      SmallRemainder(a, b); a % b
    else
      SmallRemainder(-a, b); -((-a) % b)
  }
}
