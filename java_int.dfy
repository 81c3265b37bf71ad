/** Java's 32-bit `int`, as far as the trading-post solver uses it. */
module JavaInt {

  const MIN_VALUE: int := -0x8000_0000

  /** `Integer.MAX_VALUE`, which the solver also uses as the "NA / unreachable" sentinel. */
  const MAX_VALUE: int := 0x7fff_ffff

  type int32 = x: int | -0x8000_0000 <= x <= 0x7fff_ffff

  /** Java's `a + b` on ints: the exact sum, wrapped into the two's-complement range. */
  function Add(a: int32, b: int32): (r: int32)
    ensures MIN_VALUE <= a + b <= MAX_VALUE ==> r == a + b
  {
    var s := a + b;
    if s > MAX_VALUE then s - 0x1_0000_0000
    else if s < MIN_VALUE then s + 0x1_0000_0000
    else s
  }

  /** The wrapped sum agrees with the exact sum modulo 2^32, and a sum past `MAX_VALUE` turns negative. */
  lemma AddWrapsAround(a: int32, b: int32)
    ensures (a + b - Add(a, b)) % 0x1_0000_0000 == 0
    ensures a + b > MAX_VALUE ==> Add(a, b) < 0
  {
  }
}
