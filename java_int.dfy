/** Java's 32-bit `int`, on unbounded integers. */
module JavaInt {
  const TwoTo31: int := 0x8000_0000
  const TwoTo32: int := 0x1_0000_0000

  /** Java `int` arithmetic: the value wrapped into [-2^31, 2^31). */
  function ToInt32(x: int): (r: int)
    ensures -TwoTo31 <= r < TwoTo31
    ensures (x - r) % TwoTo32 == 0
    ensures -TwoTo31 <= x < TwoTo31 ==> r == x
  {
    (x + TwoTo31) % TwoTo32 - TwoTo31
  }

  /** Wrapping once per step and wrapping once at the end agree. */
  lemma ToInt32Decrement(x: int)
    ensures ToInt32(ToInt32(x) - 1) == ToInt32(x - 1)
  {
  }
}
