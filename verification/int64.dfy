/** Go's int64 and the two's-complement wrap-around of its addition. */
module Int64 {

  const Two63: int := 0x8000_0000_0000_0000
  const Two64: int := 0x1_0000_0000_0000_0000
  const MaxInt64: int := Two63 - 1
  const MinInt64: int := -Two63

  predicate IsInt64(x: int) {
    MinInt64 <= x <= MaxInt64
  }

  /** The int64 that Go's addition yields when the mathematical result is x:
      x reduced modulo 2^64 into the signed range. */
  function Wrap(x: int): (w: int)
    ensures IsInt64(w)
    ensures IsInt64(x) ==> w == x
    ensures (x - w) % Two64 == 0
  {
    (x + Two63) % Two64 - Two63
  }

  /** Adding a non-negative int64 b to an int64 a: the wrapped sum is
      non-negative exactly when the true sum is a non-negative int64, and then
      it is the true sum. An overflow therefore always shows as a negative
      value. */
  lemma AddNonNegative(a: int, b: int)
    requires IsInt64(a) && 0 <= b <= MaxInt64
    ensures Wrap(a + b) >= 0 <==> 0 <= a + b <= MaxInt64
    ensures Wrap(a + b) >= 0 ==> Wrap(a + b) == a + b
  {
    if a + b > MaxInt64 {
      var x := a + b + Two63;
      assert Two64 <= x < 2 * Two64;
      assert x % Two64 == x - Two64;
      assert Wrap(a + b) == a + b - Two64;
    }
  }
}
