/** Java `int` range and the bit test `x & (x - 1)` used to recognise powers of two. */
module JavaInt {

  const INT_MIN: int := -0x8000_0000
  const INT_MAX: int := 0x7FFF_FFFF  // Integer.MAX_VALUE

  /** A value of Java type `int`. */
  type int32 = x: int | INT_MIN <= x <= INT_MAX

  /** Reference definition: n is 2^k for some k >= 0. */
  predicate IsPowerOfTwo(n: int)
    decreases if n < 0 then 0 else n
  {
    n == 1 || (n >= 2 && n % 2 == 0 && IsPowerOfTwo(n / 2))
  }

  /** Bitwise AND of two non-negative integers, bit by bit from the lowest. */
  function BitAnd(a: nat, b: nat): nat
    decreases a
  {
    if a == 0 || b == 0 then 0 else 2 * BitAnd(a / 2, b / 2) + (a % 2) * (b % 2)
  }

  /** Java's `x & (x - 1)` for an `int` x >= 0. For x == 0 the right operand is
      -1, whose two's-complement bits are all ones, so the result is 0. */
  function AndPredecessor(x: nat): nat
  {
    if x == 0 then 0 else BitAnd(x, x - 1)
  }

  lemma {:induction false} BitAndSelf(a: nat)
    ensures BitAnd(a, a) == a
  {
    if a != 0 {
      BitAndSelf(a / 2);
    }
  }

  /** The bit trick is exact on positive numbers: `x & (x - 1) == 0` holds iff
      x is a power of two. */
  lemma {:induction false} AndPredecessorZeroIffPowerOfTwo(x: nat)
    requires x >= 1
    ensures AndPredecessor(x) == 0 <==> IsPowerOfTwo(x)
  {
    if x == 1 {
    } else if x % 2 == 0 {
      var m := x / 2;
      assert x - 1 == 2 * (m - 1) + 1;
      assert (x - 1) / 2 == m - 1 && (x - 1) % 2 == 1;
      assert BitAnd(x, x - 1) == 2 * BitAnd(m, m - 1);
      AndPredecessorZeroIffPowerOfTwo(m);
    } else {
      var m := x / 2;
      assert x - 1 == 2 * m && m >= 1;
      assert BitAnd(x, x - 1) == 2 * BitAnd(m, m);
      BitAndSelf(m);
      assert !IsPowerOfTwo(x);
    }
  }

  /** So the check `(x & (x - 1)) == 0` on x >= 0 accepts exactly 0 and the
      powers of two. */
  lemma AndPredecessorZeroIff(x: nat)
    ensures AndPredecessor(x) == 0 <==> x == 0 || IsPowerOfTwo(x)
  {
    if x >= 1 {
      AndPredecessorZeroIffPowerOfTwo(x);
    }
  }
}
