/**
 Fixed-width C integers and the C operators the timer code relies on.

 Dafny's `int` is unbounded and its `/` and `%` are Euclidean. The timer code
 uses 32- and 64-bit integers, a signed 64-bit value built from an unsigned
 one, C's truncating division, and a bitwise OR; each is written out here.
 */
module CInt {

  const TWO_32: nat := 0x1_0000_0000
  const TWO_63: nat := 0x8000_0000_0000_0000
  const TWO_64: nat := 0x1_0000_0000_0000_0000

  /** Microseconds in one second, the unit of a `timeval`'s sub-second field. */
  const USEC_PER_SEC: nat := 1000000

  type uint32 = x: nat | x < 0x1_0000_0000
  type uint64 = x: nat | x < 0x1_0000_0000_0000_0000
  type int64 = x: int | -0x8000_0000_0000_0000 <= x < 0x8000_0000_0000_0000

  /** 2^k */
  function Pow2(k: nat): (r: nat)
    ensures r >= 1
  {
    if k == 0 then 1 else 2 * Pow2(k - 1)
  }

  /** 10^k */
  function Pow10(k: nat): (r: nat)
    ensures r >= 1
  {
    if k == 0 then 1 else 10 * Pow10(k - 1)
  }

  /** The two's-complement reading of a 64-bit pattern: what a conversion
      from an unsigned 64-bit value to `__int64` yields. */
  function ToInt64(u: uint64): (r: int64)
    ensures u < TWO_63 ==> r == u
    ensures u >= TWO_63 ==> r == u - TWO_64
    ensures r % TWO_64 == u
  {
    if u < TWO_63 then u else u - TWO_64
  }

  /** C's `a / b` for `b > 0`: the quotient is truncated toward zero. */
  function TruncDiv(a: int, b: nat): (q: int)
    requires b > 0
    ensures a >= 0 ==> q == a / b
    ensures a < 0 ==> q <= 0 && -(b as int) < a - q * b <= 0
  {
    if a >= 0 then a / b
    else
      var n := -a;
      assert n == (n / b) * b + n % b;
      -(n / b)
  }

  /** C's `a % b` for `b > 0`: the remainder takes the sign of `a`. */
  function TruncRem(a: int, b: nat): (r: int)
    requires b > 0
    ensures a == TruncDiv(a, b) * b + r
    ensures a >= 0 ==> 0 <= r < b
    ensures a < 0 ==> -(b as int) < r <= 0
  {
    a - TruncDiv(a, b) * b
  }

  /** Bitwise OR of two non-negative integers, one bit at a time. */
  function BitOr(a: nat, b: nat): nat
    decreases a + b
  {
    if a == 0 then b
    else if b == 0 then a
    else 2 * BitOr(a / 2, b / 2) + (if a % 2 == 1 || b % 2 == 1 then 1 else 0)
  }

  /** OR-ing a value into the low `k` bits of a value shifted left by `k`
      positions is the same as adding it: the bits do not overlap. */
  lemma {:induction false} BitOrDisjoint(a: nat, b: nat, k: nat)
    requires b < Pow2(k)
    ensures BitOr(a * Pow2(k), b) == a * Pow2(k) + b
    decreases k
  {
    if k == 0 {
      assert b == 0;
    } else if a == 0 || b == 0 {
    } else {
      var A := a * Pow2(k);
      assert A == 2 * (a * Pow2(k - 1));
      assert A / 2 == a * Pow2(k - 1) && A % 2 == 0;
      assert b / 2 < Pow2(k - 1);
      BitOrDisjoint(a, b / 2, k - 1);
    }
  }
}
