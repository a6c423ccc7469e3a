/**
  Go's `int32`, as used by the injection counter. `atomic.AddInt32` adds in
  two's complement, so the counter wraps from the largest value to the
  smallest one instead of growing without bound.
 */
module Int32 {

  const MIN: int := -0x8000_0000
  const MAX: int := 0x7fff_ffff
  /** The number of distinct `int32` values. */
  const MODULUS: int := 0x1_0000_0000

  type int32 = x: int | MIN <= x <= MAX

  /** The `int32` that two's-complement arithmetic yields for the mathematical value `x`. */
  function Wrap(x: int): (r: int32)
    ensures (r - x) % MODULUS == 0
    ensures MIN <= x <= MAX ==> r == x
  {
    (x - MIN) % MODULUS + MIN
  }

  /** The new value that `atomic.AddInt32(p, 1)` stores and returns when `*p == x`. */
  function AddOne(x: int32): (r: int32)
    ensures x < MAX ==> r == x + 1
    ensures x == MAX ==> r == MIN
  {
    Wrap(x + 1)
  }

  /** Two values that differ by a multiple of 2^32 wrap to the same `int32`. */
  lemma WrapCongruent(x: int, y: int, k: int)
    requires x - y == k * MODULUS
    ensures Wrap(x) == Wrap(y)
  {
    var qx := (x - MIN) / MODULUS;
    var qy := (y - MIN) / MODULUS;
    assert x - MIN == qx * MODULUS + (x - MIN) % MODULUS;
    assert y - MIN == qy * MODULUS + (y - MIN) % MODULUS;
    var d := (x - MIN) % MODULUS - (y - MIN) % MODULUS;
    assert d == (k - qx + qy) * MODULUS;
    assert -MODULUS < d < MODULUS;
    MultipleBounds(k - qx + qy);
  }

  /** A non-zero multiple of 2^32 is at least 2^32 away from zero. */
  lemma MultipleBounds(m: int)
    ensures m >= 1 ==> m * MODULUS >= MODULUS
    ensures m <= -1 ==> m * MODULUS <= -MODULUS
  {
  }

  /** Adding to a wrapped value and wrapping again is adding first. */
  lemma WrapShift(y: int, d: int)
    ensures Wrap(Wrap(y) + d) == Wrap(y + d)
  {
    var q := (y - MIN) / MODULUS;
    assert Wrap(y) == y - q * MODULUS;
    WrapCongruent(Wrap(y) + d, y + d, -q);
  }

  /** Fewer than 2^32 increments apart, two wrapped values are distinct. */
  lemma WrapDistinct(x: int, y: int)
    requires x < y < x + MODULUS
    ensures Wrap(x) != Wrap(y)
  {
    var qx := (x - MIN) / MODULUS;
    var qy := (y - MIN) / MODULUS;
    assert Wrap(x) == x - qx * MODULUS;
    assert Wrap(y) == y - qy * MODULUS;
    MultipleBounds(qy - qx);
  }

  /** The counter after `n` calls of `atomic.AddInt32(p, 1)`, starting from `x`. */
  function Advance(x: int32, n: nat): int32
    decreases n
  {
    if n == 0 then x else Advance(AddOne(x), n - 1)
  }

  /** `n` increments land where two's-complement addition of `n` does. */
  lemma {:induction false} AdvanceIsWrap(x: int32, n: nat)
    ensures Advance(x, n) == Wrap(x + n)
    decreases n
  {
    if n > 0 {
      AdvanceIsWrap(AddOne(x), n - 1);
      WrapShift(x + 1, n - 1);
    }
  }
}
