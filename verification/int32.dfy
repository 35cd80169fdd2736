/**
 The C# `int` type as the grid's properties and counters use it: 32-bit two's
 complement, unchecked (wrapping) addition, and a division that truncates
 toward zero. Dafny's own `int` is unbounded and its `/` is Euclidean, so both
 behaviours are written out here.
 */
module Int32 {

  const MinValue: int := -0x8000_0000
  const MaxValue: int := 0x7FFF_FFFF
  const Modulus: int := 0x1_0000_0000

  /** A value a C# `int` can hold. */
  type Int32 = x: int | MinValue <= x <= MaxValue

  /** The result of an unchecked 32-bit operation whose exact value is `x`. */
  function Wrap(x: int): (r: Int32)
    ensures (x - r) % Modulus == 0
    ensures MinValue <= x <= MaxValue ==> r == x
  {
    var d := x - MinValue;
    assert d == Modulus * (d / Modulus) + d % Modulus;
    d % Modulus + MinValue
  }

  /** C# integer division by a positive divisor: the quotient is truncated
      toward zero, so the remainder takes the sign of the dividend. */
  function Quot(a: int, b: int): (q: int)
    requires b > 0
    ensures a >= 0 ==> 0 <= a - q * b < b
    ensures a < 0 ==> -b < a - q * b <= 0
  {
    if a >= 0 then a / b else -((-a) / b)
  }

  /** Truncating division by a positive divisor moves toward zero, so an
      `int` divided stays an `int`. */
  lemma QuotTowardZero(a: int, b: int)
    requires b > 0
    ensures a >= 0 ==> 0 <= Quot(a, b) <= a
    ensures a < 0 ==> a <= Quot(a, b) <= 0
  {
    if a >= 0 {
      DivAtMost(a, b);
    } else {
      DivAtMost(-a, b);
    }
  }

  lemma DivAtMost(m: nat, b: int)
    requires b > 0
    ensures 0 <= m / b <= m
  {
    var q := m / b;
    assert q * b <= m by {
      assert m == q * b + m % b;
    }
    MultiplyAtLeast(q, b);
  }

  lemma MultiplyAtLeast(q: int, b: int)
    requires b > 0
    ensures q >= 0 ==> q <= q * b
    ensures q < 0 ==> q * b < 0
  {
    if q >= 0 {
      assert q * b == q * (b - 1) + q;
    }
  }
}
