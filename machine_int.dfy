/** Rust's fixed-width signed integers as they are used by the tick arithmetic:
    the ranges of `i64` and `i128`, the truncating `/` of Rust's integer
    division, and the two's-complement narrowing cast `i128 as i64`.
 */
module MachineInt {

  const MinI64: int := -0x8000_0000_0000_0000
  const MaxI64: int := 0x7FFF_FFFF_FFFF_FFFF
  const MinI128: int := -0x8000_0000_0000_0000_0000_0000_0000_0000
  const MaxI128: int := 0x7FFF_FFFF_FFFF_FFFF_FFFF_FFFF_FFFF_FFFF
  /** The number of distinct `i64` values, the modulus of a narrowing cast. */
  const Modulus64: int := 0x1_0000_0000_0000_0000

  predicate InI64(x: int) { MinI64 <= x <= MaxI64 }
  predicate InI128(x: int) { MinI128 <= x <= MaxI128 }

  type i64 = x: int | InI64(x)
  type i128 = x: int | InI128(x)

  function Abs(x: int): int
  {
    if x < 0 then -x else x
  }

  /** `q` is what Rust's `a / b` yields: the remainder `a - q * b` is smaller
      than the divisor in magnitude and has the sign of `a` (the quotient is
      rounded toward zero). */
  predicate IsTruncQuotient(q: int, a: int, b: int)
  {
    var rem := a - q * b;
    b != 0 && if a >= 0 then 0 <= rem < Abs(b) else -Abs(b) < rem <= 0
  }

  lemma MulAbs(x: int, y: int)
    ensures Abs(x * y) == Abs(x) * Abs(y)
  {
  }

  lemma MulMonotone(x: int, y: int, z: int)
    requires x <= y && z >= 0
    ensures x * z <= y * z
  {
  }

  lemma MulStrictMonotone(x: int, y: int, z: int)
    requires x < y && z > 0
    ensures x * z < y * z
  {
  }

  /** Rust's integer division, which truncates toward zero (unlike Dafny's
      Euclidean `/` on `int`). */
  function TruncDiv(a: int, b: int): (q: int)
    requires b != 0
    ensures IsTruncQuotient(q, a, b)
    ensures Abs(q) * Abs(b) <= Abs(a)
  {
    var u := Abs(a) / Abs(b);
    EuclidDivBounds(Abs(a), Abs(b));
    TruncDivSigns(a, b, u);
    if (a >= 0) == (b > 0) then u else -u
  }

  lemma EuclidDivBounds(n: nat, d: int)
    requires d > 0
    ensures 0 <= n / d && (n / d) * d <= n < (n / d) * d + d
  {
  }

  /** Dividing the magnitudes and giving the quotient the sign of `a * b`
      truncates toward zero. */
  lemma TruncDivSigns(a: int, b: int, u: int)
    requires b != 0 && 0 <= u && u * Abs(b) <= Abs(a) < u * Abs(b) + Abs(b)
    ensures var q := if (a >= 0) == (b > 0) then u else -u;
      IsTruncQuotient(q, a, b) && Abs(q) * Abs(b) <= Abs(a)
  {
    if b > 0 {
      assert Abs(b) == b;
    } else {
      assert u * b == -(u * Abs(b));
    }
  }

  lemma QuotientByRemainder(q: int, a: int, b: int, rem: int)
    requires b != 0 && rem == a - q * b
    requires if a >= 0 then 0 <= rem < Abs(b) else -Abs(b) < rem <= 0
    ensures IsTruncQuotient(q, a, b)
  {
  }

  /** Rust's `x as i64` on a wider integer keeps the low 64 bits and reads them
      as two's complement. */
  function WrapI64(x: int): (r: i64)
    ensures (x - r) % Modulus64 == 0
    ensures InI64(x) ==> r == x
  {
    (x - MinI64) % Modulus64 + MinI64
  }

  lemma MulCancelLt(x: int, y: int, z: int)
    requires x * z < y * z && z > 0
    ensures x < y
  {
  }

  lemma MulSign(x: int, c: int)
    requires c > 0
    ensures (x * c > 0) == (x > 0) && (x * c == 0) == (x == 0)
  {
  }

  lemma ScaleRemainder(a: int, q: int, b: int, c: int)
    ensures a * c - q * (b * c) == (a - q * b) * c
  {
    assert (a - q * b) * c == a * c - (q * b) * c;
    assert (q * b) * c == q * (b * c);
  }

  /** The truncated quotient is unique: the two conditions of `IsTruncQuotient`
      pin it down. */
  lemma TruncQuotientUnique(q1: int, q2: int, a: int, b: int)
    requires IsTruncQuotient(q1, a, b) && IsTruncQuotient(q2, a, b)
    ensures q1 == q2
  {
    var r1, r2 := a - q1 * b, a - q2 * b;
    assert Abs(q2 - q1) * Abs(b) < 1 * Abs(b) by {
      assert r1 - r2 == (q2 - q1) * b;
      MulAbs(q2 - q1, b);
    }
    MulCancelLt(Abs(q2 - q1), 1, Abs(b));
  }

  /** Dividing an exact multiple gives back the factor. */
  lemma TruncDivExact(q: int, b: int)
    requires b != 0
    ensures TruncDiv(q * b, b) == q
  {
    QuotientByRemainder(q, q * b, b, 0);
    TruncQuotientUnique(TruncDiv(q * b, b), q, q * b, b);
  }

  /** Truncating division commutes with negation of the dividend: this is the
      sign symmetry that Euclidean division lacks. */
  lemma TruncDivNeg(a: int, b: int)
    requires b != 0
    ensures TruncDiv(-a, b) == -TruncDiv(a, b)
  {
    if a == 0 {
      TruncDivExact(0, b);
    } else {
      var q := TruncDiv(a, b);
      assert -a - (-q) * b == -(a - q * b);
      QuotientByRemainder(-q, -a, b, -(a - q * b));
      TruncQuotientUnique(TruncDiv(-a, b), -q, -a, b);
    }
  }

  /** Scaling dividend and divisor by the same positive factor leaves the
      truncated quotient unchanged. */
  lemma TruncDivCancel(a: int, b: int, c: int)
    requires b != 0 && c > 0
    ensures b * c != 0 && TruncDiv(a * c, b * c) == TruncDiv(a, b)
  {
    var q := TruncDiv(a, b);
    var rem := a - q * b;
    assert b * c != 0 && Abs(b * c) == Abs(b) * c by {
      MulSign(b, c);
      MulAbs(b, c);
    }
    assert a * c - q * (b * c) == rem * c by {
      ScaleRemainder(a, q, b, c);
    }
    MulSign(a, c);
    if a >= 0 {
      MulMonotone(0, rem, c);
      MulStrictMonotone(rem, Abs(b), c);
    } else {
      MulMonotone(rem, 0, c);
      MulStrictMonotone(-Abs(b), rem, c);
      assert (-Abs(b)) * c == -(Abs(b) * c);
    }
    QuotientByRemainder(q, a * c, b * c, rem * c);
    TruncQuotientUnique(TruncDiv(a * c, b * c), q, a * c, b * c);
  }

  lemma EuclidDivMonotone(x: nat, y: nat, d: int)
    requires x <= y && d > 0
    ensures x / d <= y / d
  {
    var qx, qy := x / d, y / d;
    assert qx * d <= x && y < qy * d + d;
    assert qx * d < (qy + 1) * d;
    MulCancelLt(qx, qy + 1, d);
  }

  /** For a positive divisor, truncating division is monotone in the
      dividend. */
  lemma TruncDivMonotone(a1: int, a2: int, b: int)
    requires a1 <= a2 && b > 0
    ensures TruncDiv(a1, b) <= TruncDiv(a2, b)
  {
    if a1 >= 0 {
      TruncDivOfNonNegative(a1, b);
      TruncDivOfNonNegative(a2, b);
      EuclidDivMonotone(a1, a2, b);
    } else if a2 < 0 {
      TruncDivOfNegative(a1, b);
      TruncDivOfNegative(a2, b);
      EuclidDivMonotone(-a2, -a1, b);
    } else {
      TruncDivOfNegative(a1, b);
      TruncDivOfNonNegative(a2, b);
    }
  }

  /** On non-negative operands truncating and Euclidean division agree. */
  lemma TruncDivOfNonNegative(a: int, b: int)
    requires a >= 0 && b > 0
    ensures TruncDiv(a, b) == a / b >= 0
  {
  }

  /** On a negative dividend and a positive divisor truncating division is the
      negated Euclidean quotient of the magnitudes. */
  lemma TruncDivOfNegative(a: int, b: int)
    requires a < 0 && b > 0
    ensures TruncDiv(a, b) == -((-a) / b) <= 0
  {
  }

  /** The quotient is never larger than the dividend in magnitude, so dividing
      a value that fits in some width gives a value that fits too. */
  lemma TruncDivShrinks(a: int, b: int)
    requires b != 0
    ensures Abs(TruncDiv(a, b)) <= Abs(a)
  {
    var q := TruncDiv(a, b);
    MulMonotone(1, Abs(b), Abs(q));
  }

  /** Two values wrap to the same `i64` exactly when they agree modulo 2^64. */
  lemma WrapCongruent(x: int, y: int)
    requires (x - y) % Modulus64 == 0
    ensures WrapI64(x) == WrapI64(y)
  {
    var k := (x - y) / Modulus64;
    assert x - y == k * Modulus64;
    assert x - MinI64 == (y - MinI64) + k * Modulus64;
  }

  /** Narrowing commutes with negation, as `wrapping_neg` does. */
  lemma WrapNeg(x: int)
    ensures WrapI64(-x) == WrapI64(-(WrapI64(x) as int))
  {
    var w: int := WrapI64(x);
    assert (-x - (-w)) == -(x - w);
    WrapCongruent(-x, -w);
  }
}
