/**
 * Java integer arithmetic on unbounded integers. Dafny's `/` and `%` are
 * Euclidean; Java's truncate toward zero, so the model spells them out.
 */
module Numeric {

  /** The ranges of Java's `int` and `long`. */
  const IntMin := -0x8000_0000
  const IntMax := 0x7fff_ffff
  const LongMin := -0x8000_0000_0000_0000
  const LongMax := 0x7fff_ffff_ffff_ffff

  /** The narrowing cast `(int)`: the low 32 bits read as a signed number. */
  function WrapInt(v: int): (r: int)
    ensures IntMin <= r <= IntMax
    ensures (r - v) % 0x1_0000_0000 == 0
  {
    (v - IntMin) % 0x1_0000_0000 + IntMin
  }

  /** 2^n. */
  function Pow2(n: nat): (p: nat)
    ensures p >= 1
  {
    if n == 0 then 1 else 2 * Pow2(n - 1)
  }

  function Abs(x: int): nat
  {
    if x < 0 then -x else x
  }

  function Min(a: int, b: int): int
  {
    if a <= b then a else b
  }

  function Max(a: int, b: int): int
  {
    if a >= b then a else b
  }

  /** Java's `a / b`: the quotient rounded toward zero. */
  function TDiv(a: int, b: int): int
    requires b != 0
  {
    var q := Abs(a) / Abs(b);
    if (a < 0) != (b < 0) then -q else q
  }

  /** Java's `a % b`: the remainder takes the sign of the dividend. */
  function TRem(a: int, b: int): int
    requires b != 0
  {
    a - b * TDiv(a, b)
  }

  /** Java's division and remainder fit together and the remainder is smaller than the divisor. */
  lemma TDivRem(a: int, b: int)
    requires b != 0
    ensures a == b * TDiv(a, b) + TRem(a, b)
    ensures Abs(TRem(a, b)) < Abs(b)
    ensures a >= 0 ==> TRem(a, b) >= 0
    ensures a <= 0 ==> TRem(a, b) <= 0
  {
    TRemMagnitude(a, b);
  }

  /** Java's remainder is Dafny's remainder of the magnitudes, signed like the dividend. */
  lemma TRemMagnitude(a: int, b: int)
    requires b != 0
    ensures TRem(a, b) == if a >= 0 then Abs(a) % Abs(b) else -(Abs(a) % Abs(b))
  {
    if a >= 0 && b < 0 {
      RemOverNegative(a, -b);
    } else if a < 0 && b > 0 {
      RemOfNegative(-a, b);
    } else if a < 0 && b < 0 {
      RemOfNegativeOverNegative(-a, -b);
    }
  }

  lemma RemOverNegative(a: int, c: int)
    requires a >= 0 && c > 0
    ensures TRem(a, -c) == a % c
  {
    var q := a / c;
    assert TDiv(a, -c) == -q;
    assert -c * -q == c * q;
  }

  lemma RemOfNegative(a: int, b: int)
    requires a > 0 && b > 0
    ensures TRem(-a, b) == -(a % b)
  {
    var q := a / b;
    assert TDiv(-a, b) == -q;
    assert b * -q == -(b * q);
  }

  lemma RemOfNegativeOverNegative(a: int, c: int)
    requires a > 0 && c > 0
    ensures TRem(-a, -c) == -(a % c)
  {
    var q := a / c;
    assert TDiv(-a, -c) == q;
    assert -c * q == -(c * q);
  }

  /** A positive number times a factor of at least one is at least that number. */
  lemma MulAtLeast(g: int, k: int)
    requires g > 0 && k >= 1
    ensures g * k >= g
  {
  }

  /** On a non-negative dividend and a positive divisor Java and Dafny agree. */
  lemma TruncatingAgreesOnNatural(a: int, b: int)
    requires a >= 0 && b > 0
    ensures TDiv(a, b) == a / b && TRem(a, b) == a % b
  {
  }

  /**
   * Cutting the closed interval [alo, ahi] by an overlapping [blo, bhi]:
   * the part sticking out below, the shared part and the part sticking out
   * above.
   */
  function Below(alo: int, blo: int): int
  {
    if alo < blo then blo - alo else 0
  }

  function Above(ahi: int, bhi: int): int
  {
    if ahi > bhi then ahi - bhi else 0
  }

  lemma AxisSplit(alo: int, ahi: int, blo: int, bhi: int)
    requires alo <= ahi && blo <= bhi && !(bhi < alo || blo > ahi)
    ensures ahi - alo + 1 == Below(alo, blo) + Shared(alo, ahi, blo, bhi) + Above(ahi, bhi)
  {
  }

  function Shared(alo: int, ahi: int, blo: int, bhi: int): int
  {
    Min(ahi, bhi) - Max(alo, blo) + 1
  }
}
