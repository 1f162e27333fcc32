/**
 * Digit arrays and divisibility (`NumberUtil`): turning a decimal string
 * into its digits and back, Euclid's greatest common divisor on Java's
 * truncating remainder, and the lowest common multiple built on it.
 */
module NumberUtil {
  import opened Wrappers
  import opened Numeric
  import Text

  /** `toDigits(String)`: each character minus '0', whatever the character is. */
  function ToDigits(s: string): (ds: seq<int>)
    ensures |ds| == |s|
    ensures forall i :: 0 <= i < |s| && Text.IsDigit(s[i]) ==> 0 <= ds[i] <= 9
    ensures forall i :: 0 <= i < |s| ==> ds[i] + '0' as int == s[i] as int
    ensures forall i :: 0 <= i < |s| && s[i] == '-' ==> ds[i] == -3
  {
    seq(|s|, i requires 0 <= i < |s| => s[i] as int - '0' as int)
  }

  /** `toDigits(long)`: the digits of the decimal string; a minus sign becomes -3. */
  function ToDigitsOfLong(value: int): (ds: seq<int>)
    ensures |ds| == |Text.IntToString(value)|
  {
    ToDigits(Text.IntToString(value))
  }

  /** The base-ten value of a digit sequence, most significant digit first. */
  function Horner(ds: seq<int>): int
  {
    if |ds| == 0 then 0 else 10 * Horner(ds[..|ds| - 1]) + ds[|ds| - 1]
  }

  /** Reading a string of digits as digits and valuing them agrees with reading it as a number. */
  lemma {:induction false} HornerOfDigits(s: string)
    requires forall i :: 0 <= i < |s| ==> Text.IsDigit(s[i])
    ensures Horner(ToDigits(s)) == Text.DigitsValue(s)
  {
    if |s| > 0 {
      var p := s[..|s| - 1];
      assert ToDigits(s)[..|s| - 1] == ToDigits(p);
      HornerOfDigits(p);
    }
  }

  /** Where `fromDigits(array, offset, length)` stops as written: one short of the array's end. */
  function EndAsWritten(n: nat, offset: int, length: int): int
  {
    Min(offset + length, n - 1)
  }

  /** Where it evidently means to stop: at the end of the requested span or of the array. */
  function End(n: nat, offset: int, length: int): int
  {
    Min(offset + length, n)
  }

  /**
   * The loop of `fromDigits(array, offset, length)` up to a given bound:
   * multiply by ten and add the next digit for every index from `offset`
   * below `end`. A negative offset that the loop would read throws.
   */
  method Accumulate(digits: seq<int>, offset: int, end: int) returns (r: Result<int>)
    requires end <= |digits|
    ensures offset >= end ==> r == Ok(0)
    ensures offset < end && offset < 0 ==> r == Err(IndexOutOfBounds)
    ensures 0 <= offset < end ==> r == Ok(Horner(digits[offset..end]))
  {
    if offset < end && offset < 0 {
      return Err(IndexOutOfBounds);
    }
    var val := 0;
    var i := offset;
    while i < end
      invariant offset < end ==> 0 <= offset <= i <= end
      invariant offset >= end ==> i == offset && val == 0
      invariant offset < end ==> val == Horner(digits[offset..i])
    {
      assert digits[offset..i + 1][..i - offset] == digits[offset..i];
      val := val * 10;
      val := val + digits[i];
      i := i + 1;
    }
    r := Ok(val);
  }

  /** `fromDigits(array, offset, length)` as written, with the loop bound `i < array.length - 1`. */
  method FromDigitsAsWritten(digits: seq<int>, offset: int, length: int) returns (r: Result<int>)
    ensures 0 <= offset < EndAsWritten(|digits|, offset, length) ==>
              r == Ok(Horner(digits[offset..EndAsWritten(|digits|, offset, length)]))
    ensures offset >= EndAsWritten(|digits|, offset, length) ==> r == Ok(0)
    ensures offset < EndAsWritten(|digits|, offset, length) && offset < 0 ==> r == Err(IndexOutOfBounds)
  {
    r := Accumulate(digits, offset, EndAsWritten(|digits|, offset, length));
  }

  /** `fromDigits` with the bound `i < array.length`: the value of the requested digits. */
  method FromDigits(digits: seq<int>, offset: int, length: int) returns (r: Result<int>)
    ensures 0 <= offset < End(|digits|, offset, length) ==>
              r == Ok(Horner(digits[offset..End(|digits|, offset, length)]))
    ensures offset >= End(|digits|, offset, length) ==> r == Ok(0)
    ensures offset < End(|digits|, offset, length) && offset < 0 ==> r == Err(IndexOutOfBounds)
  {
    r := Accumulate(digits, offset, End(|digits|, offset, length));
  }

  /** `fromDigits(array)` with the corrected bound reads every digit. */
  method FromAllDigits(digits: seq<int>) returns (r: Result<int>)
    ensures r == Ok(Horner(digits))
  {
    r := FromDigits(digits, 0, |digits|);
    assert digits[0..|digits|] == digits;
  }

  /** The corrected `fromDigits` undoes `toDigits` on every non-negative number. */
  method DigitsRoundTrip(n: nat) returns (r: Result<int>)
    ensures r == Ok(n)
  {
    var s := Text.NatToString(n);
    assert Text.IntToString(n) == s;
    r := FromAllDigits(ToDigitsOfLong(n));
    HornerOfDigits(s);
    Text.DigitsValueOfNatToString(n);
  }

  /** As written, the last digit is never read: the digits of 123 come back as 12. */
  method FromDigitsDropsLast() returns (asWritten: Result<int>, corrected: Result<int>)
    ensures asWritten == Ok(12)
    ensures corrected == Ok(123)
  {
    var ds := ToDigitsOfLong(123);
    assert Text.IntToString(123) == "123";
    assert ds == [1, 2, 3];
    asWritten := FromDigitsAsWritten(ds, 0, |ds|);
    assert ds[0..2] == [1, 2];
    assert [1, 2][..1] == [1];
    assert [1][..0] == [];
    assert Horner([1, 2]) == 12;
    corrected := FromDigits(ds, 0, |ds|);
    assert ds[0..3] == ds;
    assert ds[..2] == [1, 2];
    assert Horner(ds) == 123;
  }

  /** n is d times k. */
  ghost predicate Multiple(n: int, d: int, k: int)
  {
    n == d * k
  }

  ghost predicate Divides(d: int, n: int)
  {
    exists k :: Multiple(n, d, k)
  }

  /** The private `gcd(a, b)`: Euclid's algorithm on Java's `%`. */
  function Gcd(a: int, b: int): (g: int)
    ensures a != 0 || b != 0 ==> g != 0
    ensures a >= 0 && b >= 0 ==> g >= 0
    decreases Abs(b)
  {
    if b == 0 then a
    else
      TDivRem(a, b);
      Gcd(b, TRem(a, b))
  }

  /** `greatestCommonDivisor(a, b)`: Euclid's algorithm started as `gcd(min, max)`. */
  function GreatestCommonDivisor(a: int, b: int): (g: int)
    ensures a != 0 || b != 0 ==> g != 0
    ensures a >= 0 && b >= 0 ==> g >= 0
  {
    Gcd(Min(a, b), Max(a, b))
  }

  /** One step of Euclid: a and b have the same common divisors as b and `a % b`. */
  lemma EuclidStep(a: int, b: int, d: int)
    requires b != 0
    ensures Divides(d, a) && Divides(d, b) <==> Divides(d, b) && Divides(d, TRem(a, b))
  {
    TDivRem(a, b);
    SameDivisors(a, b, TDiv(a, b), TRem(a, b), d);
  }

  /** When a = b * q + r, the common divisors of a and b are those of b and r. */
  lemma SameDivisors(a: int, b: int, q: int, r: int, d: int)
    requires a == b * q + r
    ensures Divides(d, a) && Divides(d, b) <==> Divides(d, b) && Divides(d, r)
  {
    if Divides(d, a) && Divides(d, b) {
      var x :| Multiple(a, d, x);
      var y :| Multiple(b, d, y);
      Factor(d, x, y, q);
      assert Multiple(r, d, x - y * q);
    }
    if Divides(d, b) && Divides(d, r) {
      var y :| Multiple(b, d, y);
      var z :| Multiple(r, d, z);
      Factor(d, y * q + z, y, q);
      assert Multiple(a, d, y * q + z);
    }
  }

  lemma Factor(d: int, x: int, y: int, q: int)
    ensures d * x - (d * y) * q == d * (x - y * q)
  {
  }

  /** Euclid's result divides both inputs, and every common divisor of the inputs divides it. */
  lemma {:induction false} GcdDivides(a: int, b: int, d: int)
    ensures Divides(Gcd(a, b), a) && Divides(Gcd(a, b), b)
    ensures Divides(d, a) && Divides(d, b) ==> Divides(d, Gcd(a, b))
    decreases Abs(b)
  {
    if b == 0 {
      assert Multiple(a, a, 1);
      assert Multiple(0, a, 0);
    } else {
      TDivRem(a, b);
      var r := TRem(a, b);
      GcdDivides(b, r, d);
      var g := Gcd(b, r);
      EuclidStep(a, b, g);
      EuclidStep(a, b, d);
    }
  }

  /**
   * For non-negative inputs `greatestCommonDivisor` is a common divisor that
   * every common divisor divides.
   */
  lemma GreatestCommonDivisorIsGreatest(a: nat, b: nat, d: int)
    ensures Divides(GreatestCommonDivisor(a, b), a) && Divides(GreatestCommonDivisor(a, b), b)
    ensures Divides(d, a) && Divides(d, b) ==> Divides(d, GreatestCommonDivisor(a, b))
  {
    if a <= b {
      GcdDivides(a, b, d);
    } else {
      GcdDivides(b, a, d);
    }
  }

  /** With a zero argument `greatestCommonDivisor` returns the other, non-negative one. */
  lemma GreatestCommonDivisorOfZero(a: nat)
    ensures GreatestCommonDivisor(a, 0) == a && GreatestCommonDivisor(0, a) == a
  {
    if a > 0 {
      RemOfZero(a);
      assert Gcd(0, a) == Gcd(a, 0);
    }
  }

  lemma RemOfZero(b: int)
    requires b != 0
    ensures TRem(0, b) == 0
  {
    assert TDiv(0, b) == 0;
  }

  /** `lowestCommonMultiplier(a, b)`: 0 for two zeros, otherwise `|a * b| / gcd` with Java's division. */
  function LowestCommonMultiplier(a: int, b: int): (l: int)
    ensures a == 0 && b == 0 ==> l == 0
  {
    if a == 0 && b == 0 then 0 else TDiv(Abs(a * b), GreatestCommonDivisor(a, b))
  }

  /** For non-negative inputs the result is a non-negative common multiple of both. */
  lemma LowestCommonMultiplierIsCommon(a: nat, b: nat)
    ensures LowestCommonMultiplier(a, b) >= 0
    ensures Divides(a, LowestCommonMultiplier(a, b)) && Divides(b, LowestCommonMultiplier(a, b))
  {
    if a == 0 && b == 0 {
      assert Multiple(0, 0, 0);
    } else {
      var g := GreatestCommonDivisor(a, b);
      GreatestCommonDivisorIsGreatest(a, b, g);
      var x :| Multiple(a, g, x);
      var y :| Multiple(b, g, y);
      var l := x * b;
      QuotientOfMultiple(a, b, g, x, y);
      assert LowestCommonMultiplier(a, b) == l;
      assert Multiple(l, b, x);
      assert Multiple(l, a, y);
    }
  }

  /**
   * For non-negative inputs the result is the least common multiple: it
   * divides every common multiple of both.
   */
  lemma LowestCommonMultiplierIsLeast(a: nat, b: nat, m: int)
    ensures Divides(a, m) && Divides(b, m) ==> Divides(LowestCommonMultiplier(a, b), m)
  {
    var l := LowestCommonMultiplier(a, b);
    if Divides(a, m) && Divides(b, m) {
      if m == 0 {
        assert Multiple(0, l, 0);
      } else if m > 0 {
        LeastOfPositive(a, b, m);
      } else {
        var s :| Multiple(m, a, s);
        var t :| Multiple(m, b, t);
        assert Multiple(-m, a, -s);
        assert Multiple(-m, b, -t);
        LeastOfPositive(a, b, -m);
        var z :| Multiple(-m, l, z);
        assert Multiple(m, l, -z);
      }
    }
  }

  /**
   * A positive common multiple m: a * b divides m * a and m * b, hence their
   * greatest common divisor m * g, so l = a * b / g divides m.
   */
  lemma LeastOfPositive(a: nat, b: nat, m: int)
    requires m > 0 && Divides(a, m) && Divides(b, m)
    ensures Divides(LowestCommonMultiplier(a, b), m)
  {
    var s :| Multiple(m, a, s);
    var t :| Multiple(m, b, t);
    assert a != 0 && b != 0;
    var g := GreatestCommonDivisor(a, b);
    GcdScale(Min(a, b), Max(a, b), m);
    ScaledMultiple(m, b, t, a);
    ScaledMultiple(m, a, s, b);
    assert Multiple(m * a, a * b, t) && Multiple(m * b, a * b, s);
    GcdDivides(m * Min(a, b), m * Max(a, b), a * b);
    var z :| Multiple(m * g, a * b, z);
    GreatestCommonDivisorIsGreatest(a, b, g);
    var x :| Multiple(a, g, x);
    var y :| Multiple(b, g, y);
    QuotientOfMultiple(a, b, g, x, y);
    var l := x * b;
    assert LowestCommonMultiplier(a, b) == l;
    Regroup(a, b, g, x, m, z);
    CancelFactor(g, m, l * z);
    assert Multiple(m, l, z);
  }

  /** From m = d * t it follows that m * c = (c * d) * t. */
  lemma ScaledMultiple(m: int, d: int, t: int, c: int)
    requires m == d * t
    ensures m * c == (c * d) * t
  {
  }

  /** With a = g * x and m * g = (a * b) * z, g * m = g * ((x * b) * z). */
  lemma Regroup(a: int, b: int, g: int, x: int, m: int, z: int)
    requires a == g * x && m * g == (a * b) * z
    ensures g * m == g * ((x * b) * z)
  {
    assert (a * b) * z == g * ((x * b) * z);
  }

  lemma CancelFactor(g: int, u: int, v: int)
    requires g > 0 && g * u == g * v
    ensures u == v
  {
    if u - v >= 1 {
      MulAtLeast(g, u - v);
    } else if u - v <= -1 {
      MulAtLeast(g, v - u);
    }
  }

  /** Euclid on scaled inputs: gcd(k * a, k * b) = k * gcd(a, b) for naturals. */
  lemma {:induction false} GcdScale(a: nat, b: nat, k: int)
    requires k > 0
    ensures Gcd(k * a, k * b) == k * Gcd(a, b)
    decreases b
  {
    if b == 0 {
      assert k * b == 0;
    } else {
      TDivRem(a, b);
      var r := TRem(a, b);
      RemScale(a, b, k);
      GcdScale(b, r, k);
      assert k * b != 0;
      assert Gcd(k * a, k * b) == Gcd(k * b, TRem(k * a, k * b));
    }
  }

  /** Scaling both operands of a natural remainder scales the remainder. */
  lemma RemScale(a: nat, b: nat, k: int)
    requires b > 0 && k > 0
    ensures TRem(k * a, k * b) == k * TRem(a, b)
  {
    TruncatingAgreesOnNatural(a, b);
    var q, r := a / b, a % b;
    assert k * a == q * (k * b) + k * r by {
      assert a == q * b + r;
      assert k * a == k * (q * b) + k * r;
    }
    assert 0 <= k * r < k * b by {
      MulAtLeast(k, b - r);
      assert k * (b - r) == k * b - k * r;
    }
    assert k * a >= 0 && k * b > 0;
    TruncatingAgreesOnNatural(k * a, k * b);
    DivModUnique(k * a, k * b, q, k * r);
  }

  /** Dafny's division by a positive number has exactly one quotient and remainder. */
  lemma DivModUnique(n: int, d: int, q: int, r: int)
    requires d > 0 && 0 <= r < d && n == q * d + r
    ensures n / d == q && n % d == r
  {
    var q', r' := n / d, n % d;
    assert (q' - q) * d == r - r';
    if q' - q >= 1 {
      MulAtLeast(d, q' - q);
    } else if q' - q <= -1 {
      MulAtLeast(d, q - q');
    }
  }

  /** With a = g * x and b = g * y, `|a * b| / g` is x * b, which is also a * y. */
  lemma QuotientOfMultiple(a: nat, b: nat, g: int, x: int, y: int)
    requires g > 0 && a == g * x && b == g * y
    ensures TDiv(Abs(a * b), g) == x * b == a * y
    ensures x * b >= 0
  {
    assert a * b == g * (x * b);
    assert x >= 0 by {
      if x < 0 {
        MulNegative(g, x);
      }
    }
    TruncatingAgreesOnNatural(a * b, g);
    DivCancel(g, x * b);
    assert x * (g * y) == (x * g) * y;
  }

  lemma MulNegative(g: int, x: int)
    requires g > 0 && x < 0
    ensures g * x < 0
  {
  }

  /** Dividing a multiple of g by g gives the factor back. */
  lemma DivCancel(g: int, m: int)
    requires g > 0
    ensures (g * m) / g == m
  {
    var q, r := (g * m) / g, (g * m) % g;
    assert g * m == g * q + r && 0 <= r < g;
    assert g * (m - q) == r;
    if m - q >= 1 {
      MulAtLeast(g, m - q);
    } else if m - q <= -1 {
      MulNegative(g, m - q);
    }
  }
}
