/**
 * Fixed-length bit strings (`BitString`): a Java `long` that holds the bits,
 * bit 0 the least significant, together with a length. The bitwise
 * operations on the `long` are written arithmetically on unbounded
 * integers; bit i of a negative value is read in two's complement, as Java
 * reads it. The index masks are `(long) Math.pow(2, i)`, exact only up to
 * i = 62, so every operation asks for a length of at most 63. The length
 * mask `(long) Math.pow(2, length) - 1` is exact only up to length 62: at
 * 63 the cast saturates. `Set`, `Clear` and `Negate` use the intended mask
 * 2^length - 1; `SetAsWritten` and `NegateAsWritten` use the one Java
 * computes.
 */
module BitString {
  import opened Wrappers
  import opened Numeric

  datatype BitString = BitString(value: int, length: nat)

  /** The lengths whose index masks `(long) Math.pow(2, index)` are all exact. */
  predicate Fits(b: BitString)
  {
    b.length <= 63
  }

  /** Bit i of v in two's complement: halve (rounding down) i times, then look at the parity. */
  predicate Bit(v: int, i: nat)
    decreases i
  {
    if i == 0 then v % 2 == 1 else Bit(v / 2, i - 1)
  }

  /** `v & (2^n - 1)`: the low n bits of v, as a non-negative number. */
  function Low(v: int, n: nat): (r: int)
    ensures 0 <= r < Pow2(n)
    decreases n
  {
    if n == 0 then 0 else 2 * Low(v / 2, n - 1) + v % 2
  }

  // ---------------------------------------------------------------- bit arithmetic

  lemma {:induction false} ZeroBits(i: nat)
    ensures !Bit(0, i)
  {
    if i > 0 {
      ZeroBits(i - 1);
    }
  }

  /** Masking keeps exactly the bits below n. */
  lemma {:induction false} LowBits(v: int, n: nat, j: nat)
    ensures Bit(Low(v, n), j) <==> j < n && Bit(v, j)
    decreases n
  {
    if n == 0 {
      ZeroBits(j);
    } else if j > 0 {
      assert Low(v, n) / 2 == Low(v / 2, n - 1);
      LowBits(v / 2, n - 1, j - 1);
    }
  }

  /** A value that already fits in n bits is its own mask. */
  lemma {:induction false} LowOfSmall(v: int, n: nat)
    requires 0 <= v < Pow2(n)
    ensures Low(v, n) == v
  {
    if n > 0 {
      LowOfSmall(v / 2, n - 1);
    }
  }

  /** n+1 bits are n bits plus the top one. */
  lemma {:induction false} LowTop(v: int, n: nat)
    ensures Low(v, n + 1) == Low(v, n) + (if Bit(v, n) then Pow2(n) else 0)
    decreases n
  {
    if n > 0 {
      LowTop(v / 2, n - 1);
    }
  }

  /** `~v` is `-v - 1`, and it flips every bit. */
  lemma {:induction false} ComplementBits(v: int, j: nat)
    ensures Bit(-v - 1, j) <==> !Bit(v, j)
    decreases j
  {
    if j > 0 {
      assert (-v - 1) / 2 == -(v / 2) - 1;
      ComplementBits(v / 2, j - 1);
    }
  }

  /** Adding 2^i to a value whose bit i is clear sets that bit and no other. */
  lemma {:induction false} AddBit(v: int, i: nat, j: nat)
    requires !Bit(v, i)
    ensures Bit(v + Pow2(i), j) <==> j == i || Bit(v, j)
    decreases i
  {
    if i == 0 {
      if j > 0 {
        assert (v + 1) / 2 == v / 2;
      }
    } else if j > 0 {
      assert (v + Pow2(i)) / 2 == v / 2 + Pow2(i - 1);
      AddBit(v / 2, i - 1, j - 1);
    }
  }

  /** Subtracting 2^i from a value whose bit i is set clears that bit and no other. */
  lemma {:induction false} SubBit(v: int, i: nat, j: nat)
    requires Bit(v, i)
    ensures Bit(v - Pow2(i), j) <==> j != i && Bit(v, j)
    decreases i
  {
    if i == 0 {
      if j > 0 {
        assert (v - 1) / 2 == v / 2;
      }
    } else if j > 0 {
      assert (v - Pow2(i)) / 2 == v / 2 - Pow2(i - 1);
      SubBit(v / 2, i - 1, j - 1);
    }
  }

  /** Two n-bit values with the same n bits are equal. */
  lemma {:induction false} BitsDetermine(a: int, c: int, n: nat)
    requires 0 <= a < Pow2(n) && 0 <= c < Pow2(n)
    requires forall j :: 0 <= j < n ==> (Bit(a, j) <==> Bit(c, j))
    ensures a == c
  {
    if n > 0 {
      forall j | 0 <= j < n - 1
        ensures Bit(a / 2, j) <==> Bit(c / 2, j)
      {
        assert Bit(a, j + 1) <==> Bit(c, j + 1);
      }
      BitsDetermine(a / 2, c / 2, n - 1);
      assert Bit(a, 0) <==> Bit(c, 0);
    }
  }

  // ---------------------------------------------------------------- the operations

  /** `new BitString(n)`: n bits, all clear. */
  function New(n: nat): (b: BitString)
    ensures b.length == n
    ensures forall i: nat :: !Bit(b.value, i)
  {
    forall i: nat ensures !Bit(0, i) {
      ZeroBits(i);
    }
    BitString(0, n)
  }

  /** `get(index)`: an index outside [0, length) throws IndexOutOfBoundsException. */
  function Get(b: BitString, index: int): (r: Result<bool>)
    requires Fits(b)
    ensures r.Err? <==> !(0 <= index < b.length)
    ensures r.Err? ==> r.error == IndexOutOfBounds
    ensures r.Ok? ==> (r.value <==> Bit(b.value, index))
  {
    if index < 0 || index >= b.length then Err(IndexOutOfBounds)
    else Ok(Bit(b.value, index))
  }

  /**
   * `set(index, value)`: hand back the previous bit. Setting ORs in the
   * mask 2^index; clearing ANDs with `~mask & LENGTH_MASK`, which also
   * drops every bit at or above the length.
   */
  function Set(b: BitString, index: int, x: bool): (r: Result<(BitString, bool)>)
    requires Fits(b)
    ensures r.Err? <==> !(0 <= index < b.length)
    ensures r.Err? ==> r.error == IndexOutOfBounds
    ensures r.Ok? ==> r.value.0.length == b.length && Get(b, index) == Ok(r.value.1)
  {
    if index < 0 || index >= b.length then Err(IndexOutOfBounds)
    else
      var was := Bit(b.value, index);
      var v := if x then (if was then b.value else b.value + Pow2(index))
               else Low(if was then b.value - Pow2(index) else b.value, b.length);
      Ok((BitString(v, b.length), was))
  }

  /** `set(index)`: set the bit to one. */
  function SetOne(b: BitString, index: int): (r: Result<(BitString, bool)>)
    requires Fits(b)
    ensures r.Err? <==> !(0 <= index < b.length)
    ensures r.Ok? ==> r.value.0.length == b.length && Get(b, index) == Ok(r.value.1)
    ensures r.Ok? ==> Get(r.value.0, index) == Ok(true)
  {
    if 0 <= index < b.length then
      SetThenGet(b, index, true, index);
      Set(b, index, true)
    else Err(IndexOutOfBounds)
  }

  /** `clear(index)`: set the bit to zero. */
  function Clear(b: BitString, index: int): (r: Result<(BitString, bool)>)
    requires Fits(b)
    ensures r.Err? <==> !(0 <= index < b.length)
    ensures r.Ok? ==> r.value.0.length == b.length && Get(b, index) == Ok(r.value.1)
    ensures r.Ok? ==> Get(r.value.0, index) == Ok(false)
  {
    if 0 <= index < b.length then
      SetThenGet(b, index, false, index);
      Set(b, index, false)
    else Err(IndexOutOfBounds)
  }

  /** After a set the bit reads as written, and every other bit in range reads as before. */
  lemma SetThenGet(b: BitString, index: int, x: bool, j: int)
    requires Fits(b) && 0 <= index < b.length
    ensures Get(Set(b, index, x).value.0, index) == Ok(x)
    ensures j != index ==> Get(Set(b, index, x).value.0, j) == Get(b, j)
  {
    var v := b.value;
    var was := Bit(v, index);
    var w := Set(b, index, x).value.0.value;
    if x {
      if !was {
        AddBit(v, index, index);
        if 0 <= j {
          AddBit(v, index, j);
        }
      }
    } else {
      var u := if was then v - Pow2(index) else v;
      if was {
        SubBit(v, index, index);
        if 0 <= j {
          SubBit(v, index, j);
        }
      }
      LowBits(u, b.length, index);
      if 0 <= j {
        LowBits(u, b.length, j);
      }
    }
  }

  /** Clearing a bit also truncates the stored value to the length. */
  lemma ClearTruncates(b: BitString, index: int)
    requires Fits(b) && 0 <= index < b.length
    ensures 0 <= Clear(b, index).value.0.value < Pow2(b.length)
  {
  }

  /** `negate()`: `~value & LENGTH_MASK`. */
  function Negate(b: BitString): (r: BitString)
    requires Fits(b)
    ensures r.length == b.length && 0 <= r.value < Pow2(b.length)
  {
    BitString(Low(-b.value - 1, b.length), b.length)
  }

  /** Negation flips every bit in range. */
  lemma NegateFlips(b: BitString, j: int)
    requires Fits(b) && 0 <= j < b.length
    ensures Get(Negate(b), j) == Ok(!Get(b, j).value)
  {
    LowBits(-b.value - 1, b.length, j);
    ComplementBits(b.value, j);
  }

  /** Negating twice restores every bit in range, and the whole string exactly when its value fits the length. */
  lemma NegateTwice(b: BitString)
    requires Fits(b)
    ensures forall j :: 0 <= j < b.length ==> Get(Negate(Negate(b)), j) == Get(b, j)
    ensures Negate(Negate(b)) == b <==> 0 <= b.value < Pow2(b.length)
  {
    forall j | 0 <= j < b.length
      ensures Get(Negate(Negate(b)), j) == Get(b, j)
    {
      NegateFlips(b, j);
      NegateFlips(Negate(b), j);
    }
    if 0 <= b.value < Pow2(b.length) {
      var n := b.length;
      forall j | 0 <= j < n
        ensures Bit(Negate(Negate(b)).value, j) <==> Bit(b.value, j)
      {
        assert Get(Negate(Negate(b)), j) == Get(b, j);
      }
      BitsDetermine(Negate(Negate(b)).value, b.value, n);
    }
  }

  // ---------------------------------------------------------------- the saturated mask

  /** Every bit of -1 is set in two's complement. */
  lemma {:induction false} MinusOneBits(j: nat)
    ensures Bit(-1, j)
    decreases j
  {
    if j > 0 {
      assert -1 / 2 == -1;
      MinusOneBits(j - 1);
    }
  }

  /** 2^n - 1 has exactly the bits below n. */
  lemma OnesBits(n: nat, j: nat)
    ensures Bit(Pow2(n) - 1, j) <==> j < n
  {
    LowOfMinusOne(n);
    LowBits(-1, n, j);
    MinusOneBits(j);
  }

  lemma {:induction false} LowOfMinusOne(n: nat)
    ensures Low(-1, n) == Pow2(n) - 1
  {
    if n > 0 {
      LowOfMinusOne(n - 1);
    }
  }

  /**
   * `LENGTH_MASK = (long) Math.pow(2, length) - 1` as Java computes it. The
   * power of two is exact as a double, but the cast to `long` saturates at
   * 2^63 - 1, so from length 63 on the mask is 2^63 - 2: bits 1 to 62 set,
   * bit 0 clear.
   */
  function LengthMaskAsWritten(n: nat): (m: int)
    ensures 0 <= m
    ensures forall j: nat :: Bit(m, j) <==> if n <= 62 then j < n else 1 <= j < 63
  {
    var m := if n <= 62 then Pow2(n) - 1 else 2 * (Pow2(62) - 1);
    forall j: nat ensures Bit(m, j) <==> if n <= 62 then j < n else 1 <= j < 63 {
      if n <= 62 {
        OnesBits(n, j);
      } else {
        Halve(Pow2(62) - 1);
        if j > 0 {
          OnesBits(62, j - 1);
        }
      }
    }
    m
  }

  /** Halving an even number gives its half back, with nothing left over. */
  lemma Halve(x: int)
    ensures (2 * x) / 2 == x && (2 * x) % 2 == 0
  {
  }

  /** `v & LENGTH_MASK` with the mask as written: the bits of v that the mask has. */
  function MaskAsWritten(v: int, n: nat): (r: int)
    ensures 0 <= r
    ensures forall j: nat :: Bit(r, j) <==> Bit(v, j) && Bit(LengthMaskAsWritten(n), j)
  {
    var r := if n <= 62 then Low(v, n) else 2 * Low(v / 2, 62);
    forall j: nat ensures Bit(r, j) <==> Bit(v, j) && Bit(LengthMaskAsWritten(n), j) {
      if n <= 62 {
        LowBits(v, n, j);
      } else if j > 0 {
        Halve(Low(v / 2, 62));
        LowBits(v / 2, 62, j - 1);
      } else {
        Halve(Low(v / 2, 62));
      }
    }
    r
  }

  /**
   * `set(index, value)` with the mask as written, for lengths up to 63
   * (where every index mask `(long) Math.pow(2, index)` is still exact).
   * Clearing ANDs with `~2^index & LENGTH_MASK`.
   */
  function SetAsWritten(b: BitString, index: int, x: bool): (r: Result<(BitString, bool)>)
    requires b.length <= 63
    ensures r.Err? <==> !(0 <= index < b.length)
    ensures r.Err? ==> r.error == IndexOutOfBounds
    ensures r.Ok? ==> r.value.0.length == b.length && r.value.1 == Bit(b.value, index)
  {
    if index < 0 || index >= b.length then Err(IndexOutOfBounds)
    else
      var was := Bit(b.value, index);
      var v := if x then (if was then b.value else b.value + Pow2(index))
               else MaskAsWritten(if was then b.value - Pow2(index) else b.value, b.length);
      Ok((BitString(v, b.length), was))
  }

  /** `negate()` with the mask as written: `~value & LENGTH_MASK`. */
  function NegateAsWritten(b: BitString): (r: BitString)
    ensures r.length == b.length
    ensures forall j: nat :: Bit(r.value, j) <==> !Bit(b.value, j) && Bit(LengthMaskAsWritten(b.length), j)
  {
    forall j: nat ensures Bit(-b.value - 1, j) <==> !Bit(b.value, j) {
      ComplementBits(b.value, j);
    }
    BitString(MaskAsWritten(-b.value - 1, b.length), b.length)
  }

  /** Up to length 62 the mask as written is the intended 2^n - 1, so set and negate agree with `Set` and `Negate`. */
  lemma AsWrittenAgrees(b: BitString, index: int, x: bool)
    requires b.length <= 62
    ensures SetAsWritten(b, index, x) == Set(b, index, x)
    ensures NegateAsWritten(b) == Negate(b)
  {
  }

  /**
   * At length 63 clearing any bit, and negating, also clear bit 0: the
   * saturated mask lacks it. The intended mask 2^63 - 1 keeps bit 0 as it is.
   */
  lemma LengthSixtyThreeDropsBitZero(b: BitString, index: int)
    requires b.length == 63 && 0 <= index < 63
    ensures SetAsWritten(b, index, false).Ok? && !Bit(SetAsWritten(b, index, false).value.0.value, 0)
    ensures !Bit(NegateAsWritten(b).value, 0)
    ensures Bit(Low(b.value, b.length), 0) <==> Bit(b.value, 0)
  {
    var u := if Bit(b.value, index) then b.value - Pow2(index) else b.value;
    assert SetAsWritten(b, index, false).value.0.value == MaskAsWritten(u, 63);
    SaturatedMaskDropsBitZero(u);
    SaturatedMaskDropsBitZero(-b.value - 1);
    LowBits(b.value, b.length, 0);
  }

  /** ANDing with the length-63 mask as written clears bit 0 of any value. */
  lemma SaturatedMaskDropsBitZero(v: int)
    ensures !Bit(MaskAsWritten(v, 63), 0)
  {
    assert !Bit(LengthMaskAsWritten(63), 0);
  }

  /**
   * `fromLong(1, 63).clear(5)` leaves the value 0, though bit 0 was set and
   * bit 5 was not; `Clear` with the intended mask leaves 1.
   */
  lemma ClearAsWrittenCounterexample()
    ensures Bit(FromLong(1, 63).value, 0) && !Bit(FromLong(1, 63).value, 5)
    ensures SetAsWritten(FromLong(1, 63), 5, false) == Ok((BitString(0, 63), false))
    ensures Clear(FromLong(1, 63), 5) == Ok((BitString(1, 63), false))
  {
    var b := FromLong(1, 63);
    assert !Bit(1, 5) by {
      assert 1 / 2 == 0;
      ZeroBits(4);
    }
    var r := SetAsWritten(b, 5, false).value.0.value;
    assert r == 2 * Low(0, 62);
    LowOfSmall(0, 62);
    OneIsSmall();
  }

  lemma OneIsSmall()
    ensures Low(1, 63) == 1
  {
    Pow2Mono(1, 63);
    LowOfSmall(1, 63);
  }

  /** `iterator()` and `stream()`: the bits from index 0 upwards. */
  function Bits(b: BitString): (r: seq<bool>)
    requires Fits(b)
    ensures |r| == b.length
    ensures forall i :: 0 <= i < |r| ==> Get(b, i) == Ok(r[i])
  {
    seq(b.length, i requires 0 <= i < b.length => Bit(b.value, i))
  }

  function BitChar(x: bool): char
  {
    if x then '1' else '0'
  }

  /** The `toString` loop over bits 0..n-1, each prepended to the text so far. */
  function Render(v: int, n: nat): (s: string)
    ensures |s| == n
    ensures forall k :: 0 <= k < n ==> s[k] == BitChar(Bit(v, n - 1 - k))
  {
    if n == 0 then "" else [BitChar(Bit(v, n - 1))] + Render(v, n - 1)
  }

  /** `toString()`: length characters, the highest index first. */
  function ToString(b: BitString): (s: string)
    requires Fits(b)
    ensures |s| == b.length
    ensures forall k :: 0 <= k < |s| ==> s[k] == BitChar(Bits(b)[b.length - 1 - k])
  {
    Render(b.value, b.length)
  }

  predicate IsBinary(d: string)
  {
    forall k :: 0 <= k < |d| ==> d[k] == '0' || d[k] == '1'
  }

  /** The value of a string of binary digits, most significant first. */
  function BinaryValue(d: string): (v: nat)
    ensures v < Pow2(|d|)
  {
    if |d| == 0 then 0 else (if d[0] == '1' then Pow2(|d| - 1) else 0) + BinaryValue(d[1..])
  }

  /**
   * `Long.valueOf(str, 2)`: an optional sign and at least one binary digit;
   * anything else, or a value outside the `long` range, throws
   * NumberFormatException.
   */
  function ParseBinary(s: string): (r: Result<int>)
    ensures r.Err? ==> r.error == NumberFormat
    ensures r.Ok? ==> LongMin <= r.value <= LongMax
    ensures IsBinary(s) && 0 < |s| <= 62 ==> r == Ok(BinaryValue(s))
  {
    if |s| == 0 then Err(NumberFormat)
    else
      var digits := if s[0] == '-' || s[0] == '+' then s[1..] else s;
      if |digits| == 0 || !IsBinary(digits) then Err(NumberFormat)
      else
        var m: int := BinaryValue(digits);
        var v := if s[0] == '-' then -m else m;
        if v < LongMin || v > LongMax then
          if |digits| <= 62 then
            Pow2Mono(|digits|, 62);
            Pow2Of62();
            Err(NumberFormat)
          else Err(NumberFormat)
        else Ok(v)
  }

  lemma {:induction false} Pow2Add(a: nat, b: nat)
    ensures Pow2(a + b) == Pow2(a) * Pow2(b)
    decreases b
  {
    if b > 0 {
      Pow2Add(a, b - 1);
      assert Pow2(a + b) == 2 * Pow2(a + b - 1);
    }
  }

  /** The largest exact mask bound: 2^62 lies within the `long` range. */
  lemma Pow2Of62()
    ensures Pow2(62) == 0x4000_0000_0000_0000
  {
    assert Pow2(1) == 2;
    Pow2Add(1, 1);
    assert Pow2(2) == 4;
    Pow2Add(2, 2);
    assert Pow2(4) == 16;
    Pow2Add(4, 4);
    assert Pow2(8) == 256;
    Pow2Add(8, 8);
    assert Pow2(16) == 65536;
    Pow2Add(16, 16);
    assert Pow2(32) == 4294967296;
    Pow2Add(32, 16);
    assert Pow2(48) == 281474976710656;
    Pow2Add(48, 8);
    assert Pow2(56) == 72057594037927936;
    Pow2Add(56, 4);
    assert Pow2(60) == 1152921504606846976;
    Pow2Add(60, 2);
    assert Pow2(62) == 4611686018427387904;
  }

  lemma {:induction false} Pow2Mono(a: nat, c: nat)
    requires a <= c
    ensures Pow2(a) <= Pow2(c)
    decreases c
  {
    if a < c {
      Pow2Mono(a, c - 1);
    }
  }

  /** `fromString(str)`: a string of |str| bits holding the parsed value. */
  function FromString(str: string): (r: Result<BitString>)
    ensures r.Err? <==> ParseBinary(str).Err?
    ensures r.Ok? ==> r.value == BitString(ParseBinary(str).value, |str|)
  {
    match ParseBinary(str)
    case Err(e) => Err(e)
    case Ok(v) => Ok(BitString(v, |str|))
  }

  /** The printed digits read back as the masked value. */
  lemma {:induction false} RenderValue(v: int, n: nat)
    ensures IsBinary(Render(v, n))
    ensures BinaryValue(Render(v, n)) == Low(v, n)
  {
    if n > 0 {
      RenderValue(v, n - 1);
      LowTop(v, n - 1);
      assert Render(v, n)[1..] == Render(v, n - 1);
    }
  }

  /** A non-empty string whose value fits its length survives printing and parsing. */
  lemma FromStringOfToString(b: BitString)
    requires 0 < b.length <= 62 && 0 <= b.value < Pow2(b.length)
    ensures FromString(ToString(b)) == Ok(b)
  {
    RenderValue(b.value, b.length);
    LowOfSmall(b.value, b.length);
  }

  /** Two binary strings of one length with the same value are the same string. */
  lemma {:induction false} BinaryValueInjective(a: string, d: string)
    requires IsBinary(a) && IsBinary(d) && |a| == |d|
    requires BinaryValue(a) == BinaryValue(d)
    ensures a == d
    decreases |a|
  {
    if |a| > 0 {
      assert a[0] == d[0] by {
        var low := Pow2(|a| - 1);
        assert BinaryValue(a[1..]) < low && BinaryValue(d[1..]) < low;
      }
      assert IsBinary(a[1..]) && IsBinary(d[1..]) by {
        assert forall k :: 0 <= k < |a| - 1 ==> a[1..][k] == a[k + 1] && d[1..][k] == d[k + 1];
      }
      BinaryValueInjective(a[1..], d[1..]);
      assert a == [a[0]] + a[1..] && d == [d[0]] + d[1..];
    }
  }

  /** A non-empty string of at most 62 binary digits survives parsing and printing. */
  lemma ToStringOfFromString(str: string)
    requires IsBinary(str) && 0 < |str| <= 62
    ensures FromString(str).Ok?
    ensures ToString(FromString(str).value) == str
  {
    var b := FromString(str).value;
    assert b == BitString(BinaryValue(str), |str|);
    RenderValue(b.value, b.length);
    LowOfSmall(b.value, b.length);
    BinaryValueInjective(Render(b.value, b.length), str);
  }

  /** `fromLong(value, bits)`: the value is stored as given, with no masking. */
  function FromLong(value: int, bits: nat): (b: BitString)
    ensures b.length == bits
  {
    BitString(value, bits)
  }

  /** `toLong()` gives back what `fromLong` stored, and each bit in range is the value's bit. */
  lemma FromLongKeepsValue(value: int, bits: nat, i: int)
    requires bits <= 62 && 0 <= i < bits
    ensures FromLong(value, bits).value == value
    ensures Get(FromLong(value, bits), i) == Ok(Bit(value, i))
  {
  }

  /** `toInt()`: the cast `(int) value`, keeping the low 32 bits as a signed number. */
  function ToInt(b: BitString): (r: int)
    ensures IntMin <= r <= IntMax
    ensures (r - b.value) % 0x1_0000_0000 == 0
  {
    WrapInt(b.value)
  }

  /** A value in the `int` range survives the cast. */
  lemma ToIntOfInt(b: BitString)
    requires IntMin <= b.value <= IntMax
    ensures ToInt(b) == b.value
  {
  }
}
