/** The compact form of a 256-bit target: a base-256 exponent in the top byte, a sign bit, a 23-bit mantissa. */
module Compact {
  import opened Common
  import opened Division
  import opened Words
  import opened ArithShift
  import opened Digits

  const SIGN: nat := 0x80_0000
  const EXP: nat := 0x100_0000

  function BitLength(v: nat): nat {
    if v == 0 then 0 else 1 + BitLength(v / 2)
  }

  lemma {:induction false} BitLengthTop(v: nat)
    ensures TopBit(v, BitLength(v))
  {
    if v > 0 {
      BitLengthTop(v / 2);
      Pow2Zero();
    }
  }

  lemma BitLengthIs(v: nat, n: nat)
    requires TopBit(v, n)
    ensures BitLength(v) == n
  {
    hide BitLength, Pow2;
    var m := BitLength(v);
    BitLengthTop(v);
    if m < n {
      Pow2Mono(m, n - 1);
    } else if n < m {
      Pow2Mono(n, m - 1);
    }
  }

  lemma Literals()
    ensures Pow2(8) == 256 && Pow2(15) == 0x8000 && Pow2(23) == SIGN && Pow2(24) == EXP
  {
    assert Pow2(8) == 256;
    assert Pow2(7) == 128;
    Pow2Add(8, 8);
    Pow2Add(8, 7);
    Pow2Add(16, 7);
    Pow2Add(16, 8);
  }

  /** The value a compact number stands for, before it is cut to 256 bits. */
  function Decode(c: nat): nat {
    var size := c / EXP;
    var word := c % SIGN;
    if size <= 3 then Shr(word, 8 * (3 - size)) else Shl(word, 8 * (size - 3))
  }

  /** The mantissa as the flags see it, after the shift for short numbers. */
  function FlagWord(c: nat): nat {
    var size := c / EXP;
    if size <= 3 then Shr(c % SIGN, 8 * (3 - size)) else c % SIGN
  }

  predicate Negative(c: nat) {
    FlagWord(c) != 0 && (c / SIGN) % 2 == 1
  }

  predicate Overflow(c: nat) {
    var size := c / EXP;
    var word := FlagWord(c);
    word != 0 && (size > 34 || (word > 0xff && size > 33) || (word > 0xffff && size > 32))
  }

  lemma {:induction false} Pow256(k: nat)
    ensures Pow2(8 * k) == Power(256, k)
  {
    if k > 0 {
      Pow256(k - 1);
      Pow2Add(8 * (k - 1), 8);
      Literals();
    }
  }

  /** A compact number stands for mantissa * 256^(exponent - 3), rounded down, and is negative exactly if the sign bit is
      set and that is not zero. */
  lemma DecodeFormula(c: nat)
    ensures var e, m := c / 0x100_0000, c % 0x80_0000;
            && Decode(c) == (if e >= 3 then m * Power(256, e - 3) else Quot(m, Power(256, 3 - e)))
            && (Negative(c) <==> (c / 0x80_0000) % 2 == 1 && Decode(c) != 0)
  {
    hide Pow2, Power, Quot;
    var e, m := c / 0x100_0000, c % 0x80_0000;
    if e >= 3 {
      Pow256(e - 3);
      Pow2Positive(8 * (e - 3));
    } else {
      Pow256(3 - e);
    }
    Pow2Zero();
    QuotIs(m, 1, 0);
  }

  lemma Pow2Positive(k: nat)
    ensures Pow2(k) >= 1 && forall m: nat :: m * Pow2(k) == 0 <==> m == 0
  {}

  function Mantissa(x: nat, size: nat): nat {
    if size <= 3 then Shl(x, 8 * (3 - size)) else Shr(x, 8 * (size - 3))
  }

  function Encode(x: nat, negative: bool): nat {
    var size := (BitLength(x) + 7) / 8;
    var m := Mantissa(x, size);
    var (m', size') := if m >= SIGN then (m / 256, size + 1) else (m, size);
    size' * EXP + m' + if negative && m' != 0 then SIGN else 0
  }

  /** What survives encoding. */
  function Round(x: nat): nat {
    Decode(Encode(x, false))
  }

  // The shape of an encoding: the exponent that makes room for the sign bit, and the mantissa it leaves.

  ghost function Exponent(x: nat): nat {
    if x == 0 then 0 else BitLength(x) / 8 + 1
  }

  lemma ExponentBounds(x: nat)
    ensures x < Pow2(8 * Exponent(x))
    ensures x > 0 ==> x < Pow2(8 * Exponent(x) - 1)
    ensures Exponent(x) >= 2 ==> x >= Pow2(8 * Exponent(x) - 9)
  {
    hide Pow2;
    var e, n := Exponent(x), BitLength(x);
    BitLengthTop(x);
    Pow2Zero();
    if x > 0 {
      Pow2Mono(n, 8 * e - 1);
      Pow2Mono(8 * e - 1, 8 * e);
      if e >= 2 {
        Pow2Mono(8 * e - 9, n - 1);
      }
    }
  }

  lemma ExponentIs(x: nat, e: nat)
    requires e >= 2 && Pow2(8 * e - 9) <= x < Pow2(8 * e - 1)
    ensures Exponent(x) == e
  {
    hide Pow2;
    var n := BitLength(x);
    BitLengthTop(x);
    if n <= 8 * e - 9 {
      Pow2Mono(n, 8 * e - 9);
    }
    if n >= 8 * e {
      Pow2Mono(8 * e - 1, n - 1);
    }
  }

  lemma ShiftDown(x: nat, a: nat, b: nat)
    requires b <= a
    ensures Shr(Shl(x, a), b) == Shl(x, a - b)
  {
    hide Pow2;
    Pow2Add(a - b, b);
    assert x * (Pow2(a - b) * Pow2(b)) == (x * Pow2(a - b)) * Pow2(b);
    DivUnique(x * Pow2(a), Pow2(b), x * Pow2(a - b));
  }

  lemma DivDiv(x: nat, a: nat, b: nat)
    requires a >= 1 && b >= 1 && a * b >= 1
    ensures Quot(Quot(x, a), b) == Quot(x, a * b)
  {
    var y := Quot(x, a);
    var z := Quot(y, b);
    var r, t := x - y * a, y - z * b;
    assert 0 <= r < a && 0 <= t < b;
    assert (z * b + t) * a == z * (a * b) + t * a;
    MulStep(t, b, a);
    DivUnique(x, a * b, z);
  }

  lemma ShiftTwice(x: nat, a: nat, b: nat)
    ensures Shr(Shr(x, a), b) == Shr(x, a + b)
  {
    hide Pow2;
    Pow2Add(a, b);
    DivDiv(x, Pow2(a), Pow2(b));
  }

  /** Dropping a byte of the mantissa is encoding with the next exponent. */
  lemma NextExponent(x: nat, size: nat)
    ensures Mantissa(x, size) / 256 == Mantissa(x, size + 1)
  {
    hide Pow2;
    Literals();
    Pow2Zero();
    if size < 3 {
      ShiftDown(x, 8 * (3 - size), 8);
    } else if size == 3 {
      assert x * Pow2(0) == x;
    } else {
      ShiftTwice(x, 8 * (size - 3), 8);
    }
  }

  lemma ScaleBound(x: nat, a: nat, b: nat, s: nat)
    requires x < Pow2(a) && a + s == b
    ensures Shl(x, s) < Pow2(b)
  {
    hide Pow2;
    Pow2Add(a, s);
    MulStep(x, Pow2(a), Pow2(s));
  }

  lemma DropBound(x: nat, a: nat, s: nat)
    ensures x < Pow2(a + s) ==> Shr(x, s) < Pow2(a)
    ensures x >= Pow2(a + s) ==> Shr(x, s) >= Pow2(a)
  {
    hide Pow2;
    Pow2Add(a, s);
    var q := Shr(x, s);
    assert x == q * Pow2(s) + x % Pow2(s);
    if q >= Pow2(a) {
      MulLe(Pow2(a), q, Pow2(s));
    } else {
      MulStep(q, Pow2(a), Pow2(s));
    }
  }

  lemma MantissaBound(x: nat, size: nat, k: nat)
    requires k <= 8 && 8 * size >= k && x < Pow2(8 * size - k)
    ensures Mantissa(x, size) < Pow2(24 - k)
  {
    hide Pow2;
    if size <= 3 {
      ScaleBound(x, 8 * size - k, 24 - k, 8 * (3 - size));
    } else {
      DropBound(x, 24 - k, 8 * (size - 3));
    }
  }

  lemma MantissaTop(x: nat, size: nat)
    requires size >= 1 && x >= Pow2(8 * size - 1)
    ensures Mantissa(x, size) >= Pow2(23)
  {
    hide Pow2;
    if size <= 3 {
      Pow2Add(8 * size - 1, 8 * (3 - size));
      MulLe(Pow2(8 * size - 1), x, Pow2(8 * (3 - size)));
    } else {
      DropBound(x, 23, 8 * (size - 3));
    }
  }

  lemma MantissaZero(size: nat)
    ensures Mantissa(0, size) == 0
  {
    if size > 3 {
      DivUnique(0, Pow2(8 * (size - 3)), 0);
    }
  }

  lemma EncodeShape(x: nat)
    ensures Mantissa(x, Exponent(x)) < SIGN
    ensures Encode(x, false) == Exponent(x) * EXP + Mantissa(x, Exponent(x))
    ensures Encode(x, true) == Encode(x, false) + if Mantissa(x, Exponent(x)) != 0 then SIGN else 0
  {
    hide Pow2, Mantissa;
    var n := BitLength(x);
    var size := (n + 7) / 8;
    Literals();
    BitLengthTop(x);
    if x == 0 {
      MantissaZero(0);
    } else {
      ExponentBounds(x);
      MantissaBound(x, Exponent(x), 1);
      if n % 8 == 0 {
        MantissaTop(x, size);
        NextExponent(x, size);
      }
    }
  }

  ghost function Unit(e: nat): (u: nat)
    ensures u >= 1
  {
    if e <= 3 then 1 else Pow2(8 * (e - 3))
  }

  lemma DecodeShape(e: nat, m: nat)
    requires m < SIGN
    ensures (e * EXP + m) / EXP == e && (e * EXP + m) % SIGN == m && ((e * EXP + m) / SIGN) % 2 == 0
  {
  }

  /** Rounding keeps the leading bits: the largest multiple of the unit that does not exceed the number. */
  lemma RoundExact(x: nat)
    ensures Round(x) == Floor(x, Unit(Exponent(x)))
    ensures !Negative(Encode(x, false))
  {
    hide Pow2;
    var e := Exponent(x);
    var m := Mantissa(x, e);
    EncodeShape(x);
    DecodeShape(e, m);
    if e <= 3 {
      ShiftDown(x, 8 * (3 - e), 8 * (3 - e));
      Pow2Zero();
      assert x / 1 * 1 == x;
    }
  }

  /** The largest multiple of u that does not exceed x. */
  ghost function Floor(x: nat, u: nat): nat
    requires u >= 1
  {
    Times(Quot(x, u), u)
  }

  lemma FloorBounds(x: nat, u: nat)
    requires u >= 1
    ensures Floor(x, u) <= x < Floor(x, u) + u
  {
    assert x == x / u * u + x % u;
  }

  lemma FloorAbove(x: nat, u: nat, k: nat)
    requires u >= 1 && k * u <= x
    ensures k * u <= Floor(x, u)
  {
    FloorBounds(x, u);
    if x / u < k {
      MulStep(x / u, k, u);
    }
  }

  lemma FloorMono(x: nat, y: nat, u: nat)
    requires u >= 1 && x <= y
    ensures Floor(x, u) <= Floor(y, u)
  {
    FloorBounds(x, u);
    FloorAbove(y, u, x / u);
  }

  /** decode(encode(x)) never exceeds x and is less than one unit below it. */
  lemma RoundBelow(x: nat)
    ensures Round(x) <= x < Round(x) + Unit(Exponent(x))
  {
    hide Unit, Exponent, Round;
    RoundExact(x);
    FloorBounds(x, Unit(Exponent(x)));
  }

  lemma RoundFloor(x: nat)
    requires Exponent(x) >= 2
    ensures Round(x) >= Pow2(8 * Exponent(x) - 9)
  {
    hide Pow2, Exponent, Round;
    var e := Exponent(x);
    RoundExact(x);
    ExponentBounds(x);
    if e > 3 {
      Pow2Add(15 + 8 * (e - 4), 8 * (e - 3));
      assert 15 + 8 * (e - 4) + 8 * (e - 3) >= 8 * e - 9;
      TopMultiple(e);
      FloorAbove(x, Unit(e), Pow2(15));
    } else {
      assert x / 1 * 1 == x;
    }
  }

  lemma RoundPositive(x: nat)
    ensures Round(x) == 0 <==> x == 0
  {
    hide Pow2, Exponent, Round, Unit;
    RoundBelow(x);
    ExponentPositive(x, x);
    if x > 0 {
      if Exponent(x) >= 2 {
        RoundFloor(x);
        Pow2Positive(8 * Exponent(x) - 9);
      } else {
        assert Unit(1) == 1 by { UnitOne(); }
      }
    }
  }

  lemma UnitOne()
    ensures Unit(1) == 1
  {}

  lemma SignedShape(e: nat, m: nat)
    requires m < SIGN
    ensures var c := e * EXP + m + SIGN; c / EXP == e && c % SIGN == m && (c / SIGN) % 2 == 1
  {}

  /** The sign is a flag of its own: it never changes the value, and a zero is never negative. */
  lemma EncodeSign(x: nat, negative: bool)
    ensures Decode(Encode(x, negative)) == Round(x)
    ensures Negative(Encode(x, negative)) <==> negative && x != 0
  {
    hide Pow2, Exponent, Mantissa, Encode, Decode, Negative;
    var e := Exponent(x);
    var m := Mantissa(x, e);
    EncodeShape(x);
    RoundExact(x);
    RoundPositive(x);
    SameValue(e, m);
  }

  lemma SameValue(e: nat, m: nat)
    requires m < SIGN
    ensures var c := e * EXP + m; Decode(c + SIGN) == Decode(c) && (Negative(c + SIGN) <==> Decode(c) != 0)
    ensures m == 0 ==> Decode(e * EXP + m) == 0
  {
    hide Pow2, Power, Quot, Decode, Negative;
    var c := e * EXP + m;
    DecodeShape(e, m);
    SignedShape(e, m);
    DecodeFormula(c);
    DecodeFormula(c + SIGN);
    if m == 0 && e < 3 {
      Pow256(3 - e);
      Pow2Positive(8 * (3 - e));
      QuotIs(0, Power(256, 3 - e), 0);
    }
  }

  lemma TopMultiple(e: nat)
    requires e > 3
    ensures Pow2(8 * e - 9) == Pow2(15) * Unit(e)
  {
    hide Pow2;
    Pow2Add(15, 8 * (e - 3));
  }

  /** Rounding is monotone. */
  lemma RoundMonotone(x: nat, y: nat)
    requires x <= y
    ensures Round(x) <= Round(y)
  {
    hide Pow2, Exponent, Round, Unit, Floor;
    var e, f := Exponent(x), Exponent(y);
    RoundBelow(x);
    ExponentOrder(x, y);
    if e == f {
      RoundExact(x);
      RoundExact(y);
      FloorMono(x, y, Unit(e));
    } else if x > 0 {
      ExponentPositive(x, y);
      RoundFloor(y);
      ExponentBounds(x);
      Pow2Mono(8 * e - 1, 8 * f - 9);
    }
  }

  lemma ExponentOrder(x: nat, y: nat)
    requires x <= y
    ensures Exponent(x) <= Exponent(y)
  {
    BitLengthTop(x);
    BitLengthTop(y);
    var n, m := BitLength(x), BitLength(y);
    if m < n {
      Pow2Mono(m, n - 1);
    }
  }

  lemma ExponentPositive(x: nat, y: nat)
    ensures x > 0 <==> Exponent(x) >= 1
    ensures x > 0 && Exponent(y) > Exponent(x) ==> Exponent(y) >= 2
  {
  }

  lemma SmallExact(x: nat)
    requires Exponent(x) <= 3
    ensures Round(x) == x
  {
    hide Exponent;
    RoundExact(x);
    assert x / 1 * 1 == x;
  }

  lemma SameMantissa(x: nat, e: nat)
    requires e >= 4
    ensures Mantissa(Floor(x, Unit(e)), e) == Mantissa(x, e)
  {
    hide Pow2;
    DivUnique(Floor(x, Unit(e)), Unit(e), x / Unit(e));
  }

  /** Encoding what survived an encoding gives the same compact number. */
  lemma EncodeStable(x: nat)
    ensures Encode(Round(x), false) == Encode(x, false)
  {
    hide Pow2, Exponent, Round, Unit, Encode;
    var e := Exponent(x);
    if e <= 3 {
      SmallExact(x);
    } else {
      RoundExact(x);
      RoundBelow(x);
      ExponentBounds(x);
      ExponentPositive(x, x);
      RoundFloor(x);
      ExponentIs(Round(x), e);
      EncodeShape(x);
      EncodeShape(Round(x));
      SameMantissa(x, e);
    }
  }

  /** Rounding is idempotent. */
  lemma RoundTwice(x: nat)
    ensures Round(Round(x)) == Round(x)
  {
    hide Encode, Decode;
    EncodeStable(x);
  }

  lemma ExponentAtMost(x: nat, e: nat)
    requires e >= 1 && x < Pow2(8 * e - 1)
    ensures Exponent(x) <= e
  {
    hide Pow2;
    ExponentBounds(x);
    if Exponent(x) > e {
      Pow2Mono(8 * e - 1, 8 * Exponent(x) - 9);
    }
  }

  lemma MultipleKept(word: nat, s: nat, e: nat)
    requires e <= s + 3
    ensures Floor(Shl(word, 8 * s), Unit(e)) == Shl(word, 8 * s)
  {
    hide Pow2;
    var u, x := Unit(e), Shl(word, 8 * s);
    if e <= 3 {
      assert x / 1 * 1 == x;
    } else {
      var k := 8 * (s + 3 - e);
      Pow2Add(k, 8 * (e - 3));
      assert word * (Pow2(k) * u) == (word * Pow2(k)) * u;
      QuotIs(word * Pow2(k), u, 0);
    }
  }

  /** Rounding leaves every decoded value as it is. */
  lemma DecodeExact(c: nat)
    ensures Round(Decode(c)) == Decode(c)
  {
    hide Pow2, Shl, Shr, Round, Exponent, Unit, Floor;
    var size, word := c / EXP, c % SIGN;
    Literals();
    if size <= 3 {
      ShrAtMost(word, 8 * (3 - size));
      ExponentAtMost(Decode(c), 3);
      SmallExact(Decode(c));
    } else {
      ScaleBound(word, 23, 23 + 8 * (size - 3), 8 * (size - 3));
      ExponentAtMost(Decode(c), size);
      RoundExact(Decode(c));
      MultipleKept(word, size - 3, Exponent(Decode(c)));
    }
  }

  lemma ShrAtMost(w: nat, s: nat)
    ensures Shr(w, s) <= w
  {
    QuotSmaller(w, Pow2(s));
  }

  /** The overflow flag is set exactly when the value does not fit in 256 bits. */
  lemma OverflowExact(c: nat)
    ensures Overflow(c) <==> Decode(c) >= Pow2(256)
  {
    hide Pow2;
    var size, word := c / EXP, c % SIGN;
    Literals();
    if size <= 3 {
      QuotSmaller(word, Pow2(8 * (3 - size)));
      Pow2Mono(23, 256);
    } else if size <= 32 {
      ScaleBound(word, 23, 23 + 8 * (size - 3), 8 * (size - 3));
      Pow2Mono(23 + 8 * (size - 3), 256);
    } else if size <= 34 {
      var s := 8 * (size - 3);
      Pow2Add(8, 8);
      Pow2Add(256 - s, s);
      if word >= Pow2(256 - s) {
        MulLe(Pow2(256 - s), word, Pow2(s));
      } else {
        MulStep(word, Pow2(256 - s), Pow2(s));
      }
    } else {
      Pow2Mono(256, 8 * (size - 3));
      if word > 0 {
        MulLe(1, word, Pow2(8 * (size - 3)));
      } else {
        assert word * Pow2(8 * (size - 3)) == 0;
      }
    }
  }

  lemma QuotSmaller(w: nat, d: nat)
    requires d >= 1
    ensures Quot(w, d) <= w
  {
    FloorBounds(w, d);
    MulLe(1, d, Quot(w, d));
  }

  /** Encoding a 256-bit number sets neither flag, and decoding gives the rounded number. */
  lemma EncodeClean(x: nat)
    requires x < Pow2(256)
    ensures !Negative(Encode(x, false)) && !Overflow(Encode(x, false))
    ensures Decode(Encode(x, false)) == Round(x) <= x
  {
    hide Encode, Decode, Overflow, Negative;
    RoundExact(x);
    RoundBelow(x);
    OverflowExact(Encode(x, false));
  }
}
