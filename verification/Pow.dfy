/** Proof-of-work targets: compact targets on word arrays, block proof and difficulty adjustment. */
module Pow {
  import opened Common
  import opened Words
  import opened ArithUint
  import opened ArithShift
  import opened ArithDivide
  import opened Compact

  predicate IsUint256(s: seq<nat>) {
    |s| == 8 && AreWords(s)
  }

  lemma LowWords(s: seq<nat>)
    requires |s| >= 2
    ensures Val(s) == s[0] + B * s[1] + TWO64 * Val(s[2..])
  {
    hide Val;
    ValCons(s, 0);
    ValCons(s, 1);
    assert s[0..] == s;
    assert B * (s[1] + B * Val(s[2..])) == B * s[1] + TWO64 * Val(s[2..]);
  }

  method Assign64(pn: array<nat>, b: nat)
    requires pn.Length >= 2 && b < TWO64
    modifies pn
    ensures AreWords(pn[..]) && Val(pn[..]) == b
  {
    hide Val, Lo, Hi;
    Clear(pn);
    LoHi(b);
    pn[0] := Lo(b);
    pn[1] := Hi(b);
    ValZero(pn[..][2..]);
    LowWords(pn[..]);
  }

  method GetLow64(pn: array<nat>) returns (n: nat)
    requires pn.Length >= 2 && AreWords(pn[..])
    ensures n == Val(pn[..]) % TWO64
  {
    hide Val;
    LowWords(pn[..]);
    Pow2of32();
    OrDisjoint(pn[1], pn[0], 32);
    n := Or(pn[0], pn[1] * B);
    ModIs(Val(pn[..]), TWO64, n, Val(pn[..][2..]));
  }

  method SetCompact(pn: array<nat>, c: nat) returns (negative: bool, overflow: bool)
    requires pn.Length == 8 && c < B
    modifies pn
    ensures IsUint256(pn[..]) && Val(pn[..]) == Decode(c) % Pow2(256)
    ensures negative == Negative(c) && overflow == Overflow(c)
  {
    hide Val, Pow2, P;
    PIsPow2(8);
    Literals();
    var size, word := c / EXP, c % SIGN;
    if size <= 3 {
      QuotSmaller(word, Pow2(8 * (3 - size)));
      word := Shr(word, 8 * (3 - size));
      Pow2Mono(23, 256);
      ModIs(word, Pow2(256), word, 0);
      Assign64(pn, word);
    } else {
      Assign64(pn, word);
      ShiftLeft(pn, 8 * (size - 3));
    }
    negative := word != 0 && (c / SIGN) % 2 == 1;
    overflow := word != 0 && (size > 34 || (word > 0xff && size > 33) || (word > 0xffff && size > 32));
  }

  lemma MantissaIs(x: nat, size: nat)
    ensures size <= 3 ==> Mantissa(x, size) == Shl(x, 8 * (3 - size))
    ensures size > 3 ==> Mantissa(x, size) == x / Pow2(8 * (size - 3))
  {
    hide Pow2;
  }

  lemma Unchanged(n: nat, m: nat)
    requires n < m
    ensures n % m == n
  {
    ModIs(n, m, n, 0);
  }

  /** The mantissa of a number of the given size in bytes. */
  method TopBytes(pn: array<nat>, size: nat) returns (m: nat)
    requires IsUint256(pn[..]) && Val(pn[..]) < Pow2(8 * size)
    ensures m == Mantissa(Val(pn[..]), size) < EXP
  {
    hide Val, Pow2, P, Shl, Shr, Mantissa;
    ghost var x := Val(pn[..]);
    Literals();
    MantissaBound(x, size, 0);
    MantissaIs(x, size);
    if size <= 3 {
      Pow2Mono(8 * size, 24);
      var low := GetLow64(pn);
      Unchanged(x, TWO64);
      m := Shl(low, 8 * (3 - size));
    } else {
      var bn := Copy(pn);
      ShiftRight(bn, 8 * (size - 3));
      m := GetLow64(bn);
      Unchanged(x / Pow2(8 * (size - 3)), TWO64);
    }
    Unchanged(m, B);
    m := m % B;
  }

  lemma SizeBound(x: nat, n: nat)
    requires TopBit(x, n)
    ensures x < Pow2(8 * ((n + 7) / 8))
  {
    hide Pow2;
    Pow2Zero();
    if n > 0 {
      Pow2Mono(n, 8 * ((n + 7) / 8));
    }
  }

  method GetCompact(pn: array<nat>, negative: bool) returns (c: nat)
    requires IsUint256(pn[..])
    ensures c == Encode(Val(pn[..]), negative) < B
  {
    hide Val, Pow2, P, Mantissa, BitLength, TopBit;
    ghost var x := Val(pn[..]);
    var bits := Bits(pn);
    BitLengthIs(x, bits);
    var size := (bits + 7) / 8;
    SizeBound(x, bits);
    var m := TopBytes(pn, size);
    if (m / SIGN) % 2 == 1 {
      m := m / 256;
      size := size + 1;
    }
    assert m < SIGN && size < 256;
    c := Pack(m, size, negative);
  }

  /** Joins mantissa, exponent and sign. */
  method Pack(m: nat, size: nat, negative: bool) returns (c: nat)
    requires m < SIGN && size < 256
    ensures c == size * EXP + m + (if negative && m != 0 then SIGN else 0) < B
  {
    hide Pow2, Or;
    Literals();
    OrDisjoint(size, m, 24);
    OrSign(size, m);
    DecodeShape(size, m);
    c := Or(m, size * EXP);
    c := Or(c, if negative && c % SIGN != 0 then SIGN else 0);
  }

  lemma {:induction false} OrBit(h: nat, l: nat, s: nat)
    requires l < Pow2(s)
    ensures Or(2 * Shl(h, s) + l, Pow2(s)) == 2 * Shl(h, s) + l + Pow2(s)
  {
    hide Or, Pow2, Shl;
    Pow2Zero();
    if s == 0 {
      OrStep(Shl(h, 0), 0, 0, 1);
      OrNone(Shl(h, 0));
    } else {
      ShlNext(h, s - 1);
      Pow2Twice(s - 1);
      OrBit(h, l / 2, s - 1);
      OrStep(2 * Shl(h, s - 1) + l / 2, Pow2(s - 1), l % 2, 0);
    }
  }

  lemma ShlNext(h: nat, s: nat)
    ensures Shl(h, s + 1) == 2 * Shl(h, s)
  {
    Twice(h, s);
  }

  lemma OrNone(x: nat)
    ensures Or(x, 0) == x
  {
  }

  lemma OrSign(size: nat, m: nat)
    requires m < SIGN
    ensures Or(size * EXP + m, SIGN) == size * EXP + m + SIGN
    ensures Or(size * EXP + m, 0) == size * EXP + m
  {
    hide Pow2, Or;
    Literals();
    OrBit(size, m, 23);
    OrNone(size * EXP + m);
  }
}
