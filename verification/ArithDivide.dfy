/** base_uint division: shift and subtract for two full numbers, word by word for a 32-bit divisor. */
module ArithDivide {
  import opened Common
  import opened Division
  import opened Words
  import opened ArithUint
  import opened ArithShift

  method Copy(b: array<nat>) returns (c: array<nat>)
    ensures fresh(c) && c[..] == b[..]
  {
    c := new nat[b.Length];
    var i := 0;
    while i < b.Length
      invariant 0 <= i <= b.Length
      invariant forall j | 0 <= j < i :: c[j] == b[j]
    {
      c[i] := b[i];
      i := i + 1;
    }
  }

  /** The bits of the quotient below the given place are still zero. */
  ghost predicate LowZero(s: seq<nat>, shift: nat) {
    && (forall j | 0 <= j < shift / 32 && j < |s| :: s[j] == 0)
    && (shift / 32 < |s| ==> s[shift / 32] % Pow2(shift % 32 + 1) == 0)
  }

  lemma MultipleOf(w: nat, n: nat)
    requires w % Pow2(n + 1) == 0
    ensures w == (2 * (w / Pow2(n + 1))) * Pow2(n)
  {
    var c := w / Pow2(n + 1);
    assert w == c * Pow2(n + 1);
    Pow2Twice(n);
    assert c * (2 * Pow2(n)) == (2 * c) * Pow2(n);
  }

  lemma OddMultiple(c: nat, n: nat)
    ensures (c * Pow2(n)) % Pow2(n) == 0 && (c * Pow2(n) + Pow2(n)) % Pow2(n) == 0
  {
    ModIs(c * Pow2(n), Pow2(n), 0, c);
    assert (c + 1) * Pow2(n) == c * Pow2(n) + Pow2(n);
    ModIs(c * Pow2(n) + Pow2(n), Pow2(n), 0, c + 1);
  }

  lemma RoomForBit(c: nat, n: nat)
    requires n < 32 && (2 * c) * Pow2(n) < B
    ensures (2 * c) * Pow2(n) + Pow2(n) < B
  {
    hide Pow2;
    Pow2of32();
    Pow2Add(31 - n, n);
    Pow2Twice(31);
    assert Pow2(32) == (2 * Pow2(31 - n)) * Pow2(n);
    if c >= Pow2(31 - n) {
      MulLe(2 * Pow2(31 - n), 2 * c, Pow2(n));
    }
    MulLe(2 * c + 1, 2 * Pow2(31 - n), Pow2(n));
    assert (2 * c + 1) * Pow2(n) == (2 * c) * Pow2(n) + Pow2(n);
    if 2 * c + 1 < 2 * Pow2(31 - n) {
      MulStep(2 * c + 1, 2 * Pow2(31 - n), Pow2(n));
    }
  }

  lemma OrLow(k: nat, n: nat)
    ensures Or((2 * k) * Pow2(n), Pow2(n)) == (2 * k) * Pow2(n) + Pow2(n)
  {
    Pow2Twice(n);
    assert (2 * k) * Pow2(n) == k * Pow2(n + 1);
    OrDisjoint(k, Pow2(n), n + 1);
  }

  /** Sets one bit of the quotient, the highest of those still zero. */
  method SetBit(pn: array<nat>, shift: nat)
    requires AreWords(pn[..]) && shift / 32 < pn.Length && LowZero(pn[..], shift)
    modifies pn
    ensures AreWords(pn[..]) && Val(pn[..]) == old(Val(pn[..])) + Pow2(shift)
    ensures shift >= 1 ==> LowZero(pn[..], shift - 1)
  {
    hide Val, P, Pow2, Or;
    var k, t := shift / 32, shift % 32;
    ghost var was := pn[..];
    ghost var c := was[k] / Pow2(t + 1);
    MultipleOf(was[k], t);
    RoomForBit(c, t);
    OrLow(c, t);
    OddMultiple(2 * c, t);
    pn[k] := Or(pn[k], Pow2(t));
    assert pn[..] == was[k := was[k] + Pow2(t)];
    ValUpdate(was, k, pn[k]);
    Over(was[k], Pow2(t), P(k));
    PIsPow2(k);
    Pow2Add(t, 32 * k);
    if t == 0 && shift >= 1 {
      ZeroMod(Pow2(32));
    }
  }

  lemma ZeroMod(m: nat)
    requires m >= 1
    ensures 0 % m == 0
  {
  }

  /** Leaves one bit of the quotient at zero. */
  lemma SkipBit(s: seq<nat>, shift: nat)
    requires LowZero(s, shift) && shift >= 1
    ensures LowZero(s, shift - 1)
  {
    hide Pow2;
    var k, t := shift / 32, shift % 32;
    if t == 0 {
      ZeroMod(Pow2(32));
    } else if k < |s| {
      MultipleOf(s[k], t);
      OddMultiple(2 * (s[k] / Pow2(t + 1)), t);
    }
  }

  lemma Aligned(num: nat, d: nat, nb: nat, db: nat, w: nat)
    requires TopBit(num, nb) && TopBit(d, db) && 1 <= db <= nb <= 32 * w
    ensures (d * Pow2(nb - db)) % P(w) == d * Pow2(nb - db)
    ensures num < d * Pow2(nb - db + 1)
  {
    hide Pow2, P;
    var s := nb - db;
    Pow2Add(db, s);
    MulStep(d, Pow2(db), Pow2(s));
    PIsPow2(w);
    Pow2Mono(nb, 32 * w);
    ModIs(d * Pow2(s), P(w), d * Pow2(s), 0);
    Pow2Add(db - 1, s + 1);
    MulLe(Pow2(db - 1), d, Pow2(s + 1));
  }

  lemma Halve(d: nat, shift: nat)
    requires shift >= 1
    ensures d * Pow2(shift) / Pow2(1) == d * Pow2(shift - 1)
  {
    Pow2Twice(shift - 1);
    assert d * (2 * Pow2(shift - 1)) == 2 * (d * Pow2(shift - 1));
    assert Pow2(1) == 2;
  }

  lemma Twice(d: nat, shift: nat)
    ensures d * Pow2(shift + 1) == 2 * (d * Pow2(shift))
  {
    Pow2Twice(shift);
    assert d * (2 * Pow2(shift)) == 2 * (d * Pow2(shift));
  }

  /** One round of long division: the quotient bit at shift is set exactly when the shifted divisor still fits. */
  method DivideStep(pn: array<nat>, num: array<nat>, div: array<nat>, shift: nat, ghost d: nat)
    requires pn.Length == num.Length == div.Length && pn != num && pn != div && num != div
    requires AreWords(pn[..]) && AreWords(num[..]) && AreWords(div[..])
    requires shift / 32 < pn.Length && LowZero(pn[..], shift)
    requires Val(div[..]) == d * Pow2(shift) && Val(num[..]) < d * Pow2(shift + 1)
    modifies pn, num, div
    ensures AreWords(pn[..]) && AreWords(num[..]) && AreWords(div[..])
    ensures shift >= 1 ==> LowZero(pn[..], shift - 1) && Val(div[..]) == d * Pow2(shift - 1)
    ensures Val(num[..]) < d * Pow2(shift)
    ensures Val(num[..]) + Val(pn[..]) * d == old(Val(num[..])) + old(Val(pn[..])) * d
  {
    hide Val, P, Pow2, LowZero;
    Twice(d, shift);
    var c := CompareTo(num, div);
    if c >= 0 {
      SubAssign(num, div);
      ghost var q := Val(pn[..]);
      SetBit(pn, shift);
      Over(q, Pow2(shift), d);
    } else if shift >= 1 {
      SkipBit(pn[..], shift);
    }
    if shift >= 1 {
      Halve(d, shift);
    }
    ShiftRight(div, 1);
  }

  /** Floor division; dividing by zero is reported and leaves zero behind. */
  method DivAssign(pn: array<nat>, b: array<nat>) returns (ok: bool)
    requires pn.Length == b.Length && AreWords(pn[..]) && AreWords(b[..])
    modifies pn
    ensures AreWords(pn[..]) && ok == (old(Val(b[..])) != 0)
    ensures Val(pn[..]) == if ok then old(Val(pn[..])) / old(Val(b[..])) else 0
  {
    hide Val, P, Pow2, LowZero;
    ghost var n0, d := Val(pn[..]), Val(b[..]);
    var div := Copy(b);
    var num := Copy(pn);
    Clear(pn);
    var numBits := Bits(num);
    var divBits := Bits(div);
    if divBits == 0 {
      return false;
    }
    Pow2Positive(d, divBits);
    if divBits > numBits {
      Smaller(n0, d, numBits, divBits);
      return true;
    }
    var shift := numBits - divBits;
    Aligned(n0, d, numBits, divBits, pn.Length);
    ShiftLeft(div, shift);
    AllLow(pn[..], shift);
    while shift >= 0
      invariant -1 <= shift < 32 * pn.Length
      invariant AreWords(pn[..]) && AreWords(num[..]) && AreWords(div[..])
      invariant shift >= 0 ==> LowZero(pn[..], shift) && Val(div[..]) == d * Pow2(shift)
      invariant Val(num[..]) < d * Pow2(shift + 1)
      invariant Val(num[..]) + Val(pn[..]) * d == n0
    {
      DivideStep(pn, num, div, shift, d);
      shift := shift - 1;
    }
    Pow2Zero();
    ModIs(n0, d, Val(num[..]), Val(pn[..]));
    return true;
  }

  lemma Pow2Positive(d: nat, n: nat)
    requires TopBit(d, n)
    ensures d >= 1 <==> n != 0
  {
  }

  lemma AllLow(s: seq<nat>, shift: nat)
    requires ZeroFrom(s, 0)
    ensures LowZero(s, shift)
  {
    ZeroMod(Pow2(shift % 32 + 1));
  }

  lemma Smaller(n: nat, d: nat, nb: nat, db: nat)
    requires TopBit(n, nb) && TopBit(d, db) && db > nb
    ensures d >= 1 && n / d == 0
  {
    hide Pow2;
    if nb > 0 {
      Pow2Mono(nb, db - 1);
    }
    DivUnique(n, d, 0);
  }

  lemma ValCons(s: seq<nat>, i: nat)
    requires i < |s|
    ensures Val(s[i..]) == s[i] + B * Val(s[i + 1..])
  {
    var t := s[i..];
    ValSplit(t, 1);
    ValPrefix(t, 0);
    assert t[1..] == s[i + 1..];
    assert t[0] * P(0) == t[0];
    assert P(1) == B * P(0);
  }

  /** A copy with one more word on top. */
  method Widen(pn: array<nat>) returns (num: array<nat>)
    ensures fresh(num) && num[..] == pn[..] + [0]
  {
    num := new nat[pn.Length + 1];
    var i := 0;
    while i < pn.Length
      invariant 0 <= i <= pn.Length
      invariant forall j | 0 <= j < i :: num[j] == pn[j]
    {
      num[i] := pn[i];
      i := i + 1;
    }
    num[i] := 0;
  }

  /** Divides the two-word window at pos and leaves the remainder in its lower word. */
  method DivideWindow(num: array<nat>, pos: nat, b: nat) returns (x: nat)
    requires pos + 1 < num.Length && 1 <= b < B && num[pos] < B && num[pos + 1] < b
    modifies num
    ensures x < B && num[pos] < b
    ensures num[..] == old(num[..])[pos := num[pos]][pos + 1 := 0]
    ensures old(num[pos]) + old(num[pos + 1]) * B == Times(x, b) + num[pos]
  {
    hide Quot, Rem;
    var window := num[pos] + num[pos + 1] * B;
    WindowQuot(num[pos], num[pos + 1], b);
    x := Quot(window, b);
    num[pos], num[pos + 1] := Rem(window, b), 0;
  }

  lemma WindowQuot(w: nat, rem: nat, b: nat)
    requires rem < b < B && w < B
    ensures var n := w + rem * B; n < TWO64 && Quot(n, b) < B && n == Times(Quot(n, b), b) + Rem(n, b)
  {
    hide Quot, Rem;
    var n := w + rem * B;
    QuotRem(n, b);
    MulStep(rem, b, B);
    if Quot(n, b) >= B {
      MulLe(B, Quot(n, b), b);
    }
  }

  /** The invariant of the short division, over one more word. */
  lemma ShortNext(a: seq<nat>, s: seq<nat>, pos: nat, b: nat, rem: nat, x: nat, rem': nat)
    requires |a| == |s| && pos < |a|
    requires Val(a[pos + 1..]) == Times(Val(s[pos + 1..]), b) + rem
    requires s[pos] == x && a[pos] + rem * B == Times(x, b) + rem'
    ensures Val(a[pos..]) == Times(Val(s[pos..]), b) + rem'
  {
    hide Val;
    ValCons(a, pos);
    ValCons(s, pos);
    ShortStep(Val(s[pos + 1..]), rem, b, Val(a[pos + 1..]), a[pos], x, rem');
  }

  lemma ShortStep(q: nat, rem: nat, b: nat, hi: nat, w: nat, x: nat, rem': nat)
    requires hi == Times(q, b) + rem && w + rem * B == Times(x, b) + rem'
    ensures w + B * hi == Times(x + B * q, b) + rem'
  {
    assert B * (q * b) == (B * q) * b;
    assert (x + B * q) * b == x * b + (B * q) * b;
  }

  /** Short division, from the top word down, by two-word windows of the dividend. */
  method DivAssign32(pn: array<nat>, b: nat)
    requires AreWords(pn[..]) && 1 <= b < B
    modifies pn
    ensures AreWords(pn[..]) && Val(pn[..]) == old(Val(pn[..])) / b
  {
    hide Val, P, Times;
    ghost var a0 := pn[..];
    var num := Widen(pn);
    Clear(pn);
    var pos := pn.Length - 1;
    NothingAbove(a0, pn[..], b);
    while pos >= 0
      invariant -1 <= pos < pn.Length && AreWords(pn[..])
      invariant forall j | 0 <= j <= pos :: num[j] == a0[j]
      invariant num[pos + 1] < b
      invariant Val(a0[pos + 1..]) == Times(Val(pn[..][pos + 1..]), b) + num[pos + 1]
    {
      ghost var before, rem := pn[..], num[pos + 1];
      pn[pos] := DivideWindow(num, pos, b);
      assert pn[..][pos + 1..] == before[pos + 1..];
      ShortNext(a0, pn[..], pos, b, rem, pn[pos], num[pos]);
      pos := pos - 1;
    }
    assert a0[0..] == a0 && pn[..][0..] == pn[..];
    ShortQuot(Val(a0), b, num[0], Val(pn[..]));
  }

  lemma NothingAbove(a: seq<nat>, s: seq<nat>, b: nat)
    requires |a| == |s|
    ensures Val(a[|a|..]) == Times(Val(s[|s|..]), b) + 0
  {
    ValZero(a[|a|..]);
    ValZero(s[|s|..]);
  }

  lemma ShortQuot(a: nat, b: nat, rem: nat, q: nat)
    requires rem < b && a == Times(q, b) + rem
    ensures q == a / b
  {
    ModIs(a, b, rem, q);
  }
}
