/** base_uint shifts, comparison and bit length. */
module ArithShift {
  import opened Common
  import opened Division
  import opened Words
  import opened ArithUint

  predicate ZeroFrom(s: seq<nat>, m: nat) {
    forall j | m <= j < |s| :: s[j] == 0
  }

  /** The lowest s bits. */
  function Low(x: nat, s: nat): (r: nat)
    ensures r < Pow2(s)
  {
    Rem(x, Pow2(s))
  }

  /** The bits a word loses to the left are those a right shift by the rest of the word keeps. */
  lemma ShiftedOut(x: nat, s: nat)
    requires x < B && s <= 32
    ensures Hi(Shl(x, s)) == Shr(x, 32 - s) < Pow2(s)
    ensures Lo(Shl(x, s)) == Shl(Low(x, 32 - s), s)
  {
    hide Pow2, Quot, Rem, Hi, Lo;
    Pow2of32();
    Pow2Add(s, 32 - s);
    QuotRem(x, Pow2(32 - s));
    SplitWord(x, Pow2(s), Pow2(32 - s), Shr(x, 32 - s), Low(x, 32 - s));
  }

  lemma SplitWord(x: nat, up: nat, down: nat, h: nat, l: nat)
    requires x < B && up * down == B && x == h * down + l && l < down
    ensures Hi(Times(x, up)) == h < up && Lo(Times(x, up)) == l * up
  {
    Expand(h, down, l, up);
    MulStep(l, down, up);
    ModIs(Times(x, up), B, l * up, h);
    if h >= up {
      MulLe(up, h, down);
    }
  }

  lemma Expand(h: nat, d: nat, l: nat, u: nat)
    ensures (h * d + l) * u == l * u + h * (u * d)
  {
  }

  lemma Fits(l: nat, y: nat, s: nat)
    requires s <= 32 && l < Pow2(32 - s) && y < Pow2(s)
    ensures Shl(l, s) + y < B
  {
    hide Pow2;
    Pow2of32();
    Pow2Add(32 - s, s);
    MulStep(l, Pow2(32 - s), Pow2(s));
  }

  lemma OverTop(n: nat, m: nat, w: nat)
    requires m >= w
    ensures n * P(m) == Times(n, P(m - w)) * P(w)
  {
    hide P;
    PAdd(m - w, w);
    assert n * (P(m - w) * P(w)) == (n * P(m - w)) * P(w);
  }

  lemma ShlZero(y: nat)
    ensures Shl(y, 0) == y && Pow2(0) == 1
  {}

  /** Setting bits of word m above those it has. */
  method OrWord(pn: array<nat>, m: nat, y: nat, ghost k: nat, ghost s: nat)
    requires AreWords(pn[..]) && m < pn.Length
    requires pn[m] < Pow2(s) && y == Shl(k, s) && pn[m] + y < B
    modifies pn
    ensures AreWords(pn[..]) && pn[..] == old(pn[..])[m := old(pn[m]) + y]
    ensures Val(pn[..]) == old(Val(pn[..])) + y * P(m)
  {
    hide Val, P, Pow2;
    ghost var was := pn[..];
    OrDisjoint(k, pn[m], s);
    pn[m] := Or(pn[m], y);
    assert pn[..] == was[m := was[m] + y];
    ValUpdate(was, m, pn[m]);
    Over(was[m], y, P(m));
  }

  /** Shifting one word x left by s bits into place m, next to what the word below left there. */
  method PutLeft(pn: array<nat>, x: nat, m: nat, s: nat) returns (ghost over: nat)
    requires AreWords(pn[..]) && x < B && s < 32
    requires ZeroFrom(pn[..], m + 1) && (m < pn.Length ==> pn[m] < Pow2(s))
    modifies pn
    ensures AreWords(pn[..]) && ZeroFrom(pn[..], m + 2) && (m + 1 < pn.Length ==> pn[m + 1] < Pow2(s))
    ensures Val(pn[..]) + over * P(pn.Length) == old(Val(pn[..])) + Shl(x, s) * P(m)
  {
    hide Val, P, Lo, Hi, Pow2, Or, Shl, Shr, Low, Times;
    ShlZero(Shr(x, 32 - s));
    ShiftedOut(x, s);
    Carry(Shl(x, s), P(m));
    PNext(m);
    over := 0;
    if m + 1 < pn.Length && s != 0 {
      ShiftedInto(Shr(x, 32 - s), s);
      OrWord(pn, m + 1, Shr(x, 32 - s), Shr(x, 32 - s), 0);
    }
    if m < pn.Length {
      Fits(Low(x, 32 - s), pn[m], s);
      OrWord(pn, m, Lo(Shl(x, s)), Low(x, 32 - s), s);
      if m + 1 == pn.Length {
        over := Hi(Shl(x, s));
      }
    } else {
      OverTop(Shl(x, s), m, pn.Length);
      over := Times(Shl(x, s), P(m - pn.Length));
    }
  }

  lemma ShiftedInto(y: nat, s: nat)
    requires y < Pow2(s) && s <= 32
    ensures y < B
  {
    hide Pow2;
    Pow2of32();
    Pow2Mono(s, 32);
  }

  lemma ShiftWhole(a: nat, x: nat, i: nat, k: nat, s: nat)
    ensures (a + x * P(i)) * Pow2(32 * k + s) == a * Pow2(32 * k + s) + Shl(x, s) * P(i + k)
  {
    hide P, Pow2;
    PIsPow2(k);
    Pow2Add(32 * k, s);
    PAdd(i, k);
    Reorder(x, P(i), P(k), Pow2(s));
    Over(a, x * P(i), Pow2(32 * k + s));
  }

  lemma Reorder(x: nat, p: nat, q: nat, u: nat)
    ensures (x * p) * (q * u) == (x * u) * (p * q)
  {
    assert (x * p) * (q * u) == x * (p * q * u);
    assert (x * u) * (p * q) == x * (p * q * u);
  }

  /** Multiplication by a power of two, modulo 2 to the width. */
  method ShiftLeft(pn: array<nat>, shift: nat)
    requires AreWords(pn[..])
    modifies pn
    ensures AreWords(pn[..]) && Val(pn[..]) == (old(Val(pn[..])) * Pow2(shift)) % P(pn.Length)
  {
    hide Val, P, Pow2, Shl;
    var a := pn[..];
    Clear(pn);
    var k, s := shift / 32, shift % 32;
    ghost var q: nat := 0;
    var i := 0;
    ValStart(a);
    while i < pn.Length
      invariant 0 <= i <= pn.Length && AreWords(pn[..])
      invariant ZeroFrom(pn[..], i + k + 1) && (i + k < pn.Length ==> pn[i + k] < Pow2(s))
      invariant Val(pn[..]) + q * P(pn.Length) == Val(a[..i]) * Pow2(shift)
    {
      ghost var over := PutLeft(pn, a[i], i + k, s);
      ShiftWhole(Val(a[..i]), a[i], i, k, s);
      ValPrefix(a, i);
      Over(q, over, P(pn.Length));
      q := q + over;
      i := i + 1;
    }
    assert a[..i] == a;
    ValBound(pn[..]);
    ModIs(Val(a) * Pow2(shift), P(pn.Length), Val(pn[..]), q);
  }

  /** What a source word with high bits h and lowest s bits l adds to the number shifted right. */
  ghost function ShiftIn(h: nat, l: nat, m: nat, s: nat): nat
    requires s <= 32
  {
    Times(h, P(m)) + if m >= 1 then Times(Times(l, Pow2(32 - s)), P(m - 1)) else 0
  }

  /** Shifting one word x right by s bits into place m, its lowest bits into the place below. */
  method PutRight(pn: array<nat>, x: nat, m: nat, s: nat)
    requires AreWords(pn[..]) && x < B && s < 32 && m < pn.Length
    requires ZeroFrom(pn[..], m) && (m >= 1 ==> pn[m - 1] < Pow2(32 - s))
    modifies pn
    ensures AreWords(pn[..]) && ZeroFrom(pn[..], m + 1) && pn[m] < Pow2(32 - s)
    ensures Val(pn[..]) == old(Val(pn[..])) + ShiftIn(Shr(x, s), Low(x, s), m, s)
  {
    hide Val, P, Lo, Hi, Pow2, Or, Shl, Shr, Low;
    ShlZero(Shr(x, s));
    ShiftedOut(x, 32 - s);
    LowShifted(x, s);
    if m >= 1 && s != 0 {
      Fits(Low(x, s), pn[m - 1], 32 - s);
      OrWord(pn, m - 1, Lo(Shl(x, 32 - s)), Low(x, s), 32 - s);
    }
    ShiftedInto(Shr(x, s), 32 - s);
    OrWord(pn, m, Shr(x, s), Shr(x, s), 0);
  }

  lemma LowShifted(x: nat, s: nat)
    requires s < 32
    ensures Shl(Low(x, s), 32 - s) == Times(Low(x, s), Pow2(32 - s))
    ensures s == 0 ==> Shl(Low(x, s), 32 - s) == 0
  {
    if s == 0 {
      assert Low(x, 0) == 0;
      assert 0 * Pow2(32) == 0;
    }
  }

  lemma RightUp(x: nat, h: nat, l: nat, u: nat, v: nat, p: nat, q: nat, pm: nat, pi: nat, e: nat)
    requires x == Times(h, v) + l && pm == Times(Times(u, v), p) && pi == Times(pm, q) && e == Times(q, v)
    ensures Times(x, pi) == Times(Times(h, pm) + Times(Times(l, u), p), e)
  {
    Place(l, u, v, p, q);
    Reorder(h, pm, q, v);
    Over(Times(h, v), l, pi);
    Over(Times(h, pm), Times(Times(l, u), p), e);
  }

  lemma RightLow(x: nat, h: nat, l: nat, v: nat, q: nat, e: nat)
    requires x == Times(h, v) + l && e == Times(q, v)
    ensures Times(x, q) == Times(Times(h, 1), e) + Times(l, q)
  {
    Over(Times(h, v), l, q);
    assert h * v * q == h * (q * v);
  }

  lemma PSplit(i: nat, k: nat)
    requires k <= i
    ensures P(i) == Times(P(i - k), P(k))
  {
    hide P;
    PAdd(i - k, k);
  }

  lemma WordSplit(m: nat, s: nat)
    requires m >= 1 && s < 32
    ensures P(m) == Times(Times(Pow2(32 - s), Pow2(s)), P(m - 1))
  {
    hide P, Pow2;
    PNext(m - 1);
    Pow2of32();
    Pow2Add(32 - s, s);
  }

  lemma ShiftUnit(k: nat, s: nat)
    ensures Pow2(32 * k + s) == Times(P(k), Pow2(s))
  {
    hide P, Pow2;
    PIsPow2(k);
    Pow2Add(32 * k, s);
  }

  lemma WordParts(x: nat, s: nat)
    ensures x == Times(Shr(x, s), Pow2(s)) + Low(x, s)
  {
    hide Pow2, Quot, Rem;
    QuotRem(x, Pow2(s));
  }

  /** How the value of the shifted prefix and what has been shifted out grow by one word. */
  lemma ShiftStep(x: nat, i: nat, k: nat, s: nat)
    requires s < 32 && k <= i
    ensures Times(x, P(i)) == Times(ShiftIn(Shr(x, s), Low(x, s), i - k, s), Pow2(32 * k + s))
                              + if i == k then Times(Low(x, s), P(k)) else 0
  {
    hide *;
    var m, h, l := i - k, Shr(x, s), Low(x, s);
    ShiftUnit(k, s);
    PSplit(i, k);
    WordParts(x, s);
    ShiftInIs(h, l, m, s);
    if m > 0 {
      WordSplit(m, s);
      RightUp(x, h, l, Pow2(32 - s), Pow2(s), P(m - 1), P(k), P(m), P(i), Pow2(32 * k + s));
    } else {
      RightLow(x, h, l, Pow2(s), P(k), Pow2(32 * k + s));
    }
  }

  lemma ShiftInIs(h: nat, l: nat, m: nat, s: nat)
    requires s <= 32
    ensures m == 0 ==> P(m) == 1 && ShiftIn(h, l, m, s) == Times(h, 1)
    ensures m > 0 ==> ShiftIn(h, l, m, s) == Times(h, P(m)) + Times(Times(l, Pow2(32 - s)), P(m - 1))
  {}

  lemma Place(l: nat, u: nat, v: nat, p: nat, q: nat)
    ensures l * ((u * v * p) * q) == ((l * u) * p) * (q * v)
  {
    assert l * ((u * v * p) * q) == l * u * (p * (q * v));
  }

  lemma OutBound(rem: nat, l: nat, k: nat, s: nat)
    requires rem < P(k) && l < Pow2(s)
    ensures rem + Times(l, P(k)) < Pow2(32 * k + s)
  {
    hide P, Pow2;
    PIsPow2(k);
    Pow2Add(32 * k, s);
    MulStep(l, Pow2(s), P(k));
  }

  lemma SmallPrefix(a: seq<nat>, i: nat, k: nat, s: nat)
    requires AreWords(a) && i <= |a| && i <= k
    ensures Val(a[..i]) < Pow2(32 * k + s)
    ensures i == k ==> Val(a[..i]) < P(k)
  {
    hide Val, P, Pow2;
    ValBound(a[..i]);
    PIsPow2(i);
    Pow2Mono(32 * i, 32 * k + s);
  }

  /** The invariant of the right shift over one more word; the bits shifted out of word k are the last ones lost. */
  lemma RightNext(a: seq<nat>, i: nat, k: nat, s: nat, v: nat, rem: nat)
    requires AreWords(a) && k <= i < |a| && s < 32
    requires Val(a[..i]) == v * Pow2(32 * k + s) + rem && rem < Pow2(32 * k + s) && (i == k ==> v == 0)
    ensures var rem' := rem + if i == k then Times(Low(a[i], s), P(k)) else 0;
            && rem' < Pow2(32 * k + s)
            && Val(a[..i + 1]) == (v + ShiftIn(Shr(a[i], s), Low(a[i], s), i - k, s)) * Pow2(32 * k + s) + rem'
  {
    hide Val, P, Pow2, ShiftIn, Shr, Low;
    ValPrefix(a, i);
    ShiftStep(a[i], i, k, s);
    Over(v, ShiftIn(Shr(a[i], s), Low(a[i], s), i - k, s), Pow2(32 * k + s));
    if i == k {
      SmallPrefix(a, i, k, s);
      OutBound(rem, Low(a[i], s), k, s);
    }
  }

  /** Floor division by a power of two. */
  method ShiftRight(pn: array<nat>, shift: nat)
    requires AreWords(pn[..])
    modifies pn
    ensures AreWords(pn[..]) && Val(pn[..]) == old(Val(pn[..])) / Pow2(shift)
  {
    hide Val, P, Pow2, ShiftIn, Shr, Low, Times;
    var a := pn[..];
    Clear(pn);
    var k, s := shift / 32, shift % 32;
    ghost var rem: nat := 0;
    var i := 0;
    ValStart(a);
    while i < pn.Length
      invariant 0 <= i <= pn.Length && AreWords(pn[..])
      invariant i <= k ==> ZeroFrom(pn[..], 0) && Val(pn[..]) == 0
      invariant i > k ==> ZeroFrom(pn[..], i - k) && pn[i - k - 1] < Pow2(32 - s)
      invariant Val(a[..i]) == Val(pn[..]) * Pow2(shift) + rem && rem < Pow2(shift)
    {
      if i >= k {
        RightNext(a, i, k, s, Val(pn[..]), rem);
        PutRight(pn, a[i], i - k, s);
        if i == k {
          rem := rem + Times(Low(a[i], s), P(k));
        }
      } else {
        SmallPrefix(a, i + 1, k, s);
        rem := Val(a[..i + 1]);
      }
      i := i + 1;
    }
    assert a[..i] == a;
    ModIs(Val(a), Pow2(shift), rem, Val(pn[..]));
  }

  lemma Differ(a: seq<nat>, b: seq<nat>, i: nat)
    requires |a| == |b| && AreWords(a) && AreWords(b) && i < |a|
    requires (forall j | i < j < |a| :: a[j] == b[j]) && a[i] < b[i]
    ensures Val(a) < Val(b)
  {
    hide Val, P;
    assert a[i + 1..] == b[i + 1..];
    ValSplit(a, i + 1);
    ValSplit(b, i + 1);
    ValPrefix(a, i);
    ValPrefix(b, i);
    ValBound(a[..i]);
    MulStep(a[i], b[i], P(i));
  }

  /** The sign of the comparison of the two numbers. */
  method CompareTo(pn: array<nat>, b: array<nat>) returns (r: int)
    requires pn.Length == b.Length && AreWords(pn[..]) && AreWords(b[..])
    ensures r == if Val(pn[..]) < Val(b[..]) then -1 else if Val(pn[..]) > Val(b[..]) then 1 else 0
  {
    hide Val;
    var i := pn.Length - 1;
    while i >= 0
      invariant -1 <= i < pn.Length
      invariant forall j | i < j < pn.Length :: pn[j] == b[j]
    {
      if pn[i] < b[i] {
        Differ(pn[..], b[..], i);
        return -1;
      }
      if pn[i] > b[i] {
        Differ(b[..], pn[..], i);
        return 1;
      }
      i := i - 1;
    }
    assert pn[..] == b[..];
    return 0;
  }

  lemma BitClear(w: nat, n: nat)
    requires w < Pow2(n + 1)
    ensures (w / Pow2(n)) % 2 == 1 <==> w >= Pow2(n)
  {
    hide Pow2;
    Pow2Twice(n);
    DivUnique(w, Pow2(n), if w >= Pow2(n) then 1 else 0);
  }

  lemma Pow2Twice(n: nat)
    ensures Pow2(n + 1) == 2 * Pow2(n)
  {
  }

  ghost predicate TopBit(v: nat, n: nat) {
    if n == 0 then v == 0 else Pow2(n - 1) <= v < Pow2(n)
  }

  lemma TopWord(s: seq<nat>, pos: nat, n: nat)
    requires AreWords(s) && pos < |s| && ZeroFrom(s, pos + 1)
    requires Pow2(n) <= s[pos] < Pow2(n + 1)
    ensures TopBit(Val(s), 32 * pos + n + 1)
  {
    hide Val, P, Pow2;
    ValSplit(s, pos + 1);
    ValZero(s[pos + 1..]);
    ValPrefix(s, pos);
    ValBound(s[..pos]);
    PIsPow2(pos);
    Pow2Add(n, 32 * pos);
    Pow2Add(n + 1, 32 * pos);
    MulLe(Pow2(n), s[pos], P(pos));
    MulStep(s[pos], Pow2(n + 1), P(pos));
  }

  /** One plus the place of the highest bit, 0 for zero. */
  method Bits(pn: array<nat>) returns (n: nat)
    requires AreWords(pn[..])
    ensures TopBit(Val(pn[..]), n) && n <= 32 * pn.Length
  {
    hide Val, TopBit;
    var pos := pn.Length - 1;
    while pos >= 0
      invariant -1 <= pos < pn.Length && ZeroFrom(pn[..], pos + 1)
    {
      if pn[pos] != 0 {
        var nbits := 31;
        Pow2of32();
        while nbits > 0
          invariant 0 <= nbits <= 31 && pn[pos] < Pow2(nbits + 1)
        {
          BitClear(pn[pos], nbits);
          if (pn[pos] / Pow2(nbits)) % 2 == 1 {
            TopWord(pn[..], pos, nbits);
            return 32 * pos + nbits + 1;
          }
          nbits := nbits - 1;
        }
        TopWord(pn[..], pos, 0);
        return 32 * pos + 1;
      }
      pos := pos - 1;
    }
    NoBits(pn[..]);
    return 0;
  }

  lemma NoBits(s: seq<nat>)
    requires ZeroFrom(s, 0)
    ensures TopBit(Val(s), 0)
  {
    ValZero(s);
  }
}
