/** base_uint: unsigned numbers of a fixed number of 32-bit words, updated in place. The number of words is the
    length of the array, 8 for arith_uint256 and 9 for arith_uint288. */
module ArithUint {
  import opened Division
  import opened Words

  lemma ModIs(x: nat, m: nat, r: nat, q: nat)
    requires m >= 1 && r < m && x == r + q * m
    ensures x % m == r && x / m == q
  {
    DivUnique(x, m, q);
  }

  lemma Prefixes(s: seq<nat>, t: seq<nat>, i: nat)
    requires i < |s| && |s| == |t| && s[..i] == t[..i]
    ensures Val(s[..i + 1]) == Val(t[..i]) + s[i] * P(i)
  {
    ValPrefix(s, i);
  }

  lemma AddStep(v: nat, x: nat, y: nat, carry: nat, a: nat, b: nat, i: nat)
    requires v + carry * P(i) == a + b
    ensures var n := carry + x + y;
            (v + Lo(n) * P(i)) + Hi(n) * P(i + 1) == (a + x * P(i)) + (b + y * P(i))
  {
    var n := carry + x + y;
    Carry(n, P(i));
    assert n * P(i) == carry * P(i) + x * P(i) + y * P(i);
  }

  /** Addition modulo 2 to the width; the operands may be the same number. */
  method AddAssign(pn: array<nat>, b: array<nat>)
    requires pn.Length == b.Length && AreWords(pn[..]) && AreWords(b[..])
    modifies pn
    ensures AreWords(pn[..])
    ensures Val(pn[..]) == (old(Val(pn[..])) + old(Val(b[..]))) % P(pn.Length)
  {
    hide Val, P, Lo, Hi;
    ghost var a0, b0 := pn[..], b[..];
    ValStart(a0);
    ValStart(b0);
    assert pn[..0] == a0[..0];
    var carry: nat := 0;
    var i := 0;
    while i < pn.Length
      invariant 0 <= i <= pn.Length && carry <= 1 && AreWords(pn[..])
      invariant pn[i..] == a0[i..] && b[i..] == b0[i..]
      invariant Val(pn[..i]) + carry * P(i) == Val(a0[..i]) + Val(b0[..i])
    {
      assert pn[i] == a0[i] && b[i] == b0[i];
      AddStep(Val(pn[..i]), a0[i], b0[i], carry, Val(a0[..i]), Val(b0[..i]), i);
      ValPrefix(a0, i);
      ValPrefix(b0, i);
      var n: nat := carry + pn[i] + b[i];
      assert n < TWO64;
      LoHi(n);
      ghost var before := pn[..];
      pn[i] := Lo(n);
      Prefixes(pn[..], before, i);
      carry := Hi(n);
      i := i + 1;
    }
    assert pn[..i] == pn[..] && a0[..i] == a0 && b0[..i] == b0;
    ValBound(pn[..]);
    ModIs(Val(a0) + Val(b0), P(pn.Length), Val(pn[..]), carry);
  }

  lemma {:induction false} NotVal(s: seq<nat>, t: seq<nat>)
    requires |s| == |t| && forall i | 0 <= i < |s| :: t[i] == B - 1 - s[i]
    ensures Val(s) + Val(t) == P(|s|) - 1
  {
    if s != [] {
      var n := |s| - 1;
      NotVal(s[..n], t[..n]);
      assert s[n] * P(n) + (B - 1 - s[n]) * P(n) == (B - 1) * P(n);
      assert (B - 1) * P(n) + P(n) == B * P(n);
    }
  }

  /** Bitwise complement. */
  method Not(pn: array<nat>) returns (ret: array<nat>)
    requires AreWords(pn[..])
    ensures fresh(ret) && ret.Length == pn.Length && AreWords(ret[..])
    ensures Val(ret[..]) == P(pn.Length) - 1 - Val(pn[..])
  {
    ret := new nat[pn.Length];
    var i := 0;
    while i < pn.Length
      invariant 0 <= i <= pn.Length
      invariant forall j | 0 <= j < i :: ret[j] == B - 1 - pn[j]
    {
      ret[i] := B - 1 - pn[i];
      i := i + 1;
    }
    NotVal(pn[..], ret[..]);
  }

  lemma Distribute1(x: nat, p: nat)
    ensures (x + 1) * p == x * p + p
  {
  }

  method Increment(pn: array<nat>)
    requires AreWords(pn[..])
    modifies pn
    ensures AreWords(pn[..]) && Val(pn[..]) == (old(Val(pn[..])) + 1) % P(pn.Length)
  {
    hide Val, P, Lo, Hi;
    ghost var a := Val(pn[..]);
    ValStart(pn[..]);
    var i := 0;
    while i < pn.Length
      invariant 0 <= i <= pn.Length && AreWords(pn[..])
      invariant Val(pn[..]) + P(i) == a + 1
    {
      ghost var before := pn[..];
      pn[i] := Lo(pn[i] + 1);
      assert pn[..] == before[i := pn[i]];
      ValUpdate(before, i, pn[i]);
      LoHi(before[i] + 1);
      Distribute1(before[i], P(i));
      if pn[i] != 0 {
        ValBound(pn[..]);
        ModIs(a + 1, P(pn.Length), Val(pn[..]), 0);
        return;
      }
      PNext(i);
      i := i + 1;
    }
    ValBound(pn[..]);
    ModIs(a + 1, P(pn.Length), Val(pn[..]), 1);
  }

  /** Two's complement. */
  method Negate(pn: array<nat>) returns (ret: array<nat>)
    requires AreWords(pn[..])
    ensures fresh(ret) && ret.Length == pn.Length && AreWords(ret[..])
    ensures Val(ret[..]) == (P(pn.Length) - Val(pn[..])) % P(pn.Length)
  {
    ret := Not(pn);
    Increment(ret);
  }

  lemma SubMod(a: nat, b: nat, m: nat)
    requires a < m && b < m
    ensures (a + (m - b) % m) % m == (if a >= b then a - b else a + m - b)
  {
    if b == 0 {
      ModIs(m, m, 0, 1);
      ModIs(a, m, a, 0);
    } else {
      ModIs(m - b, m, m - b, 0);
      if a >= b {
        ModIs(a + m - b, m, a - b, 1);
      } else {
        ModIs(a + m - b, m, a + m - b, 0);
      }
    }
  }

  /** Subtraction modulo 2 to the width, by adding the two's complement. */
  method SubAssign(pn: array<nat>, b: array<nat>)
    requires pn.Length == b.Length && AreWords(pn[..]) && AreWords(b[..])
    modifies pn
    ensures AreWords(pn[..])
    ensures var x, y := old(Val(pn[..])), old(Val(b[..]));
            Val(pn[..]) == if x >= y then x - y else x + P(pn.Length) - y
  {
    hide Val, P;
    ValBound(pn[..]);
    ValBound(b[..]);
    SubMod(Val(pn[..]), Val(b[..]), P(pn.Length));
    var minus := Negate(b);
    AddAssign(pn, minus);
  }

  lemma ProductBound(x: nat, y: nat)
    requires x < B && y < B
    ensures 0 <= x * y <= (B - 1) * (B - 1)
  {
    var product: nat := Times(x, y);
    MulLe(x, B - 1, y);
    MulLe(y, B - 1, B - 1);
  }

  lemma MulStep32(v: nat, x: nat, m: nat, carry: nat, a: nat, i: nat)
    requires v + carry * P(i) == a * m
    ensures var n := carry + Times(m, x);
            (v + Lo(n) * P(i)) + Hi(n) * P(i + 1) == (a + x * P(i)) * m
  {
    hide P, Lo, Hi;
    var n := carry + Times(m, x);
    PNext(i);
    Carry(n, P(i));
    assert n * P(i) == carry * P(i) + (m * x) * P(i);
    assert (a + x * P(i)) * m == a * m + (m * x) * P(i);
  }

  /** The invariant of the product by one word, over one more place. */
  lemma MulNext32(s: seq<nat>, a: seq<nat>, m: nat, carry: nat, i: nat)
    requires i < |s| == |a| && AreWords(s) && AreWords(a) && m < B && carry < B && s[i] == a[i]
    requires Val(s[..i]) + carry * P(i) == Val(a[..i]) * m
    ensures var n := carry + Times(m, s[i]);
            && n < TWO64 && Hi(n) < B
            && Val(s[i := Lo(n)][..i + 1]) + Hi(n) * P(i + 1) == Val(a[..i + 1]) * m
  {
    hide Val, P, Lo, Hi;
    ProductBound(m, s[i]);
    var n := carry + Times(m, s[i]);
    LoHi(n);
    MulStep32(Val(s[..i]), a[i], m, carry, Val(a[..i]), i);
    ValPrefix(a, i);
    Prefixes(s[i := Lo(n)], s, i);
  }

  method MulAssign32(pn: array<nat>, b32: nat)
    requires AreWords(pn[..]) && b32 < B
    modifies pn
    ensures AreWords(pn[..]) && Val(pn[..]) == (old(Val(pn[..])) * b32) % P(pn.Length)
  {
    hide Val, P, Lo, Hi, Times;
    ghost var a0 := pn[..];
    ValStart(a0);
    assert pn[..0] == a0[..0];
    var carry: nat := 0;
    var i := 0;
    while i < pn.Length
      invariant 0 <= i <= pn.Length && carry < B && AreWords(pn[..])
      invariant pn[i..] == a0[i..]
      invariant Val(pn[..i]) + carry * P(i) == Val(a0[..i]) * b32
    {
      assert pn[i] == a0[i];
      ghost var before := pn[..];
      assert before[..i] == pn[..i];
      MulNext32(before, a0, b32, carry, i);
      var n: nat := carry + Times(b32, pn[i]);
      pn[i] := Lo(n);
      assert pn[..] == before[i := Lo(n)] && pn[..i + 1] == pn[..][..i + 1];
      carry := Hi(n);
      i := i + 1;
    }
    assert pn[..i] == pn[..] && a0[..i] == a0;
    ValBound(pn[..]);
    ModIs(Val(a0) * b32, P(pn.Length), Val(pn[..]), carry);
  }

  lemma RowStep(v: nat, w: nat, x: nat, carry: nat, start: nat, aj: nat, bs: nat, y: nat, r: nat, q: nat)
    requires v + carry * (r * q) == start + aj * bs * q
    requires w + x * (r * q) == v + Lo(carry + x + aj * y) * (r * q)
    ensures w + Hi(carry + x + aj * y) * (B * (r * q)) == start + aj * (bs + y * r) * q
  {
    var p, m := r * q, aj * y;
    Carry(carry + x + m, p);
    assert (carry + x + m) * p == carry * p + x * p + m * p;
    Regroup(aj, y, r, q);
    Spread(aj, bs, y * r, q);
  }

  lemma Regroup(a: nat, y: nat, r: nat, q: nat)
    ensures (a * y) * (r * q) == a * (y * r) * q
  {
  }

  lemma Spread(a: nat, x: nat, y: nat, q: nat)
    ensures a * (x + y) * q == a * x * q + a * y * q
  {
    assert a * (x + y) == a * x + a * y;
  }

  lemma RowEnd(b: seq<nat>, k: nat, aj: nat, j: nat, v: nat, carry: nat, start: nat)
    requires k <= |b| && v + carry * P(k + j) == start + aj * Val(b[..k]) * P(j)
    ensures v + (carry + Times(aj, Val(b[k..]))) * P(k + j) == start + aj * Val(b) * P(j)
  {
    hide Val, P;
    var hi, q := Val(b[k..]), P(j);
    ValSplit(b, k);
    PAdd(k, j);
    Spread(aj, Val(b[..k]), P(k) * hi, q);
    Regroup(aj, hi, P(k), q);
    assert P(k) * hi == hi * P(k);
    Over(carry, aj * hi, P(k + j));
  }

  lemma Over(x: nat, y: nat, p: nat)
    ensures (x + y) * p == x * p + y * p
  {
  }

  ghost predicate AllZero(b: array<nat>)
    reads b
  {
    forall i | 0 <= i < b.Length :: b[i] == 0
  }

  lemma ZeroCell(a: nat)
    ensures Lo(0) == 0 && Hi(0) == 0 && Times(a, 0) == 0
  {}

  lemma RowNext(s: seq<nat>, b: seq<nat>, aj: nat, i: nat, j: nat, carry: nat, start: nat)
    requires i < |b| && i + j < |s| && AreWords(s) && AreWords(b) && aj < B && carry < B
    requires Val(s) + carry * P(i + j) == start + aj * Val(b[..i]) * P(j)
    ensures var n := carry + s[i + j] + Times(aj, b[i]);
            && n < TWO64 && Lo(n) < B && Hi(n) < B
            && Val(s[i + j := Lo(n)]) + Hi(n) * P(i + 1 + j) == start + aj * Val(b[..i + 1]) * P(j)
  {
    hide Val, P, Lo, Hi;
    ProductBound(aj, b[i]);
    var n := carry + s[i + j] + Times(aj, b[i]);
    LoHi(n);
    var s' := s[i + j := Lo(n)];
    ValUpdate(s, i + j, Lo(n));
    PAdd(i, j);
    PNext(i + j);
    RowStep(Val(s), Val(s'), s[i + j], carry, start, aj, Val(b[..i]), b[i], P(i), P(j));
    ValPrefix(b, i);
  }

  /** One row of the schoolbook product: the number grows by aj times b, j places up, up to a multiple of the modulus. */
  method MulRow(pn: array<nat>, aj: nat, b: array<nat>, j: nat) returns (ghost over: nat)
    requires pn.Length == b.Length && (pn != b || AllZero(b)) && j < pn.Length && aj < B
    requires AreWords(pn[..]) && AreWords(b[..])
    modifies pn
    ensures AreWords(pn[..]) && b[..] == old(b[..])
    ensures Val(pn[..]) + over * P(pn.Length) == old(Val(pn[..])) + aj * Val(b[..]) * P(j)
  {
    hide Val, P, Lo, Hi, Times;
    ghost var start, b0 := Val(pn[..]), b[..];
    assert aj * Val(b0[..0]) * P(j) == 0 by {
      ValStart(b0);
    }
    var carry: nat := 0;
    var i := 0;
    while i + j < pn.Length
      invariant 0 <= i <= pn.Length - j && carry < B && AreWords(pn[..])
      invariant b[..] == b0 && (pn == b ==> carry == 0)
      invariant Val(pn[..]) + carry * P(i + j) == start + aj * Val(b0[..i]) * P(j)
    {
      ghost var before := pn[..];
      RowNext(before, b0, aj, i, j, carry, start);
      assert b[i] == b0[i];
      var n: nat := carry + pn[i + j] + Times(aj, b[i]);
      if pn == b {
        ZeroCell(aj);
        assert b0[i] == 0 && b0[i + j] == 0;
      }
      pn[i + j] := Lo(n);
      assert pn[..] == before[i + j := Lo(n)];
      carry := Hi(n);
      i := i + 1;
    }
    RowEnd(b0, i, aj, j, Val(pn[..]), carry, start);
    over := carry + Times(aj, Val(b0[i..]));
  }

  lemma RowsAdd(q: nat, over: nat, p: nat, a: nat, aj: nat, b: nat, pj: nat, v: nat, w: nat)
    requires v + q * p == a * b && w + over * p == v + aj * b * pj
    ensures w + (q + over) * p == (a + aj * pj) * b
  {
    assert (q + over) * p == q * p + over * p;
    assert (a + aj * pj) * b == a * b + aj * b * pj;
  }

  /** The product modulo 2 to the width. A number multiplied by itself in place is cleared before its words are read
      as the other factor, and becomes 0. */
  method MulAssign(pn: array<nat>, b: array<nat>)
    requires pn.Length == b.Length && AreWords(pn[..]) && AreWords(b[..])
    modifies pn
    ensures AreWords(pn[..])
    ensures Val(pn[..]) == if pn == b then 0 else old(Val(pn[..]) * Val(b[..])) % P(pn.Length)
  {
    hide Val, P;
    var a := pn[..];
    Clear(pn);
    ghost var b0 := b[..];
    ValStart(a);
    ghost var q: nat := 0;
    var j := 0;
    while j < pn.Length
      invariant 0 <= j <= pn.Length && AreWords(pn[..]) && b[..] == b0
      invariant Val(pn[..]) + q * P(pn.Length) == Val(a[..j]) * Val(b0)
    {
      ghost var v := Val(pn[..]);
      assert pn == b ==> AllZero(b) by {
        assert pn == b ==> forall i | 0 <= i < b.Length :: b[i] == b0[i];
      }
      ghost var over := MulRow(pn, a[j], b, j);
      RowsAdd(q, over, P(pn.Length), Val(a[..j]), a[j], Val(b0), P(j), v, Val(pn[..]));
      ValPrefix(a, j);
      q := q + over;
      j := j + 1;
    }
    assert a[..j] == a;
    ValBound(pn[..]);
    ModIs(Val(a) * Val(b0), P(pn.Length), Val(pn[..]), q);
  }

  method Clear(pn: array<nat>)
    modifies pn
    ensures forall i | 0 <= i < pn.Length :: pn[i] == 0
    ensures AreWords(pn[..]) && Val(pn[..]) == 0
  {
    var i := 0;
    while i < pn.Length
      invariant 0 <= i <= pn.Length
      invariant forall j | 0 <= j < i :: pn[j] == 0
    {
      pn[i] := 0;
      i := i + 1;
    }
    ValZero(pn[..]);
  }
}
