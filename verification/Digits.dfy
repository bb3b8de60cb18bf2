/** Big-endian digit strings in any base, and powers of the bases. */
module Digits {
  import opened Division

  function Power(b: nat, e: nat): nat {
    if e == 0 then 1 else b * Power(b, e - 1)
  }

  lemma {:induction false} PowerPositive(b: nat, e: nat)
    requires b >= 1
    ensures Power(b, e) >= 1
  {
    if e > 0 {
      PowerPositive(b, e - 1);
      MulMono(1, b, 1, Power(b, e - 1));
    }
  }

  lemma MulMono(a: nat, b: nat, c: nat, d: nat)
    requires a <= b && c <= d
    ensures a * c <= b * d
  {
    assert b * d == a * c + a * (d - c) + (b - a) * d;
  }

  lemma {:induction false} PowerAdd(b: nat, i: nat, j: nat)
    ensures Power(b, i + j) == Power(b, i) * Power(b, j)
  {
    if j == 0 {
      assert Power(b, i) * Power(b, 0) == Power(b, i);
    } else {
      PowerAdd(b, i, j - 1);
      Rotate(b, Power(b, i), Power(b, j - 1));
    }
  }

  lemma Rotate(a: nat, b: nat, c: nat)
    ensures a * (b * c) == b * (a * c)
  {
  }

  lemma {:induction false} PowerMul(b: nat, i: nat, j: nat)
    ensures Power(b, Times(i, j)) == Power(Power(b, i), j)
  {
    if j == 0 {
      assert Times(i, j) == 0;
    } else {
      PowerMul(b, i, j - 1);
      assert Times(i, j) == i + Times(i, j - 1);
      PowerAdd(b, i, Times(i, j - 1));
    }
  }

  lemma {:induction false} PowerBase(a: nat, b: nat, e: nat)
    requires a <= b
    ensures Power(a, e) <= Power(b, e)
  {
    if e > 0 {
      PowerBase(a, b, e - 1);
      MulMono(a, b, Power(a, e - 1), Power(b, e - 1));
    }
  }

  lemma {:induction false} PowerBaseStrict(a: nat, b: nat, e: nat)
    requires a < b && e >= 1
    ensures Power(a, e) < Power(b, e)
  {
    PowerBase(a, b, e - 1);
    PowerPositive(b, e - 1);
    MulMono(a, a, Power(a, e - 1), Power(b, e - 1));
    MulStep(a, b, Power(b, e - 1));
  }

  lemma PowerExponent(b: nat, i: nat, j: nat)
    requires b >= 1 && i <= j
    ensures Power(b, i) <= Power(b, j)
  {
    PowerAdd(b, i, j - i);
    PowerPositive(b, j - i);
    MulMono(Power(b, i), Power(b, i), 1, Power(b, j - i));
    assert Power(b, i) * 1 == Power(b, i);
  }

  /** One comparison of two powers bounds them at every length. */
  lemma Lift(a: nat, b: nat, i: nat, j: nat, n: nat, m: nat)
    requires b >= 1 && i >= 1 && Power(a, i) <= Power(b, j) && Times(j, n) <= Times(m, i)
    ensures Power(a, n) <= Power(b, m)
  {
    hide Power;
    PowerMul(a, n, i);
    PowerMul(a, i, n);
    assert Times(n, i) == Times(i, n);
    PowerBase(Power(a, i), Power(b, j), n);
    PowerMul(b, j, n);
    PowerExponent(b, Times(j, n), Times(m, i));
    PowerMul(b, m, i);
    if Power(b, m) < Power(a, n) {
      PowerBaseStrict(Power(b, m), Power(a, n), i);
    }
  }

  predicate AreDigits(s: seq<nat>, b: nat) {
    forall i | 0 <= i < |s| :: s[i] < b
  }

  function Num(s: seq<nat>, b: nat): nat {
    if s == [] then 0 else Num(s[..|s| - 1], b) * b + s[|s| - 1]
  }

  lemma {:induction false} NumBound(s: seq<nat>, b: nat)
    requires AreDigits(s, b)
    ensures Num(s, b) < Power(b, |s|)
  {
    if s != [] {
      var t := s[..|s| - 1];
      NumBound(t, b);
      MulStep(Num(t, b), Power(b, |t|), b);
    }
  }

  lemma {:induction false} NumAppend(s: seq<nat>, t: seq<nat>, b: nat)
    ensures Num(s + t, b) == Num(s, b) * Power(b, |t|) + Num(t, b)
  {
    if t == [] {
      assert s + t == s;
      assert Num(s, b) * Power(b, 0) == Num(s, b);
    } else {
      var u := t[..|t| - 1];
      NumAppend(s, u, b);
      assert (s + t)[..|s + t| - 1] == s + u;
      Shift(Num(s, b), Power(b, |u|), Num(u, b), b);
    }
  }

  lemma Shift(x: nat, p: nat, y: nat, b: nat)
    ensures (x * p + y) * b == x * (b * p) + y * b
  {
  }

  lemma NumCons(x: nat, s: seq<nat>, b: nat)
    ensures Num([x] + s, b) == x * Power(b, |s|) + Num(s, b)
  {
    NumAppend([x], s, b);
    assert [x][..0] == [];
    assert Num([x], b) == 0 * b + x;
  }

  lemma {:induction false} NumZeros(s: seq<nat>, b: nat)
    requires forall i | 0 <= i < |s| :: s[i] == 0
    ensures Num(s, b) == 0
  {
    if s != [] {
      NumZeros(s[..|s| - 1], b);
    }
  }

  lemma NumSkipZeros(z: seq<nat>, s: seq<nat>, b: nat)
    requires forall i | 0 <= i < |z| :: z[i] == 0
    ensures Num(z + s, b) == Num(s, b)
  {
    NumZeros(z, b);
    NumAppend(z, s, b);
  }

  /** The shortest digit string of a number. */
  function DigitsOf(v: nat, b: nat): (s: seq<nat>)
    requires b >= 2
    ensures AreDigits(s, b) && (s != [] ==> s[0] != 0)
    decreases v
  {
    if v == 0 then [] else
      Smaller(v, b);
      DigitsOf(Quot(v, b), b) + [Rem(v, b)]
  }

  lemma Smaller(v: nat, b: nat)
    requires v >= 1 && b >= 2
    ensures Quot(v, b) < v
    ensures Quot(v, b) == 0 ==> Rem(v, b) == v
  {
    hide Quot, Rem;
    var q := Quot(v, b);
    QuotRem(v, b);
    MulMono(q, q, 2, b);
  }

  lemma {:induction false} NumDigits(v: nat, b: nat)
    requires b >= 2
    ensures Num(DigitsOf(v, b), b) == v
    decreases v
  {
    hide Quot, Rem;
    if v > 0 {
      Smaller(v, b);
      NumDigits(Quot(v, b), b);
      var s := DigitsOf(v, b);
      assert s[..|s| - 1] == DigitsOf(Quot(v, b), b);
      QuotRem(v, b);
    }
  }

  /** A digit string without leading zero is the shortest one of its number. */
  lemma {:induction false} DigitsUnique(s: seq<nat>, b: nat)
    requires b >= 2 && AreDigits(s, b) && (s != [] ==> s[0] != 0)
    ensures DigitsOf(Num(s, b), b) == s
    ensures s != [] ==> Num(s, b) > 0
  {
    hide Quot, Rem;
    if s != [] {
      var t, d := s[..|s| - 1], s[|s| - 1];
      DigitsUnique(t, b);
      QuotIs(Num(t, b), b, d);
      if t != [] {
        MulMono(1, Num(t, b), 1, b);
      }
      assert t + [d] == s;
    }
  }
}
