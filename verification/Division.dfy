/** Facts about integer division by a variable. */
module Division {

  function Quot(x: nat, d: nat): nat
    requires d >= 1
  {
    x / d
  }

  function Rem(x: nat, d: nat): (r: nat)
    requires d >= 1
    ensures r < d
  {
    x % d
  }

  function Times(a: nat, b: nat): nat {
    a * b
  }

  lemma QuotRem(x: nat, d: nat)
    requires d >= 1
    ensures x == Quot(x, d) * d + Rem(x, d)
  {
  }

  lemma QuotIs(q: nat, d: nat, r: nat)
    requires r < d
    ensures Quot(q * d + r, d) == q && Rem(q * d + r, d) == r
  {
    DivUnique(q * d + r, d, q);
  }

  lemma MulStep(a: nat, b: nat, d: nat)
    requires a < b
    ensures a * d + d <= b * d
  {
    assert b * d == (a + 1) * d + (b - a - 1) * d;
  }

  lemma DivUnique(x: nat, d: nat, q: nat)
    requires d >= 1 && q * d <= x < q * d + d
    ensures x / d == q
  {
    var q' := x / d;
    assert q' * d <= x < q' * d + d;
    if q' < q {
      MulStep(q', q, d);
    } else if q < q' {
      MulStep(q, q', d);
    }
  }

  lemma DivTwice(x: nat, d: nat)
    requires d >= 1
    ensures x / (2 * d) == x / d / 2
  {
    var q := x / d / 2;
    var b := x / d % 2;
    assert x / d == 2 * q + b;
    assert x == (2 * q + b) * d + x % d;
    assert (2 * q + b) * d == q * (2 * d) + b * d;
    DivUnique(x, 2 * d, q);
  }

  lemma DivStep(x: nat, d: nat)
    requires d >= 1
    ensures (x + d) / d == x / d + 1
  {
    var q := x / d;
    assert x == q * d + x % d;
    assert (q + 1) * d == q * d + d;
    DivUnique(x + d, d, q + 1);
  }

  lemma DivPositive(x: nat, d: nat)
    requires d >= 1
    ensures x >= d <==> x / d >= 1
  {
    if x < d {
      DivUnique(x, d, 0);
    } else {
      DivStep(x - d, d);
    }
  }
}
