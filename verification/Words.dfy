/** Little-endian sequences of 32-bit words and the numbers they stand for. */
module Words {
  import opened Common
  import opened Division

  const B: nat := 0x1_0000_0000
  const TWO64: nat := 0x1_0000_0000_0000_0000

  /** B to the power i. */
  function P(i: nat): (r: nat)
    ensures r >= 1
  {
    if i == 0 then 1 else B * P(i - 1)
  }

  lemma PNext(i: nat)
    ensures P(i + 1) == B * P(i)
  {
  }

  predicate AreWords(s: seq<nat>) {
    forall i | 0 <= i < |s| :: s[i] < B
  }

  function Val(s: seq<nat>): nat {
    if s == [] then 0 else Val(s[..|s| - 1]) + s[|s| - 1] * P(|s| - 1)
  }

  lemma ValStart(s: seq<nat>)
    ensures Val(s[..0]) == 0 && P(0) == 1
  {
  }

  lemma ValPrefix(s: seq<nat>, i: nat)
    requires i < |s|
    ensures Val(s[..i + 1]) == Val(s[..i]) + s[i] * P(i)
  {
    assert s[..i + 1][..i] == s[..i];
  }

  lemma {:induction false} ValBound(s: seq<nat>)
    requires AreWords(s)
    ensures Val(s) < P(|s|)
  {
    if s != [] {
      var n := |s| - 1;
      ValBound(s[..n]);
      MulLe(s[n], B - 1, P(n));
      assert (B - 1) * P(n) + P(n) == B * P(n);
    }
  }

  lemma MulLe(a: nat, b: nat, c: nat)
    requires a <= b
    ensures a * c <= b * c
  {
    assert b * c == a * c + (b - a) * c;
  }

  /** Changing one word changes the number by as many units of that place. */
  lemma {:induction false} ValUpdate(s: seq<nat>, k: nat, x: nat)
    requires k < |s|
    ensures Val(s[k := x]) + s[k] * P(k) == Val(s) + x * P(k)
  {
    var n := |s| - 1;
    if k == n {
      assert s[k := x][..n] == s[..n];
    } else {
      assert s[k := x][..n] == s[..n][k := x];
      ValUpdate(s[..n], k, x);
    }
  }

  lemma {:induction false} PAdd(i: nat, j: nat)
    ensures P(i + j) == P(i) * P(j)
  {
    if j == 0 {
      assert P(i) * P(0) == P(i);
    } else {
      PAdd(i, j - 1);
      assert P(i + j) == B * P(i + (j - 1));
      assert B * (P(i) * P(j - 1)) == P(i) * (B * P(j - 1));
    }
  }

  lemma {:induction false} ValSplit(s: seq<nat>, i: nat)
    requires i <= |s|
    ensures Val(s) == Val(s[..i]) + P(i) * Val(s[i..])
    decreases |s|
  {
    if i == |s| {
      assert s[..i] == s && s[i..] == [];
    } else {
      var n := |s| - 1;
      ValSplit(s[..n], i);
      assert s[..n][..i] == s[..i] && s[..n][i..] == s[i..n];
      assert s[i..][..n - i] == s[i..n] && s[i..][n - i] == s[n];
      Distribute(P(i), Val(s[i..n]), s[n], P(n - i));
      PAdd(i, n - i);
    }
  }

  lemma Distribute(p: nat, m: nat, w: nat, q: nat)
    ensures p * (m + w * q) == p * m + w * (p * q)
  {
    assert p * (w * q) == w * (p * q);
  }

  lemma {:induction false} ValZero(s: seq<nat>)
    requires forall i | 0 <= i < |s| :: s[i] == 0
    ensures Val(s) == 0
  {
    if s != [] {
      ValZero(s[..|s| - 1]);
    }
  }

  lemma {:induction false} ValPositive(s: seq<nat>, i: nat)
    requires i < |s| && s[i] > 0
    ensures Val(s) >= P(i)
  {
    hide Val, P;
    ValSplit(s, i);
    ValHead(s[i..]);
    MulLe(1, Val(s[i..]), P(i));
  }

  lemma {:induction false} ValHead(s: seq<nat>)
    requires s != []
    ensures Val(s) >= s[0]
  {
    if |s| == 1 {
      assert s[..0] == [];
    } else {
      ValHead(s[..|s| - 1]);
    }
  }

  /** The word of a column sum that stays in its place. */
  function Lo(n: nat): (r: nat)
    ensures r < B
  {
    n % B
  }

  /** What a column sum carries into the next place. */
  function Hi(n: nat): nat {
    n / B
  }

  lemma LoHi(n: nat)
    ensures n == Lo(n) + Hi(n) * B
    ensures n < TWO64 ==> Hi(n) < B
  {
  }

  lemma Carry(n: nat, p: nat)
    ensures Lo(n) * p + Hi(n) * (B * p) == n * p
  {
    var lo, hi := Lo(n), Hi(n);
    LoHi(n);
    assert (lo + hi * B) * p == lo * p + hi * (B * p);
  }

  lemma {:induction false} Pow2Add(i: nat, j: nat)
    ensures Pow2(i + j) == Pow2(i) * Pow2(j)
  {
    if j == 0 {
      assert Pow2(i) * Pow2(0) == Pow2(i);
    } else {
      Pow2Add(i, j - 1);
      assert Pow2(i + j) == 2 * Pow2(i + (j - 1));
      assert 2 * (Pow2(i) * Pow2(j - 1)) == Pow2(i) * (2 * Pow2(j - 1));
    }
  }

  lemma Pow2Zero()
    ensures Pow2(0) == 1
  {
  }

  lemma Pow2of32()
    ensures Pow2(32) == B
  {
    assert Pow2(8) == 256;
    Pow2Add(8, 8);
    Pow2Add(16, 16);
  }

  lemma {:induction false} PIsPow2(i: nat)
    ensures P(i) == Pow2(32 * i)
  {
    if i > 0 {
      PIsPow2(i - 1);
      Pow2of32();
      Pow2Add(32, 32 * (i - 1));
    }
  }

  lemma {:induction false} Pow2Mono(i: nat, j: nat)
    requires i <= j
    ensures Pow2(i) <= Pow2(j)
  {
    if i < j {
      Pow2Mono(i, j - 1);
    }
  }

  function Shl(x: nat, s: nat): nat {
    x * Pow2(s)
  }

  function Shr(x: nat, s: nat): nat {
    Quot(x, Pow2(s))
  }

  /** Bitwise or. */
  function Or(x: nat, y: nat): nat
    decreases x + y
  {
    if x == 0 then y
    else if y == 0 then x
    else 2 * Or(x / 2, y / 2) + (if x % 2 == 1 || y % 2 == 1 then 1 else 0)
  }

  lemma OrStep(x: nat, y: nat, a: nat, b: nat)
    requires a <= 1 && b <= 1
    ensures Or(2 * x + a, 2 * y + b) == 2 * Or(x, y) + (if a == 1 || b == 1 then 1 else 0)
  {
  }

  /** Where no bit is set on both sides, or is addition. */
  lemma {:induction false} OrDisjoint(k: nat, y: nat, s: nat)
    requires y < Pow2(s)
    ensures Or(k * Pow2(s), y) == Or(y, k * Pow2(s)) == k * Pow2(s) + y
  {
    var x := k * Pow2(s);
    if x != 0 && y != 0 {
      var x' := k * Pow2(s - 1);
      assert x == 2 * x' by {
        assert k * (2 * Pow2(s - 1)) == 2 * (k * Pow2(s - 1));
      }
      OrDisjoint(k, y / 2, s - 1);
    }
  }

  /** Bitwise and. */
  function And(x: nat, y: nat): (r: nat)
    ensures r <= x && r <= y
  {
    if x == 0 || y == 0 then 0
    else 2 * And(x / 2, y / 2) + (if x % 2 == 1 && y % 2 == 1 then 1 else 0)
  }

  lemma AndStep(x: nat, y: nat, a: nat, b: nat)
    requires a <= 1 && b <= 1
    ensures And(2 * x + a, 2 * y + b) == 2 * And(x, y) + (if a == 1 && b == 1 then 1 else 0)
  {}

  lemma {:induction false} AndSelf(x: nat)
    ensures And(x, x) == x
  {
    if x != 0 {
      AndSelf(x / 2);
    }
  }
}
