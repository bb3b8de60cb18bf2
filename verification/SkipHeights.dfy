/** The heights skip pointers lead to, and how many steps a walk over them takes. */
module SkipHeights {
  import opened Common
  import opened Words

  function InvertLowestOne(n: nat): (r: nat)
    ensures n > 0 ==> r < n
  {
    if n == 0 then 0 else And(n, n - 1)
  }

  lemma InvertStep(n: nat)
    ensures InvertLowestOne(2 * n) == 2 * InvertLowestOne(n) && InvertLowestOne(2 * n + 1) == 2 * n
  {
    hide And;
    AndSelf(n);
    AndStep(n, n, 1, 0);
    if n > 0 {
      AndStep(n, n - 1, 0, 1);
    }
  }

  /** What the name says: the lowest one bit goes, everything above it stays. */
  lemma {:induction false} ClearsLowestOne(n: nat) returns (k: nat, q: nat)
    requires n > 0
    ensures n == (2 * q + 1) * Pow2(k) && InvertLowestOne(n) == 2 * q * Pow2(k)
  {
    hide InvertLowestOne;
    InvertStep(n / 2);
    if n % 2 == 1 {
      k, q := 0, n / 2;
    } else {
      k, q := ClearsLowestOne(n / 2);
      k := k + 1;
      assert (2 * q + 1) * Pow2(k) == 2 * ((2 * q + 1) * Pow2(k - 1));
      assert 2 * q * Pow2(k) == 2 * (2 * q * Pow2(k - 1));
    }
  }

  function GetSkipHeight(height: nat): (s: nat)
    ensures height > 0 ==> s < height
  {
    if height < 2 then 0
    else if height % 2 == 1 then InvertLowestOne(InvertLowestOne(height - 1)) + 1
    else InvertLowestOne(height)
  }

  /** Where a walk to `h` goes next from `w`, when every block has its skip pointer. */
  function NextHeight(w: nat, h: nat): (r: nat)
    requires w > h
    ensures h <= r < w
  {
    var skip, skipPrev := GetSkipHeight(w), GetSkipHeight(w - 1);
    if skip == h || (skip > h && !(skipPrev < skip - 2 && skipPrev >= h)) then skip else w - 1
  }

  function Steps(w: nat, h: nat): nat
    requires w >= h
    decreases w
  {
    if w == h then 0 else 1 + Steps(NextHeight(w, h), h)
  }

  // ----- numbers in blocks of a power of two

  /** The number of one bits. */
  function Ones(x: nat): nat {
    if x == 0 then 0 else x % 2 + Ones(x / 2)
  }

  lemma OnesDouble(y: nat)
    ensures Ones(0) == 0 && Ones(2 * y) == Ones(y) && Ones(2 * y + 1) == Ones(y) + 1
  {}

  lemma {:induction false} OnesInvert(x: nat)
    requires x > 0
    ensures Ones(InvertLowestOne(x)) == Ones(x) - 1
  {
    hide InvertLowestOne, Ones;
    InvertStep(x / 2);
    OnesDouble(x / 2);
    if x % 2 == 0 {
      OnesInvert(x / 2);
      OnesDouble(InvertLowestOne(x / 2));
    }
  }

  lemma {:induction false} OnesWithin(x: nat, n: nat)
    requires x < Pow2(n)
    ensures Ones(x) <= n
  {
    if x != 0 {
      OnesWithin(x / 2, n - 1);
    }
  }

  function Base(q: nat, k: nat): nat {
    q * Pow2(k)
  }

  lemma BaseHalves(q: nat, n: nat)
    ensures Base(q, n + 1) == Base(2 * q, n)
    ensures Base(2 * q + 1, n) == Base(2 * q, n) + Pow2(n)
    ensures Base(q + 1, n + 1) == Base(2 * q + 2, n) == Base(2 * q + 1, n) + Pow2(n)
  {}

  lemma BaseDouble(q: nat, n: nat)
    requires n > 0
    ensures Base(q, n) == 2 * Base(q, n - 1)
  {}

  lemma {:induction false} InvertBase(q: nat, n: nat)
    ensures InvertLowestOne(Base(2 * q + 1, n)) == Base(2 * q, n)
  {
    hide InvertLowestOne, Base;
    if n == 0 {
      assert Base(2 * q + 1, 0) == 2 * q + 1 && Base(2 * q, 0) == 2 * q by {
        BaseUnit(2 * q);
        BaseUnit(2 * q + 1);
      }
      InvertStep(q);
    } else {
      BaseDouble(2 * q, n);
      BaseDouble(2 * q + 1, n);
      InvertBase(q, n - 1);
      InvertStep(Base(2 * q + 1, n - 1));
    }
  }

  lemma BaseUnit(q: nat)
    ensures Base(q, 0) == q
  {}

  lemma {:induction false} InvertAbove(q: nat, n: nat, x: nat)
    requires 0 < x < Pow2(n)
    ensures InvertLowestOne(Base(q, n) + x) == Base(q, n) + InvertLowestOne(x)
  {
    hide InvertLowestOne, Base;
    var b, y := Base(q, n - 1), x / 2;
    BaseDouble(q, n);
    InvertStep(b + y);
    InvertStep(y);
    if x % 2 == 0 {
      InvertAbove(q, n - 1, y);
    }
  }

  lemma BaseEight(q: nat, n: nat)
    requires n >= 3
    ensures Base(q, n) % 8 == 0
  {
    BaseDouble(q, n);
    BaseDouble(q, n - 1);
    BaseDouble(q, n - 2);
  }

  // ----- skips and steps from the upper half of a block to a target in its lower half

  /** The skip from `u + x`, where `u` starts the upper half of a block that `b` starts. */
  function SkipAt(u: nat, b: nat, x: nat): nat {
    if x == 0 then b
    else if x % 2 == 0 then u + InvertLowestOne(x)
    else if x == 1 then InvertLowestOne(b) + 1
    else if InvertLowestOne(x - 1) == 0 then b + 1
    else u + InvertLowestOne(InvertLowestOne(x - 1)) + 1
  }

  /** `u` and `b` start the halves of a block of size at least 16, and the skips from the upper half are known. */
  ghost predicate Halves(u: nat, b: nat, n: nat) {
    && u == b + Pow2(n) && Pow2(n) >= 8 && u % 8 == 0 && b % 8 == 0
    && (if b == 0 then InvertLowestOne(b) == 0 else InvertLowestOne(b) + 2 <= b)
    && GetSkipHeight(u) == b
    && forall x: nat | x < Pow2(n) :: GetSkipHeight(u + x) == SkipAt(u, b, x)
  }

  lemma SkipInUpper(q: nat, n: nat, x: nat)
    requires n >= 3 && x < Pow2(n)
    ensures GetSkipHeight(Base(2 * q + 1, n) + x) == SkipAt(Base(2 * q + 1, n), Base(2 * q, n), x)
  {
    hide InvertLowestOne, Base, Pow2;
    var u := Base(2 * q + 1, n);
    assert u >= 2 && (u + x) % 2 == x % 2 by {
      BasePositive(q, n);
      BaseDouble(2 * q + 1, n);
    }
    InvertBase(q, n);
    var y := if x % 2 == 1 then x - 1 else x;
    if y > 0 {
      InvertAbove(2 * q + 1, n, y);
      var z := InvertLowestOne(y);
      if z > 0 {
        InvertAbove(2 * q + 1, n, z);
      }
    }
  }

  lemma SkipAtZero(u: nat, b: nat)
    ensures SkipAt(u, b, 0) == b
  {}

  lemma BasePositive(q: nat, n: nat)
    requires n >= 1
    ensures Base(2 * q + 1, n) >= 2
  {
    BaseHalves(q, n);
  }

  lemma BlockHalves(q: nat, n: nat)
    requires n >= 3
    ensures Halves(Base(2 * q + 1, n), Base(2 * q, n), n)
  {
    hide Base, InvertLowestOne, GetSkipHeight, SkipAt;
    var u, b := Base(2 * q + 1, n), Base(2 * q, n);
    BaseHalves(q, n);
    BaseEight(2 * q + 1, n);
    BaseEight(2 * q, n);
    EightFits(n);
    InvertStep(b / 2);
    assert InvertLowestOne(0) == 0 by {
      InvertStep(0);
    }
    assert GetSkipHeight(u) == b by {
      SkipInUpper(q, n, 0);
      assert SkipAt(u, b, 0) == b by {
        SkipAtZero(u, b);
      }
    }
    forall x: nat | x < Pow2(n) ensures GetSkipHeight(u + x) == SkipAt(u, b, x) {
      SkipInUpper(q, n, x);
    }
  }

  lemma {:induction false} EightFits(n: nat)
    requires n >= 3
    ensures Pow2(n) >= 8
  {
    if n > 3 {
      EightFits(n - 1);
    }
  }

  /** From the start of the upper half the walk is in the lower half at once. */
  lemma FromMiddle(u: nat, b: nat, n: nat, h: nat)
    requires Halves(u, b, n) && b <= h < u
    ensures NextHeight(u, h) == if h == b then b else u - 1
  {
    hide GetSkipHeight, InvertLowestOne, SkipAt;
  }

  /** From an odd height the walk clears two bits, or leaves the upper half, or goes on to the height below. */
  lemma FromOdd(u: nat, b: nat, n: nat, x: nat, h: nat)
    requires Halves(u, b, n) && b <= h < u && x < Pow2(n) && x % 2 == 1
    ensures var r := NextHeight(u + x, h);
            if x > 1 && InvertLowestOne(x - 1) > 0 then r == u + InvertLowestOne(InvertLowestOne(x - 1)) + 1
            else if x > 1 && b + 1 >= h then r == b + 1
            else if x == 1 && b == 0 && h <= 1 then r == 1
            else r == u + x - 1
  {
    hide InvertLowestOne, GetSkipHeight;
    assert GetSkipHeight(u + x) == SkipAt(u, b, x);
    assert GetSkipHeight(u + (x - 1)) == SkipAt(u, b, x - 1);
  }

  /** The height of a single bit is left for the middle, unless the block's second height is still above. */
  lemma FromSingle(u: nat, b: nat, n: nat, y: nat, h: nat)
    requires Halves(u, b, n) && b + 1 < h < u && 0 < y < Pow2(n) && y % 2 == 0 && InvertLowestOne(y) == 0
    ensures NextHeight(u + y, h) == u
  {
    hide InvertLowestOne, GetSkipHeight;
    assert GetSkipHeight(u + y) == SkipAt(u, b, y);
    assert GetSkipHeight(u + (y - 1)) == SkipAt(u, b, y - 1);
  }

  // ----- how many steps

  /** The worst case from an odd height in a block of size 2^k, three bits and up. */
  function OddBound(k: nat): nat {
    if k <= 3 then 4 else OddBound(k - 1) + (k - 1) / 2 + 2
  }

  /** The worst case from any height. */
  function Bound(k: nat): nat {
    if k <= 3 then 4 else OddBound(k - 1) + Max(k - 3, k / 2 + 2)
  }

  lemma StepOnce(w: nat, h: nat)
    requires w > h
    ensures Steps(w, h) == 1 + Steps(NextHeight(w, h), h)
  {}

  /** The next step inside a block of eight heights. */
  function NextInEight(q: nat, r: nat, t: nat): nat
    requires t < r < 8
  {
    if r == 7 then (if t <= 1 then 1 else 6)
    else if r == 6 then (if t == 5 || (q == 0 && t <= 1) then 5 else 4)
    else if r % 2 == 1 && q == 0 && 1 < r && t <= 1 then 1
    else if r % 2 == 0 && t == 0 then 0
    else r - 1
  }

  lemma SkipsInEight(q: nat)
    ensures var out := InvertLowestOne(8 * q) + 1;
            && (if q == 0 then out == 1 else out < 8 * q && GetSkipHeight(8 * q + 1) < 8 * q)
            && GetSkipHeight(8 * q + 2) == 8 * q == GetSkipHeight(8 * q + 4)
            && GetSkipHeight(8 * q + 3) == out == GetSkipHeight(8 * q + 5)
            && GetSkipHeight(8 * q + 6) == 8 * q + 4 && GetSkipHeight(8 * q + 7) == 8 * q + 1
  {
    hide InvertLowestOne;
    InvertStep(4 * q);
    InvertStep(4 * q + 1);
    InvertStep(4 * q + 2);
    InvertStep(4 * q + 3);
    InvertStep(2 * q);
    InvertStep(2 * q + 1);
    InvertStep(q);
    InvertStep(0);
  }

  lemma NextInEightIs(q: nat, r: nat, t: nat)
    requires t < r < 8
    ensures NextHeight(8 * q + r, 8 * q + t) == 8 * q + NextInEight(q, r, t)
  {
    hide GetSkipHeight, InvertLowestOne;
    SkipsInEight(q);
    var w := 8 * q + r;
    assert GetSkipHeight(w - 1) == GetSkipHeight(8 * q + (r - 1));
    if
    case r == 1 =>
    case r == 2 =>
    case r == 3 =>
    case r == 4 =>
    case r == 5 =>
    case r == 6 =>
    case r == 7 =>
  }

  lemma StepsInEight(q: nat, r: nat, t: nat)
    requires t <= r < 8
    ensures Steps(8 * q + r, 8 * q + t) == if r == t then 0 else 1 + Steps(8 * q + NextInEight(q, r, t), 8 * q + t)
  {
    hide NextHeight;
    if r > t {
      NextInEightIs(q, r, t);
      StepOnce(8 * q + r, 8 * q + t);
    }
  }

  lemma InFour(q: nat, r: nat, t: nat)
    requires t <= r <= 4
    ensures Steps(8 * q + r, 8 * q + t) <= r - t && (t == 0 ==> Steps(8 * q + r, 8 * q + t) <= 1 + r % 2)
    decreases r
  {
    hide Steps;
    StepsInEight(q, r, t);
    if r > t {
      InFour(q, NextInEight(q, r, t), t);
    }
  }

  lemma InEight(q: nat, r: nat, t: nat)
    requires t <= r < 8
    ensures Steps(8 * q + r, 8 * q + t) <= 4 && (r == 6 && t >= 2 ==> Steps(8 * q + r, 8 * q + t) <= 3)
    ensures r == 5 && q == 0 && t <= 1 ==> Steps(8 * q + r, 8 * q + t) <= 2
    ensures r == t ==> Steps(8 * q + r, 8 * q + t) == 0
    decreases r
  {
    hide Steps;
    StepsInEight(q, r, t);
    if r <= 4 {
      InFour(q, r, t);
    } else if r > t {
      var r' := NextInEight(q, r, t);
      if r' <= 4 {
        InFour(q, r', t);
      } else {
        InEight(q, r', t);
      }
    }
  }

  lemma ThroughMiddle(u: nat, b: nat, n: nat, h: nat)
    requires Halves(u, b, n) && b <= h < u
    ensures Steps(u, h) == if h == b then 1 else 1 + Steps(u - 1, h)
  {
    hide Halves, NextHeight;
    FromMiddle(u, b, n, h);
    StepOnce(u, h);
    if h == b {
      assert Steps(b, h) == 0;
    }
  }

  /** Clearing two bits of the even part of an odd number. */
  function ClearTwo(x: nat): (y: nat)
    requires x > 1 && InvertLowestOne(x - 1) > 0
    ensures y < x
  {
    InvertLowestOne(InvertLowestOne(x - 1)) + 1
  }

  lemma OnesOdd(x: nat)
    requires x % 2 == 1
    ensures Ones(x) == Ones(x - 1) + 1
    ensures x > 1 && InvertLowestOne(x - 1) == 0 ==> Ones(x) == 2
    ensures x > 1 && InvertLowestOne(x - 1) > 0 ==> ClearTwo(x) % 2 == 1 && Ones(x) == Ones(ClearTwo(x)) + 2
  {
    hide InvertLowestOne, Ones;
    var m := x - 1;
    OnesDouble(m / 2);
    if m > 0 {
      OnesInvert(m);
      var y := InvertLowestOne(m);
      InvertStep(m / 2);
      if y > 0 {
        OnesInvert(y);
        InvertStep(y / 2);
        OnesDouble(InvertLowestOne(y / 2));
      }
    }
  }

  /** From an odd height the walk reaches the lower half after a step for every two bits and at most two more. */
  lemma {:induction false} OddUpper(u: nat, b: nat, n: nat, x: nat, h: nat)
    requires Halves(u, b, n) && b <= h < u && x < Pow2(n) && x % 2 == 1
    ensures Steps(u + x, h) <= Ones(x) / 2 + 2 + Steps(u - 1, h)
    ensures h > b + 1 ==> Steps(u + x, h) == Ones(x) / 2 + 2 + Steps(u - 1, h)
    decreases x
  {
    hide Halves, NextHeight, InvertLowestOne, Ones, Steps;
    FromOdd(u, b, n, x, h);
    StepOnce(u + x, h);
    OnesOdd(x);
    if x > 1 && InvertLowestOne(x - 1) > 0 {
      OddUpper(u, b, n, ClearTwo(x), h);
    } else if NextHeight(u + x, h) == u + x - 1 {
      if x > 1 {
        FromSingle(u, b, n, x - 1, h);
        StepOnce(u + x - 1, h);
      } else {
        OnesDouble(0);
      }
      ThroughMiddle(u, b, n, h);
    } else {
      NextToLast(b, h);
    }
  }

  lemma NextToLast(b: nat, h: nat)
    requires b <= h <= b + 1
    ensures Steps(b + 1, h) <= 1
  {}

  /** From an odd height, to any target in the same block. */
  lemma {:induction false} OddSteps(q: nat, k: nat, w: nat, h: nat)
    requires k >= 3 && w % 2 == 1 && Base(q, k) <= h <= w < Base(q + 1, k)
    ensures Steps(w, h) <= OddBound(k)
    decreases k
  {
    hide Steps, Base, Ones, Halves, Pow2;
    if k == 3 {
      BaseThree(q);
      InEight(q, w - 8 * q, h - 8 * q);
    } else {
      var n := k - 1;
      var u, b := Base(2 * q + 1, n), Base(2 * q, n);
      BaseHalves(q, n);
      if w < u {
        OddSteps(2 * q, n, w, h);
      } else if h >= u {
        OddSteps(2 * q + 1, n, w, h);
      } else {
        BlockHalves(q, n);
        MiddleEven(u, b, n, w);
        OddUpper(u, b, n, w - u, h);
        OnesWithin(w - u, n);
        OddSteps(2 * q, n, u - 1, h);
      }
    }
  }

  lemma MiddleEven(u: nat, b: nat, n: nat, w: nat)
    requires Halves(u, b, n) && w >= u
    ensures b < u && (w - u) % 2 == w % 2 && (u - 1) % 2 == 1
  {
    hide GetSkipHeight, SkipAt, InvertLowestOne, Pow2;
    var y := u / 8;
    assert u == 8 * y;
    Parity(u, 4 * y, w);
  }

  lemma Parity(u: nat, v: nat, w: nat)
    requires u == 2 * v && w >= u > 0
    ensures (w - u) % 2 == w % 2 && (u - 1) % 2 == 1
  {
    var c := Halve(w);
    LastBit(c - v, w % 2);
    LastBit(v - 1, 1);
    assert w - u == 2 * (c - v) + w % 2;
  }

  lemma LastBit(q: nat, r: nat)
    requires r <= 1
    ensures (2 * q + r) % 2 == r
  {}

  lemma BaseThree(q: nat)
    ensures Base(q, 3) == 8 * q && Base(q + 1, 3) == 8 * q + 8
  {
    assert Pow2(3) == 8;
  }

  /** The low three bits. */
  lemma InvertLow(y: nat)
    ensures InvertLowestOne(8 * y + 6) == 8 * y + 4
    ensures InvertLowestOne(8 * y + 4) == 8 * y == InvertLowestOne(8 * y + 2)
    ensures InvertLowestOne(8 * y) == 8 * InvertLowestOne(y) && InvertLowestOne(4 * y) == 4 * InvertLowestOne(y)
    ensures InvertLowestOne(4 * y + 2) == 4 * y
  {
    hide InvertLowestOne;
    InvertStep(4 * y + 3);
    InvertStep(4 * y + 2);
    InvertStep(4 * y + 1);
    InvertStep(4 * y);
    InvertStep(2 * y + 1);
    InvertStep(2 * y);
    InvertStep(y);
  }

  lemma EightInverts(x: nat)
    requires 0 < x && x % 8 == 0
    ensures x >= 8 && Even(x) && InvertLowestOne(x) + 8 <= x && InvertLowestOne(x) % 8 == 0
    ensures InvertLowestOne(x - 2) == x - 4 && InvertLowestOne(x - 4) == x - 8
  {
    hide InvertLowestOne;
    var y := x / 8;
    assert x == 8 * y;
    EvenDouble(4 * y);
    InvertLow(y);
    InvertLow(y - 1);
    EightTimes(InvertLowestOne(y));
  }

  /** A multiple of eight loses its lowest bit. */
  lemma FromEight(u: nat, b: nat, n: nat, x: nat, h: nat)
    requires Halves(u, b, n) && b <= h < u && 0 < x < Pow2(n) && x % 8 == 0
    ensures NextHeight(u + x, h) == u + InvertLowestOne(x) && InvertLowestOne(x) % 8 == 0
  {
    hide InvertLowestOne, GetSkipHeight;
    EightInverts(x);
    assert GetSkipHeight(u + x) == SkipAt(u, b, x);
    assert GetSkipHeight(u + (x - 1)) == SkipAt(u, b, x - 1);
  }

  lemma {:induction false} EightUpper(u: nat, b: nat, n: nat, x: nat, h: nat)
    requires Halves(u, b, n) && b <= h < u && x < Pow2(n) && x % 8 == 0
    ensures Steps(u + x, h) <= Ones(x) + 1 + Steps(u - 1, h)
    ensures h > b ==> Steps(u + x, h) == Ones(x) + 1 + Steps(u - 1, h)
    decreases x
  {
    hide Halves, NextHeight, InvertLowestOne, Ones, Steps;
    if x == 0 {
      OnesDouble(0);
      ThroughMiddle(u, b, n, h);
    } else {
      FromEight(u, b, n, x, h);
      StepOnce(u + x, h);
      OnesInvert(x);
      EightUpper(u, b, n, InvertLowestOne(x), h);
    }
  }

  lemma EvenSkips(u: nat, b: nat, n: nat, x: nat, h: nat, z: nat)
    requires Halves(u, b, n) && b <= h < u && x < Pow2(n) && Even(x) && 2 <= x && z < x
    requires InvertLowestOne(x) == z
    requires if x == z + 2 then InvertLowestOne(z) == 0 || InvertLowestOne(InvertLowestOne(z)) + 4 <= z
             else x == z + 4 && InvertLowestOne(x - 2) == z && (z == 0 || InvertLowestOne(z) + 4 <= z)
    ensures var r := NextHeight(u + x, h);
            r == u + x - 1 || (r == u + z && (z == 0 || (h > b + 1 && InvertLowestOne(z) == 0)))
  {
    hide InvertLowestOne, GetSkipHeight;
    assert GetSkipHeight(u + x) == SkipAt(u, b, x);
    assert GetSkipHeight(u + (x - 1)) == SkipAt(u, b, x - 1);
  }

  predicate Even(x: nat) {
    x % 2 == 0
  }

  lemma Halve(x: nat) returns (y: nat)
    ensures x == 2 * y + x % 2 && x % 2 <= 1
  {
    y := x / 2;
  }

  lemma EvenDouble(y: nat)
    ensures Even(2 * y)
  {}

  lemma EightTimes(y: nat)
    ensures (8 * y) % 8 == 0
  {}

  lemma EvenCases(x: nat) returns (y: nat)
    requires x % 2 == 0 && x % 8 != 0
    ensures x == 4 * y + 2 || x == 8 * y + 4
    ensures Even(x) && Even(4 * y) && Even(8 * y)
  {
    var h := Halve(x);
    var g := Halve(h);
    var f := Halve(g);
    EightTimes(f);
    y := if x == 4 * g + 2 then g else f;
    EvenDouble(2 * y);
    EvenDouble(4 * y);
  }

  lemma FromTwo(u: nat, b: nat, n: nat, x: nat, y: nat, h: nat)
    requires Halves(u, b, n) && b <= h < u && x < Pow2(n) && x == 4 * y + 2 && Even(x)
    ensures InvertLowestOne(x) == 4 * y
    ensures var r := NextHeight(u + x, h);
            r == u + x - 1 || (r == u + 4 * y && (y == 0 || (h > b + 1 && InvertLowestOne(4 * y) == 0)))
  {
    hide *;
    InvertLow(y);
    InvertLow(InvertLowestOne(y));
    EvenSkips(u, b, n, x, h, 4 * y);
  }

  lemma FromFour(u: nat, b: nat, n: nat, x: nat, y: nat, h: nat)
    requires Halves(u, b, n) && b <= h < u && x < Pow2(n) && x == 8 * y + 4 && Even(x)
    ensures InvertLowestOne(x) == 8 * y
    ensures var r := NextHeight(u + x, h);
            r == u + x - 1 || (r == u + 8 * y && (y == 0 || (h > b + 1 && InvertLowestOne(8 * y) == 0)))
  {
    hide *;
    InvertLow(y);
    EvenSkips(u, b, n, x, h, 8 * y);
  }

  /** Another even height is left for the odd one below, or for the middle in at most two steps. */
  lemma FromEven(u: nat, b: nat, n: nat, x: nat, h: nat)
    requires Halves(u, b, n) && b <= h < u && x < Pow2(n) && x % 2 == 0 && x % 8 != 0
    ensures var r, z := NextHeight(u + x, h), InvertLowestOne(x);
            || r == u + x - 1
            || (r == u + z && Even(z) && (z == 0 || (h > b + 1 && InvertLowestOne(z) == 0)))
  {
    hide *;
    var y := EvenCases(x);
    if x == 4 * y + 2 {
      FromTwo(u, b, n, x, y, h);
    } else {
      FromFour(u, b, n, x, y, h);
    }
  }

  lemma Pow2Eighth(n: nat)
    requires n >= 3
    ensures Pow2(n) == 4 * Pow2(n - 2) == 8 * Pow2(n - 3)
  {
    assert Pow2(n) == 2 * Pow2(n - 1) == 4 * Pow2(n - 2);
  }

  lemma OnesEight(y: nat, n: nat)
    requires 8 * y < Pow2(n) && n >= 3
    ensures Ones(8 * y) <= n - 3
  {
    hide Ones, Pow2;
    Pow2Eighth(n);
    OnesWithin(y, n - 3);
    OnesDouble(y);
    OnesDouble(2 * y);
    OnesDouble(4 * y);
  }

  lemma OnesTwo(y: nat, n: nat)
    requires 4 * y + 2 < Pow2(n) && n >= 3
    ensures Ones(4 * y + 1) <= n - 1
  {
    hide Ones, Pow2;
    Pow2Eighth(n);
    OnesWithin(y, n - 2);
    OnesDouble(y);
    OnesDouble(2 * y);
  }

  lemma OnesFour(y: nat, n: nat)
    requires 8 * y + 4 < Pow2(n) && n >= 3
    ensures Ones(8 * y + 3) <= n - 1
  {
    hide Ones, Pow2;
    Pow2Eighth(n);
    OnesWithin(y, n - 3);
    OnesDouble(y);
    OnesDouble(2 * y);
    OnesDouble(4 * y + 1);
  }

  lemma OnesLow(x: nat, n: nat)
    requires x < Pow2(n) && x % 2 == 0 && n >= 3
    ensures x % 8 == 0 ==> Ones(x) <= n - 3
    ensures x % 8 != 0 ==> Ones(x - 1) <= n - 1
  {
    hide *;
    if x % 8 == 0 {
      var y := x / 8;
      assert x == 8 * y;
      OnesEight(y, n);
    } else {
      var y := EvenCases(x);
      if x == 4 * y + 2 {
        OnesTwo(y, n);
      } else {
        OnesFour(y, n);
      }
    }
  }

  lemma EvenUpper(u: nat, b: nat, n: nat, x: nat, h: nat)
    requires Halves(u, b, n) && b <= h < u && x < Pow2(n) && x % 2 == 0 && n >= 3
    ensures Steps(u + x, h) <= Max(n - 2, (n + 1) / 2 + 2) + Steps(u - 1, h)
  {
    hide Halves, NextHeight, InvertLowestOne, Ones, Steps;
    OnesLow(x, n);
    if x % 8 == 0 {
      EightUpper(u, b, n, x, h);
    } else {
      FromEven(u, b, n, x, h);
      StepOnce(u + x, h);
      if NextHeight(u + x, h) == u + x - 1 {
        OddUpper(u, b, n, x - 1, h);
      } else {
        var z := InvertLowestOne(x);
        if z > 0 {
          FromSingle(u, b, n, z, h);
          StepOnce(u + z, h);
        }
        ThroughMiddle(u, b, n, h);
      }
    }
  }

  lemma BoundGrows(k: nat)
    requires k >= 4
    ensures Bound(k - 1) <= Bound(k) && OddBound(k) <= Bound(k)
    ensures Bound(k) == OddBound(k - 1) + Max(k - 3, k / 2 + 2)
  {
    if k > 4 {
      assert OddBound(k - 1) == OddBound(k - 2) + (k - 2) / 2 + 2;
    }
  }

  lemma BoundThree()
    ensures Bound(3) == 4
  {}

  /** From any height to any target in the same block of size 2^k. */
  lemma {:induction false} BlockSteps(q: nat, k: nat, w: nat, h: nat)
    requires k >= 3 && Base(q, k) <= h <= w < Base(q + 1, k)
    ensures Steps(w, h) <= Bound(k)
    decreases k
  {
    hide Steps, Base, Halves, Bound, OddBound, Pow2, Max;
    if k == 3 {
      BoundThree();
      BaseThree(q);
      InEight(q, w - 8 * q, h - 8 * q);
    } else if w % 2 == 1 {
      BoundGrows(k);
      OddSteps(q, k, w, h);
    } else {
      var n := k - 1;
      var u, b := Base(2 * q + 1, n), Base(2 * q, n);
      BaseHalves(q, n);
      BoundGrows(k);
      if w < u {
        BlockSteps(2 * q, n, w, h);
      } else if h >= u {
        BlockSteps(2 * q + 1, n, w, h);
      } else {
        BlockHalves(q, n);
        MiddleEven(u, b, n, w);
        EvenUpper(u, b, n, w - u, h);
        OddSteps(2 * q, n, u - 1, h);
      }
    }
  }

  // ----- the bounds

  /** Heights of k bits: the walk takes at most Bound(k) steps, whatever its target. */
  lemma StepsBounded(k: nat, w: nat, h: nat)
    requires k >= 3 && h <= w < Pow2(k)
    ensures Steps(w, h) <= Bound(k)
  {
    assert Base(0, k) == 0 && Base(1, k) == Pow2(k);
    BlockSteps(0, k, w, h);
  }

  lemma {:induction false} OddBoundClosed(k: nat)
    requires k >= 3
    ensures OddBound(k) == 2 * k - 3 + (k - 1) * (k - 1) / 4
  {
    if k > 3 {
      OddBoundClosed(k - 1);
      QuarterSquare((k - 1) / 2);
    }
  }

  lemma QuarterSquare(m: nat)
    ensures (2 * m) * (2 * m) / 4 == m * m && (2 * m + 1) * (2 * m + 1) / 4 == m * m + m
    ensures (2 * m - 1) * (2 * m - 1) / 4 == m * m - m
  {
    assert (2 * m) * (2 * m) == 4 * (m * m);
    assert (2 * m + 1) * (2 * m + 1) == 4 * (m * m + m) + 1;
    assert (2 * m - 1) * (2 * m - 1) == 4 * (m * m - m) + 1;
  }

  /** The bound grows as a quarter of the square of the number of bits. */
  lemma BoundClosed(k: nat)
    requires k >= 10
    ensures Bound(k) == 3 * k - 8 + (k - 2) * (k - 2) / 4
  {
    OddBoundClosed(k - 1);
  }

  /** From a height of only ones the walk to height 2 meets the bound of odd heights. */
  lemma {:induction false} OddBoundMet(k: nat)
    requires k >= 3
    ensures Pow2(k) >= 8 && Steps(Pow2(k) - 1, 2) == OddBound(k)
  {
    hide Steps, Halves, Ones, Pow2;
    if k == 3 {
      SevenToTwo();
    } else {
      var n := k - 1;
      OddBoundMet(n);
      FirstHalves(n);
      OnesAll(n);
      AllOnesOdd(n);
      Pow2Double(n);
      OddUpper(Pow2(n), 0, n, Pow2(n) - 1, 2);
    }
  }

  lemma AllOnesOdd(n: nat)
    requires n >= 1
    ensures (Pow2(n) - 1) % 2 == 1
  {
    Pow2Double(n - 1);
  }

  lemma SevenToTwo()
    ensures Pow2(3) == 8 && Steps(7, 2) == 4
  {
    hide NextHeight;
    NextInEightIs(0, 7, 2);
    NextInEightIs(0, 6, 2);
    NextInEightIs(0, 4, 2);
    NextInEightIs(0, 3, 2);
  }

  lemma FirstHalves(n: nat)
    requires n >= 3
    ensures Halves(Pow2(n), 0, n)
  {
    BlockHalves(0, n);
    assert Base(1, n) == Pow2(n) && Base(0, n) == 0;
  }

  lemma {:induction false} OnesAll(n: nat)
    ensures Ones(Pow2(n) - 1) == n
  {
    if n > 0 {
      OnesAll(n - 1);
      assert (Pow2(n) - 1) / 2 == Pow2(n - 1) - 1;
    }
  }

  /** The bound is met: from 2^k - 8 to height 2 the walk takes exactly Bound(k) steps. */
  lemma BoundMet(k: nat)
    requires k >= 10
    ensures Pow2(k) >= 16 && Steps(Pow2(k) - 8, 2) == Bound(k)
  {
    hide Steps, Halves, Ones, Pow2, OddBound;
    var n := k - 1;
    OddBoundMet(n);
    FirstHalves(n);
    OnesEights(n);
    Pow2Double(n);
    EightUpper(Pow2(n), 0, n, Pow2(n) - 8, 2);
  }

  lemma Pow2Double(n: nat)
    ensures Pow2(n + 1) == 2 * Pow2(n)
  {}

  lemma OnesEights(n: nat)
    requires n >= 3
    ensures Pow2(n) >= 8 && Pow2(n) % 8 == 0 && Ones(Pow2(n) - 8) == n - 3
  {
    hide Ones;
    OnesAll(n - 3);
    var y: nat := Pow2(n - 3) - 1;
    assert Pow2(n) == 2 * Pow2(n - 1) == 4 * Pow2(n - 2) == 8 * Pow2(n - 3);
    OnesDouble(y);
    OnesDouble(2 * y);
    OnesDouble(4 * y);
  }

  lemma EighteenBits()
    ensures Pow2(18) == 262144 && Bound(18) == 110 && OddBound(18) == 105
  {
    hide Bound, OddBound;
    Pow2Add(9, 9);
    assert Pow2(9) == 512;
    BoundClosed(18);
    OddBoundClosed(18);
    assert (18 - 2) * (18 - 2) / 4 == 64 && (18 - 1) * (18 - 1) / 4 == 72;
  }

  /** Going back up to 2^18 blocks takes at most 110 steps, and some walk takes that many. */
  lemma AtMost110(w: nat, h: nat)
    requires h <= w <= 262144
    ensures Steps(w, h) <= 110 && Steps(262136, 2) == 110
  {
    hide Steps, Halves, Pow2, Bound, OddBound;
    EighteenBits();
    BoundMet(18);
    if w < 262144 {
      StepsBounded(18, w, h);
    } else if h < w {
      FirstHalves(18);
      ThroughMiddle(262144, 0, 18, h);
      assert Base(0, 18) == 0 && Base(1, 18) == 262144;
      OddSteps(0, 18, w - 1, h);
    } else {
      NextToLast(w - 1, w);
    }
  }
}
