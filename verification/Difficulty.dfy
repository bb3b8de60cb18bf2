/** Block proof, difficulty adjustment and the targets of a whole chain of headers. */
module Difficulty {
  import opened Common
  import opened Division
  import opened Words
  import opened ArithUint
  import opened ArithShift
  import opened ArithDivide
  import opened Compact
  import opened Pow

  // Block proof

  function BlockProof(bits: nat): nat {
    if Negative(bits) || Overflow(bits) || Decode(bits) == 0 then 0 else Quot(Pow2(256), Decode(bits) + 1)
  }

  /** A target that fits in 256 bits is never the largest 256-bit number. */
  lemma TargetNotMax(c: nat)
    requires !Overflow(c)
    ensures Decode(c) + 1 < Pow2(256)
    ensures Decode(c) % Pow2(256) == Decode(c)
  {
    hide Pow2, Shl, Shr, Overflow;
    var size, word := c / EXP, c % SIGN;
    OverflowExact(c);
    Literals();
    Pow2Twice(255);
    if size <= 3 {
      ShrAtMost(word, 8 * (3 - size));
      Pow2Mono(24, 256);
    } else {
      ShlNext(word, 8 * (size - 3) - 1);
    }
    Unchanged(Decode(c), Pow2(256));
  }

  /** The quotient the code can represent, plus one, is the quotient it wants. */
  lemma ProofIdentity(t: nat, m: nat)
    requires 1 <= t && t + 1 < m
    ensures (m - 1 - t) / (t + 1) + 1 == Quot(m, t + 1) < m
  {
    DivStep(m - 1 - t, t + 1);
    FloorBounds(m, t + 1);
    if Quot(m, t + 1) >= m {
      MulLe(m, Quot(m, t + 1), t + 1);
      MulLe(2, t + 1, m);
    }
  }

  method IsZero(pn: array<nat>) returns (zero: bool)
    requires AreWords(pn[..])
    ensures zero <==> Val(pn[..]) == 0
  {
    hide Val, P;
    var i := pn.Length - 1;
    while i >= 0
      invariant -1 <= i < pn.Length
      invariant forall j | i < j < pn.Length :: pn[j] == 0
    {
      if pn[i] != 0 {
        ValPositive(pn[..], i);
        return false;
      }
      i := i - 1;
    }
    ValZero(pn[..]);
    return true;
  }

  /** The expected number of hashes behind a block with these bits. */
  method GetBlockProof(bits: nat) returns (work: array<nat>)
    requires bits < B
    ensures IsUint256(work[..]) && Val(work[..]) == BlockProof(bits)
  {
    hide Val, P, Pow2, Negative, Overflow, Decode;
    PIsPow2(8);
    var target := new nat[8];
    var negative, overflow := SetCompact(target, bits);
    if !overflow {
      TargetNotMax(bits);
    }
    var zero := IsZero(target);
    if negative || overflow || zero {
      work := new nat[8];
      Clear(work);
      return;
    }
    ghost var t := Decode(bits);
    ProofIdentity(t, Pow2(256));
    var one := new nat[8];
    Assign64(one, 1);
    work := Not(target);
    AddAssign(target, one);
    Unchanged(t + 1, Pow2(256));
    var ok := DivAssign(work, target);
    AddAssign(work, one);
    Unchanged(Quot(Pow2(256), t + 1), Pow2(256));
  }

  // Difficulty adjustment

  datatype Params = Params(powLimit: nat, timespan: nat, spacing: nat, allowMinDifficulty: bool, noRetargeting: bool) {
    ghost predicate Valid() {
      powLimit < Pow2(256) && 1 <= spacing <= timespan && 4 * timespan < TWO64 / 2
    }

    function Interval(): (n: nat)
      requires 1 <= spacing <= timespan
      ensures n >= 1
    {
      DivPositive(timespan, spacing);
      timespan / spacing
    }
  }

  function Clamp(actual: int, timespan: nat): nat {
    if actual < timespan / 4 then timespan / 4 else if actual > 4 * timespan then 4 * timespan else actual
  }

  /** The target after one adjustment, with the code's 32-bit factor and 256-bit product. */
  function NextTarget(previous: nat, span: nat, timespan: nat, limit: nat): nat
    requires timespan >= 1
  {
    Min(limit, Quot((previous * (span % B)) % Pow2(256), timespan))
  }

  function NextBits(bits: nat, actual: int, p: Params): nat
    requires p.timespan >= 1
  {
    if p.noRetargeting then bits
    else Encode(NextTarget(Decode(bits) % Pow2(256), Clamp(actual, p.timespan), p.timespan, p.powLimit), false)
  }

  method CalculateNextWorkRequired(bits: nat, lastTime: int, firstTime: int, limit: array<nat>, p: Params)
    returns (next: nat)
    requires p.Valid() && IsUint256(limit[..]) && Val(limit[..]) == p.powLimit && bits < B
    ensures next == NextBits(bits, lastTime - firstTime, p)
  {
    hide Val, P, Pow2, Encode, Decode;
    if p.noRetargeting {
      return bits;
    }
    PIsPow2(8);
    var actual := lastTime - firstTime;
    if actual < p.timespan / 4 {
      actual := p.timespan / 4;
    }
    if actual > p.timespan * 4 {
      actual := p.timespan * 4;
    }
    var bnNew := new nat[8];
    var _, _ := SetCompact(bnNew, bits);
    MulAssign32(bnNew, actual % B);
    var span := new nat[8];
    Assign64(span, p.timespan);
    var ok := DivAssign(bnNew, span);
    var c := CompareTo(bnNew, limit);
    if c > 0 {
      bnNew := Copy(limit);
    }
    next := GetCompact(bnNew, false);
  }

  /** The adjustment the rules ask for. */
  ghost function Ideal(previous: nat, span: nat, p: Params): nat
    requires p.timespan >= 1
  {
    Min(p.powLimit, Quot(previous * span, p.timespan))
  }

  /** The lowest target one adjustment can reach: the shortest span is a quarter of the timespan, rounded down. */
  ghost function Lowest(previous: nat, p: Params): nat
    requires p.timespan >= 1
  {
    Min(p.powLimit, Quot(Times(previous, p.timespan / 4), p.timespan))
  }

  /** Neither the 32-bit factor nor the 256-bit product loses anything. */
  ghost predicate ProductFits(previous: nat, span: nat) {
    previous == 0 || (span < B && previous * span < Pow2(256))
  }

  lemma WrappedProduct(x: nat, span: nat, b: nat, m: nat)
    requires b >= 1 && m >= 1
    ensures (x * Rem(span, b)) % m <= x * span
    ensures (x * Rem(span, b)) % m == x * span <==> x == 0 || (span < b && x * span < m)
  {
    var r := Rem(span, b);
    QuotRem(span, b);
    RemSmaller(span, b);
    MulLe(r, span, x);
    RemSmaller(x * r, m);
    if span < b {
      QuotIs(0, b, span);
      if x * span < m {
        QuotIs(0, m, x * span);
      }
    } else if x > 0 {
      MulStep(r, span, x);
    }
  }

  lemma RemSmaller(x: nat, d: nat)
    requires d >= 1
    ensures x % d <= x
  {
    if x < d {
      QuotIs(0, d, x);
    }
  }

  /** The code's product is the true one exactly when the span fits in 32 bits and the product in 256. */
  lemma ProductExact(previous: nat, span: nat)
    ensures (previous * (span % B)) % Pow2(256) <= previous * span
    ensures (previous * (span % B)) % Pow2(256) == previous * span <==> ProductFits(previous, span)
  {
    hide Pow2;
    WrappedProduct(previous, span, B, Pow2(256));
  }

  lemma ClampBounds(actual: int, timespan: nat)
    ensures timespan / 4 <= Clamp(actual, timespan) <= 4 * timespan
    ensures timespan / 4 <= actual <= 4 * timespan ==> Clamp(actual, timespan) == actual
  {
  }

  /** Too short a span counts as a quarter of the timespan, too long a one as four timespans, any other as it is. */
  lemma ClampExact(actual: int, timespan: nat)
    ensures actual < timespan / 4 ==> Clamp(actual, timespan) == timespan / 4
    ensures actual > 4 * timespan ==> Clamp(actual, timespan) == 4 * timespan
    ensures timespan / 4 <= actual <= 4 * timespan ==> Clamp(actual, timespan) == actual
  {}

  lemma QuotMono(x: nat, y: nat, d: nat)
    requires d >= 1 && x <= y
    ensures Quot(x, d) <= Quot(y, d)
  {
    FloorBounds(x, d);
    FloorBounds(y, d);
    if Quot(y, d) < Quot(x, d) {
      MulStep(Quot(y, d), Quot(x, d), d);
    }
  }

  lemma IdealBounds(previous: nat, span: nat, p: Params)
    requires p.timespan >= 1 && p.timespan / 4 <= span <= 4 * p.timespan
    ensures Quot(previous * span, p.timespan) <= 4 * previous
    ensures Ideal(previous, span, p) >= Lowest(previous, p)
  {
    var t := p.timespan;
    MulLe(span, 4 * t, previous);
    assert (4 * t) * previous == (4 * previous) * t;
    QuotMono(previous * span, (4 * previous) * t, t);
    DivUnique((4 * previous) * t, t, 4 * previous);
    MulLe(t / 4, span, previous);
    QuotMono(previous * (t / 4), previous * span, t);
  }

  /** Whatever wraps, the next target is at most the ideal one; it is the ideal one where nothing wraps. */
  lemma NextTargetBounds(previous: nat, span: nat, p: Params)
    requires p.timespan >= 1
    ensures NextTarget(previous, span, p.timespan, p.powLimit) <= Ideal(previous, span, p)
    ensures ProductFits(previous, span) ==>
              NextTarget(previous, span, p.timespan, p.powLimit) == Ideal(previous, span, p)
  {
    hide Pow2, ProductFits, Quot;
    ProductExact(previous, span);
    QuotMono((previous * (span % B)) % Pow2(256), previous * span, p.timespan);
  }

  ghost predicate Good(bits: nat, p: Params) {
    !Negative(bits) && !Overflow(bits) && Decode(bits) <= p.powLimit
  }

  lemma EncodedGood(target: nat, p: Params)
    requires p.Valid() && target <= p.powLimit
    ensures Good(Encode(target, false), p) && Decode(Encode(target, false)) == Round(target)
  {
    hide Encode, Decode, Negative, Overflow, Pow2;
    EncodeClean(target);
  }

  lemma NextBitsIs(bits: nat, actual: int, p: Params)
    requires p.Valid() && Good(bits, p) && !p.noRetargeting
    ensures var target := NextTarget(Decode(bits), Clamp(actual, p.timespan), p.timespan, p.powLimit);
            NextBits(bits, actual, p) == Encode(target, false) && Decode(NextBits(bits, actual, p)) == Round(target)
    ensures Good(NextBits(bits, actual, p), p)
  {
    hide Encode, Decode, Negative, Overflow, Pow2, Clamp, Round, Quot;
    TargetNotMax(bits);
    EncodedGood(NextTarget(Decode(bits), Clamp(actual, p.timespan), p.timespan, p.powLimit), p);
  }

  /** One adjustment, for all parameters: a valid target within the limit and within four times the old one. Where the
      product does not wrap it is the compact rounding of the ideal target, and no lower than for the shortest span. */
  lemma RetargetExact(bits: nat, actual: int, p: Params)
    requires p.Valid() && Good(bits, p) && !p.noRetargeting
    ensures var next := NextBits(bits, actual, p);
            Good(next, p) && Decode(next) <= 4 * Decode(bits)
    ensures var span := Clamp(actual, p.timespan);
            var target, next := Ideal(Decode(bits), span, p), NextBits(bits, actual, p);
            ProductFits(Decode(bits), span) ==>
              && next == Encode(target, false) && Decode(next) == Round(target)
              && Decode(next) >= Round(Lowest(Decode(bits), p))
  {
    hide Encode, Decode, Negative, Overflow, Pow2, Clamp, Round, Quot, Lowest, ProductFits, NextBits, Good, NextTarget;
    var previous, span := Decode(bits), Clamp(actual, p.timespan);
    var target := NextTarget(previous, span, p.timespan, p.powLimit);
    ClampBounds(actual, p.timespan);
    NextBitsIs(bits, actual, p);
    NextTargetBounds(previous, span, p);
    IdealBounds(previous, span, p);
    RoundBelow(target);
    RoundMonotone(Lowest(previous, p), Ideal(previous, span, p));
  }

  // Exactly when the code adjusts as the rules ask

  /** The largest target the limit leaves, times the longest span, fits; its longest span fits in 32 bits. */
  ghost predicate Fits(p: Params) {
    Round(p.powLimit) == 0 || (4 * p.timespan < B && Round(p.powLimit) * (4 * p.timespan) < Pow2(256))
  }

  lemma LongestFits(bits: nat, span: nat, long: nat, p: Params)
    requires Good(bits, p) && span <= long < B && Times(Round(p.powLimit), long) < Pow2(256)
    ensures ProductFits(Decode(bits), span)
  {
    hide Pow2, Decode, Round, Negative, Overflow;
    var x, top := Decode(bits), Round(p.powLimit);
    DecodeExact(bits);
    RoundMonotone(x, p.powLimit);
    MulLe(x, top, long);
    MulLe(span, long, x);
    assert x * span <= x * long;
  }

  lemma FitsSuffices(bits: nat, span: nat, p: Params)
    requires Fits(p) && Good(bits, p) && span <= 4 * p.timespan
    ensures ProductFits(Decode(bits), span)
  {
    hide Pow2, Decode, Round, Negative, Overflow;
    if Round(p.powLimit) == 0 {
      DecodeExact(bits);
      RoundMonotone(Decode(bits), p.powLimit);
    } else {
      LongestFits(bits, span, 4 * p.timespan, p);
    }
  }

  /** A span the clamp lets through whose low 32 bits are all zero, when four timespans do not fit in 32 bits. */
  lemma LongSpan(timespan: nat) returns (span: nat)
    requires 4 * timespan >= B
    ensures timespan <= span <= 4 * timespan && span % B == 0
  {
    hide Quot, Rem;
    var k := Quot(timespan + B - 1, B);
    QuotRem(timespan + B - 1, B);
    QuotIs(k, B, 0);
    assert Rem(k * B, B) == (k * B) % B by {
      RemIs(k * B, B);
    }
    span := k * B;
  }

  lemma RemIs(x: nat, d: nat)
    requires d >= 1
    ensures Rem(x, d) == x % d
  {}

  lemma FactorLoses(p: Params) returns (bits: nat, actual: nat)
    requires p.Valid() && !p.noRetargeting && p.powLimit >= 1 && 4 * p.timespan >= B
    ensures Good(bits, p)
    ensures NextBits(bits, actual, p) != Encode(Ideal(Decode(bits), Clamp(actual, p.timespan), p), false)
  {
    hide Encode, Decode, Pow2, Negative, Overflow, Good, NextBits;
    bits := Encode(1, false);
    actual := LongSpan(p.timespan);
    OneRounds();
    EncodedGood(1, p);
    ClampBounds(actual, p.timespan);
    NextBitsIs(bits, actual, p);
    ZeroTarget(actual, p);
    EncodedGood(0, p);
    DivPositive(actual, p.timespan);
    var ideal := Ideal(1, actual, p);
    EncodedGood(ideal, p);
    RoundMonotone(1, ideal);
    RoundBelow(0);
  }

  lemma OneRounds()
    ensures Round(1) == 1 && Round(4) == 4 && Round(5) == 5
  {
    hide Round;
    assert Pow2(7) == 128;
    ExponentAtMost(1, 1);
    SmallExact(1);
    ExponentAtMost(4, 1);
    SmallExact(4);
    ExponentAtMost(5, 1);
    SmallExact(5);
  }

  lemma ZeroTarget(span: nat, p: Params)
    requires p.timespan >= 1 && span % B == 0
    ensures NextTarget(1, span, p.timespan, p.powLimit) == 0
  {
    hide Pow2;
    QuotIs(0, Pow2(256), 0);
    QuotIs(0, p.timespan, 0);
  }

  /** The first multiple of `top` from y on. */
  lemma FirstMultiple(y: nat, top: nat) returns (k: nat)
    requires top >= 1
    ensures y <= Times(top, k) < y + top
  {
    hide Quot, Rem;
    k := Quot(y + top - 1, top);
    QuotRem(y + top - 1, top);
    assert k * top == Times(top, k);
  }

  /** A span at which the product just passes a multiple of the modulus. */
  lemma WrappingSpan(top: nat, long: nat, m: nat) returns (span: nat)
    requires top >= 1 && m >= 1 && Times(top, long) >= m
    ensures span <= long && Times(top, span) >= m && Rem(Times(top, span), m) < top
  {
    hide Quot, Rem, Times;
    var x := Times(top, long);
    var q := WholePart(x, m);
    var y := Times(q, m);
    span := FirstMultiple(y, top);
    if span > long {
      TimesStep(top, long, span);
    }
    WrapsTo(q, m, Times(top, span) - y, top);
  }

  lemma WholePart(x: nat, m: nat) returns (q: nat)
    requires x >= m >= 1
    ensures m <= Times(q, m) <= x
  {
    q := Quot(x, m);
    QuotRem(x, m);
    DivPositive(x, m);
    MulLe(1, q, m);
  }

  lemma TimesStep(a: nat, x: nat, y: nat)
    requires x < y
    ensures Times(a, x) + a <= Times(a, y)
  {
    MulStep(x, y, a);
  }

  lemma WrapsTo(q: nat, m: nat, r: nat, top: nat)
    requires m >= 1 && r < top
    ensures Rem(Times(q, m) + r, m) < top
  {
    hide Quot, Rem;
    var k := Quot(r, m);
    QuotRem(r, m);
    assert q * m + r == (q + k) * m + Rem(r, m);
    QuotIs(q + k, m, Rem(r, m));
    LowPart(r, m);
  }

  lemma LowPart(r: nat, m: nat)
    requires m >= 1
    ensures Rem(r, m) <= r
  {
    RemSmaller(r, m);
  }

  /** What is left of a product that wraps is less than half of it. */
  lemma WrappedHalf(x: nat, m: nat, d: nat)
    requires x >= m >= 1 && d >= 1
    ensures 2 * Rem(x, m) < x && 2 * Quot(Rem(x, m), d) <= Quot(x, d)
  {
    hide Quot, Rem;
    var w := Rem(x, m);
    MoreThanRem(x, m);
    QuotRem(w, d);
    var k := Quot(w, d);
    assert (2 * k) * d == 2 * (k * d);
    QuotAtLeast(x, d, 2 * k);
  }

  lemma MoreThanRem(x: nat, m: nat)
    requires x >= m >= 1
    ensures Rem(x, m) + m <= x
  {
    QuotRem(x, m);
    DivPositive(x, m);
    MulLe(1, Quot(x, m), m);
  }

  lemma UnitWithin(x: nat)
    requires x >= 1
    ensures x < 2 * Round(x)
  {
    hide Round, Pow2;
    RoundBelow(x);
    var e := Exponent(x);
    if e >= 4 {
      RoundFloor(x);
      Pow2Mono(8 * (e - 3), 8 * e - 9);
    }
  }

  /** The next target of `top` at a span whose product wraps. */
  lemma WrappedTarget(top: nat, span: nat, p: Params)
    requires p.timespan >= 1 && span < B && Times(top, span) >= Pow2(256)
    ensures var w := Rem(Times(top, span), Pow2(256));
            && NextTarget(top, span, p.timespan, p.powLimit) == Min(p.powLimit, Quot(w, p.timespan))
            && Ideal(top, span, p) == Min(p.powLimit, Quot(Times(top, span), p.timespan))
            && 2 * Quot(w, p.timespan) <= Quot(Times(top, span), p.timespan)
  {
    hide Pow2, Quot;
    QuotIs(0, B, span);
    WrappedHalf(Times(top, span), Pow2(256), p.timespan);
  }

  /** A span within `long` that makes the largest target the limit leaves wrap visibly. */
  lemma ProductLoses(p: Params, long: nat) returns (bits: nat, actual: nat)
    requires p.Valid() && !p.noRetargeting && p.timespan / 4 <= long <= 4 * p.timespan && long < B
    requires Times(Round(p.powLimit), long) >= Pow2(256)
    ensures Good(bits, p) && actual <= long
    ensures NextBits(bits, actual, p) != Encode(Ideal(Decode(bits), Clamp(actual, p.timespan), p), false)
  {
    hide *;
    var top := Round(p.powLimit);
    RoundBelow(p.powLimit);
    bits := Encode(p.powLimit, false);
    EncodedGood(p.powLimit, p);
    Some256(p);
    TimesZero(long);
    var s := WrappingSpan(top, long, Pow2(256));
    actual := if s >= p.timespan / 4 then s else p.timespan / 4;
    ClampBounds(actual, p.timespan);
    NextBitsIs(bits, actual, p);
    TimesMono(top, s, actual);
    WrappedTarget(top, actual, p);
    VisiblyLess(top, actual, s, p);
    EncodedGood(Ideal(top, actual, p), p);
  }

  lemma Some256(p: Params)
    requires p.Valid()
    ensures Pow2(256) >= 1 && p.powLimit < Pow2(256) && p.timespan >= 1 && p.timespan <= TWO64 < Pow2(256)
  {
    hide Pow2;
    Pow2of32();
    Pow2Add(32, 32);
    Pow2Mono(64, 255);
    Pow2Next(255);
  }

  lemma Pow2Next(k: nat)
    ensures Pow2(k + 1) == 2 * Pow2(k)
  {}

  lemma TimesZero(x: nat)
    ensures Times(0, x) == 0
  {}

  lemma TimesMono(a: nat, x: nat, y: nat)
    requires x <= y
    ensures Times(a, x) <= Times(a, y)
  {
    MulLe(x, y, a);
  }

  lemma VisiblyLess(top: nat, span: nat, s: nat, p: Params)
    requires p.Valid() && top == Round(p.powLimit) <= p.powLimit && span < B && Times(top, span) >= Pow2(256)
    requires span == s || span == p.timespan / 4
    requires Rem(Times(top, s), Pow2(256)) < top
    ensures Ideal(top, span, p) <= p.powLimit
    ensures Round(NextTarget(top, span, p.timespan, p.powLimit)) < Round(Ideal(top, span, p))
  {
    hide *;
    var t := p.timespan;
    Some256(p);
    WrappedTarget(top, span, p);
    var w, x := Rem(Times(top, span), Pow2(256)), Times(top, span);
    var code, ideal := NextTarget(top, span, t, p.powLimit), Ideal(top, span, p);
    QuotSmaller(w, t);
    RoundBelow(code);
    MinIs(p.powLimit, Quot(w, t));
    MinIs(p.powLimit, Quot(x, t));
    if Quot(x, t) <= p.powLimit {
      QuotPositive(x, t);
      UnitWithin(ideal);
    } else if span != s {
      QuarterBelow(top, t);
    }
  }

  lemma MinIs(a: nat, b: nat)
    ensures Min(a, b) == if a < b then a else b
  {}

  lemma QuotPositive(x: nat, d: nat)
    requires x >= d >= 1
    ensures Quot(x, d) >= 1
  {
    DivPositive(x, d);
  }

  /** A quarter of the timespan does not raise a target. */
  lemma QuarterBelow(top: nat, t: nat)
    requires t >= 1
    ensures Quot(Times(top, t / 4), t) <= top
  {
    MulLe(t / 4, t, top);
    QuotMono(Times(top, t / 4), top * t, t);
    DivUnique(top * t, t, top);
  }

  /** The code gives the compact rounding of the ideal target for every valid target and every time exactly for the
      parameters that fit. */
  lemma FitsExact(p: Params)
    requires p.Valid() && !p.noRetargeting
    ensures Fits(p) <==>
            forall bits: nat, actual: int :: Good(bits, p) ==>
              NextBits(bits, actual, p) == Encode(Ideal(Decode(bits), Clamp(actual, p.timespan), p), false)
  {
    hide Encode, Decode, Good, NextBits, Ideal, Clamp, Pow2, Round;
    if Fits(p) {
      forall bits: nat, actual: int | Good(bits, p)
        ensures NextBits(bits, actual, p) == Encode(Ideal(Decode(bits), Clamp(actual, p.timespan), p), false)
      {
        ClampBounds(actual, p.timespan);
        FitsSuffices(bits, Clamp(actual, p.timespan), p);
        RetargetExact(bits, actual, p);
      }
    } else if 4 * p.timespan >= B {
      RoundBelow(p.powLimit);
      var bits, actual := FactorLoses(p);
    } else {
      TimesRound(p);
      var bits, actual := ProductLoses(p, 4 * p.timespan);
    }
  }

  lemma TimesRound(p: Params)
    ensures Times(Round(p.powLimit), 4 * p.timespan) == Round(p.powLimit) * (4 * p.timespan)
  {}

  /** The longest span that two 32-bit times can make. */
  function HeaderSpan(p: Params): nat {
    Min(4 * p.timespan, B - 1)
  }

  /** The same for header times: a timespan whose quarter leaves 32 bits is harmless only under a limit of 4 or less;
      otherwise only the product matters. */
  ghost predicate HeadersFit(p: Params) {
    if p.timespan / 4 >= B then p.powLimit < SmallestRaised(p.timespan)
    else Times(Round(p.powLimit), HeaderSpan(p)) < Pow2(256)
  }

  /** The smallest target that a quarter of the timespan does not take to 0. */
  function SmallestRaised(timespan: nat): nat {
    if timespan % 4 == 0 then 4 else 5
  }

  lemma ShortLoses(p: Params) returns (bits: nat)
    requires p.Valid() && !p.noRetargeting && p.timespan / 4 >= B && p.powLimit >= SmallestRaised(p.timespan)
    ensures Good(bits, p)
    ensures NextBits(bits, 0, p) != Encode(Ideal(Decode(bits), Clamp(0, p.timespan), p), false)
  {
    hide Encode, Decode, Pow2, Negative, Overflow, Good, NextBits, Round, NextTarget, Ideal;
    var x, t := SmallestRaised(p.timespan), p.timespan;
    bits := Encode(x, false);
    OneRounds();
    EncodedGood(x, p);
    NextBitsIs(bits, 0, p);
    RaisedTo(t);
    RaisedTarget(p);
    EncodedGood(0, p);
    EncodedGood(1, p);
    RoundBelow(0);
  }

  /** What the two factors make of the smallest raised target. */
  lemma RaisedTo(t: nat)
    requires t / 4 >= B
    ensures var x, q := SmallestRaised(t), t / 4;
            t <= x * q < 2 * t && x * (q % B) < t && forall y: nat | y < x :: y * q < t
  {
    var q, r := t / 4, t / 4 % B;
    assert q - r >= B by {
      QuotRem(q, B);
    }
  }

  lemma RaisedTarget(p: Params)
    requires p.Valid() && p.timespan / 4 >= B && p.powLimit >= SmallestRaised(p.timespan)
    ensures var x, q := SmallestRaised(p.timespan), p.timespan / 4;
            NextTarget(x, q, p.timespan, p.powLimit) == 0 && Ideal(x, q, p) == 1
  {
    hide Pow2, Quot;
    var x, t := SmallestRaised(p.timespan), p.timespan;
    var q := t / 4;
    RaisedTo(t);
    Some256(p);
    QuotIs(0, Pow2(256), x * (q % B));
    QuotIs(0, t, x * (q % B));
    QuotIs(1, t, x * q - t);
  }

  lemma ShortKeeps(bits: nat, actual: int, p: Params)
    requires p.Valid() && !p.noRetargeting && Good(bits, p) && p.timespan / 4 >= B > actual
    requires p.powLimit < SmallestRaised(p.timespan)
    ensures NextBits(bits, actual, p) == Encode(Ideal(Decode(bits), Clamp(actual, p.timespan), p), false)
  {
    hide Encode, Decode, Pow2, Negative, Overflow, Round, NextBits, NextTarget, Quot;
    var y, t := Decode(bits), p.timespan;
    NextBitsIs(bits, actual, p);
    RaisedTo(t);
    NextTargetBounds(y, t / 4, p);
    QuotIs(0, t, y * (t / 4));
  }

  /** For times of headers, which have 32 bits, the code gives the compact rounding of the ideal target for every
      valid target exactly under this condition. */
  lemma HeadersFitExact(p: Params)
    requires p.Valid() && !p.noRetargeting
    ensures HeadersFit(p) <==>
            forall bits: nat, actual: int :: Good(bits, p) && 0 < actual + B && actual < B ==>
              NextBits(bits, actual, p) == Encode(Ideal(Decode(bits), Clamp(actual, p.timespan), p), false)
  {
    hide Encode, Decode, Good, NextBits, Ideal, Clamp, Pow2, Round, Times, SmallestRaised;
    if HeadersFit(p) {
      forall bits: nat, actual: int | Good(bits, p) && 0 < actual + B && actual < B
        ensures NextBits(bits, actual, p) == Encode(Ideal(Decode(bits), Clamp(actual, p.timespan), p), false)
      {
        if p.timespan / 4 >= B {
          ShortKeeps(bits, actual, p);
        } else {
          HeaderClamp(actual, p);
          LongestFits(bits, Clamp(actual, p.timespan), HeaderSpan(p), p);
          RetargetExact(bits, actual, p);
        }
      }
    } else if p.timespan / 4 >= B {
      var bits := ShortLoses(p);
    } else {
      var bits, actual := ProductLoses(p, HeaderSpan(p));
    }
  }

  lemma HeaderClamp(actual: int, p: Params)
    requires actual < B && p.timespan / 4 < B
    ensures Clamp(actual, p.timespan) <= HeaderSpan(p) < B
  {}

  /** The parameters of the main and the test network lose nothing, and leave a quarter. */
  lemma NetworksFit(p: Params)
    requires p.powLimit == Pow2(231) - 1 && p.timespan == 14 * 24 * 60 * 60
    ensures Fits(p) && HeadersFit(p) && p.timespan % 4 == 0
  {
    hide *;
    RoundBelow(p.powLimit);
    FourFortnights(p.timespan);
    Pow2Add(231, 25);
    ProductBelow(Round(p.powLimit), 4 * p.timespan, Pow2(231), Pow2(25));
    BothFit(p);
  }

  lemma BothFit(p: Params)
    requires 4 * p.timespan < B && Times(Round(p.powLimit), 4 * p.timespan) < Pow2(256)
    ensures Fits(p) && HeadersFit(p)
  {
    hide Pow2, Round, Times;
    TimesRound(p);
  }

  /** Under the limit of the regression-test network the product would wrap; that network does not adjust. */
  lemma RegressionTestWraps(p: Params)
    requires p.powLimit == Pow2(255) - 1 && p.timespan == 14 * 24 * 60 * 60
    ensures !HeadersFit(p)
  {
    hide Pow2, Round, Times;
    FourFortnights(p.timespan);
    Pow2Next(254);
    Pow2Next(255);
    Pow2Positive(254);
    UnitWithin(p.powLimit);
    ProductAbove(Round(p.powLimit), HeaderSpan(p), Pow2(254), 4);
  }

  lemma Pow2Positive(k: nat)
    ensures Pow2(k) >= 1
  {}

  lemma ProductAbove(a: nat, b: nat, x: nat, y: nat)
    requires a >= x && b >= y
    ensures Times(a, b) >= x * y
  {
    MulLe(x, a, y);
    MulLe(y, b, a);
  }

  lemma ProductBelow(a: nat, b: nat, x: nat, y: nat)
    requires a < x && b < y
    ensures Times(a, b) < x * y
  {
    MulLe(a, x, b);
    MulStep(b, y, x);
  }

  lemma FourFortnights(t: nat)
    requires t == 14 * 24 * 60 * 60
    ensures 4 * t < Pow2(25) && 4 * t < B && t % 4 == 0
  {
    assert Pow2(8) == 256;
    Pow2Add(8, 8);
    Pow2Add(16, 9);
    assert Pow2(9) == 512;
  }

  /** The 32-bit factor alone can turn a fourfold target into zero. */
  lemma FactorExample()
    ensures var p := Params(100, 0x4000_0000, 1, false, false);
            && p.Valid() && Clamp(B, p.timespan) == B && Ideal(1, B, p) == 4
            && NextTarget(1, B, p.timespan, p.powLimit) == 0
  {
    var p := Params(100, 0x4000_0000, 1, false, false);
    Hundred();
    hide Pow2;
    ZeroTarget(B, p);
  }

  lemma Hundred()
    ensures 100 < Pow2(256)
  {
    assert Pow2(7) == 128;
    hide Pow2;
    Pow2Mono(7, 256);
  }

  // The lower bound by a quarter of the old target

  /** What the old target needs so that the shortest span leaves a quarter of it. */
  predicate QuarterLeft(previous: nat, timespan: nat) {
    (timespan % 4) * (previous / 4) <= (previous % 4) * (timespan / 4)
  }

  lemma QuotAtLeast(x: nat, d: nat, a: nat)
    requires d >= 1
    ensures a <= Quot(x, d) <==> a * d <= x
  {
    QuotRem(x, d);
    if a <= Quot(x, d) {
      MulLe(a, Quot(x, d), d);
    } else {
      MulStep(Quot(x, d), a, d);
    }
  }

  lemma CrossTerms(a: nat, b: nat, q: nat, r: nat)
    ensures a * (4 * q + r) <= Times(4 * a + b, q) <==> r * a <= b * q
  {
    assert a * (4 * q + r) == 4 * (a * q) + r * a;
    assert (4 * a + b) * q == 4 * (a * q) + b * q;
  }

  lemma QuarterAt(previous: nat, timespan: nat)
    requires timespan >= 1
    ensures Quot(previous, 4) <= Quot(Times(previous, timespan / 4), timespan) <==> QuarterLeft(previous, timespan)
  {
    hide Quot;
    var a, b, q, r := previous / 4, previous % 4, timespan / 4, timespan % 4;
    QuotAtLeast(Times(previous, q), timespan, a);
    QuotIs(a, 4, b);
    CrossTerms(a, b, q, r);
  }

  /** The shortest span leaves a quarter of this old target exactly under that condition. */
  lemma QuarterShortest(previous: nat, p: Params)
    requires p.timespan >= 1 && previous <= p.powLimit && ProductFits(previous, p.timespan / 4)
    ensures NextTarget(previous, p.timespan / 4, p.timespan, p.powLimit) >= Quot(previous, 4) <==>
            QuarterLeft(previous, p.timespan)
  {
    hide ProductFits, QuarterLeft, NextTarget, Quot;
    NextTargetBounds(previous, p.timespan / 4, p);
    QuarterAt(previous, p.timespan);
    QuotSmaller(previous, 4);
  }

  /** So does every span then, compact rounding included. */
  lemma QuarterKept(bits: nat, actual: int, p: Params)
    requires p.Valid() && Good(bits, p) && !p.noRetargeting
    requires ProductFits(Decode(bits), Clamp(actual, p.timespan)) && QuarterLeft(Decode(bits), p.timespan)
    ensures Decode(NextBits(bits, actual, p)) >= Round(Quot(Decode(bits), 4))
  {
    hide Encode, Decode, Negative, Overflow, Pow2, Clamp, Round, Quot, QuarterLeft, ProductFits, NextBits, Ideal;
    var previous := Decode(bits);
    RetargetExact(bits, actual, p);
    QuarterAt(previous, p.timespan);
    QuotSmaller(previous, 4);
    RoundMonotone(Quot(previous, 4), Lowest(previous, p));
  }

  /** Every valid target keeps a quarter whatever the time, compact rounding included, exactly when four divides the
      timespan or the limit is below four. */
  lemma QuarterExact(p: Params)
    requires p.Valid() && Fits(p) && !p.noRetargeting
    ensures p.timespan % 4 == 0 || p.powLimit < 4 <==>
            forall bits: nat, actual: int :: Good(bits, p) ==>
              Decode(NextBits(bits, actual, p)) >= Round(Quot(Decode(bits), 4))
  {
    hide Encode, Decode, Negative, Overflow, Pow2, Clamp, Round, NextBits, ProductFits, Fits;
    if p.timespan % 4 == 0 || p.powLimit < 4 {
      forall bits: nat, actual: int | Good(bits, p)
        ensures Decode(NextBits(bits, actual, p)) >= Round(Quot(Decode(bits), 4))
      {
        ClampBounds(actual, p.timespan);
        FitsSuffices(bits, Clamp(actual, p.timespan), p);
        SmallOrEven(Decode(bits), p.timespan);
        QuarterKept(bits, actual, p);
      }
    } else {
      QuarterLost(p);
    }
  }

  lemma SmallOrEven(previous: nat, timespan: nat)
    requires timespan % 4 == 0 || previous < 4
    ensures QuarterLeft(previous, timespan)
  {
    var a, b, q, r := previous / 4, previous % 4, timespan / 4, timespan % 4;
    assert r * a == 0;
    MulLe(0, b, q);
  }

  lemma QuarterLost(p: Params)
    requires p.Valid() && Fits(p) && !p.noRetargeting && p.timespan % 4 != 0 && p.powLimit >= 4
    ensures Good(Encode(4, false), p)
    ensures Decode(NextBits(Encode(4, false), p.timespan / 4, p)) < Round(Quot(Decode(Encode(4, false)), 4))
  {
    hide Encode, Decode, Negative, Overflow, Pow2, Round, NextBits, ProductFits, Fits;
    var bits, q := Encode(4, false), p.timespan / 4;
    OneRounds();
    EncodedGood(4, p);
    ClampBounds(q, p.timespan);
    FitsSuffices(bits, q, p);
    RetargetExact(bits, q, p);
    DivUnique(4 * q, p.timespan, 0);
    RoundBelow(0);
  }

  /** With a timespan of 10 the shortest span takes a target of 40 to 8, below its quarter. */
  lemma QuarterExample()
    ensures NextTarget(40, 10 / 4, 10, 40) == 8 && Quot(40, 4) == 10 && !QuarterLeft(40, 10)
  {
    Hundred();
    hide Pow2;
    QuotIs(0, Pow2(256), 80);
  }

  // The bits of the next block on a chain of headers, the header at height h in place h

  datatype Header = Header(time: int, bits: nat)

  /** The nearest block at or below height j that is not a minimum-difficulty exception. */
  function LastOrdinary(chain: seq<Header>, j: nat, interval: nat, limitBits: nat): (k: nat)
    requires j < |chain| && interval >= 1
    ensures k <= j && (k == 0 || k % interval == 0 || chain[k].bits != limitBits)
    ensures forall i | k < i <= j :: i % interval != 0 && chain[i].bits == limitBits
  {
    if j > 0 && j % interval != 0 && chain[j].bits == limitBits
    then LastOrdinary(chain, j - 1, interval, limitBits) else j
  }

  lemma FirstOfInterval(h: nat, interval: nat)
    requires interval >= 1 && (h + 1) % interval == 0
    ensures h >= interval - 1
  {
    if h + 1 < interval {
      ModIs(h + 1, interval, h + 1, 0);
    }
  }

  ghost function NextWork(chain: seq<Header>, newTime: int, p: Params): nat
    requires |chain| >= 1 && p.Valid()
  {
    var h, interval := |chain| - 1, p.Interval();
    var limitBits := Encode(p.powLimit, false);
    if (h + 1) % interval == 0 then
      FirstOfInterval(h, interval);
      NextBits(chain[h].bits, chain[h].time - chain[h - (interval - 1)].time, p)
    else if !p.allowMinDifficulty then chain[h].bits
    else if newTime > chain[h].time + 2 * p.spacing then limitBits
    else chain[LastOrdinary(chain, h, interval, limitBits)].bits
  }

  method GetNextWorkRequired(chain: seq<Header>, newTime: int, limit: array<nat>, p: Params) returns (bits: nat)
    requires |chain| >= 1 && p.Valid() && IsUint256(limit[..]) && Val(limit[..]) == p.powLimit
    requires forall i | 0 <= i < |chain| :: chain[i].bits < B
    ensures bits == NextWork(chain, newTime, p)
  {
    hide Val, P, Pow2, Encode, Decode, NextBits;
    var limitBits := GetCompact(limit, false);
    var h, interval := |chain| - 1, p.Interval();
    if (h + 1) % interval != 0 {
      if p.allowMinDifficulty {
        if newTime > chain[h].time + p.spacing * 2 {
          return limitBits;
        }
        var j := h;
        while j > 0 && j % interval != 0 && chain[j].bits == limitBits
          invariant 0 <= j <= h
          invariant LastOrdinary(chain, j, interval, limitBits) == LastOrdinary(chain, h, interval, limitBits)
        {
          j := j - 1;
        }
        return chain[j].bits;
      }
      return chain[h].bits;
    }
    FirstOfInterval(h, interval);
    var first := h - (interval - 1);
    bits := CalculateNextWorkRequired(chain[h].bits, chain[h].time, chain[first].time, limit, p);
  }

  ghost predicate FollowsRules(chain: seq<Header>, p: Params)
    requires p.Valid()
  {
    forall i | 1 <= i < |chain| :: chain[i].bits == NextWork(chain[..i], chain[i].time, p)
  }

  lemma NextBitsGood(bits: nat, actual: int, p: Params)
    requires p.Valid() && Good(bits, p)
    ensures Good(NextBits(bits, actual, p), p)
  {
    hide Encode, Decode, Negative, Overflow, Pow2, Clamp, Quot, Round;
    if !p.noRetargeting {
      NextBitsIs(bits, actual, p);
    }
  }

  /** On every chain that follows the rules every target is valid and within the proof-of-work limit. */
  lemma {:induction false} TargetsGood(chain: seq<Header>, p: Params, h: nat)
    requires p.Valid() && FollowsRules(chain, p) && h < |chain| && Good(chain[0].bits, p)
    ensures Good(chain[h].bits, p)
  {
    hide Encode, Decode, Negative, Overflow, Pow2, NextBits;
    if h > 0 {
      var c, interval := chain[..h], p.Interval();
      TargetsGood(chain, p, h - 1);
      EncodedGood(p.powLimit, p);
      if h % interval == 0 {
        FirstOfInterval(h - 1, interval);
        NextBitsGood(c[h - 1].bits, c[h - 1].time - c[h - interval].time, p);
      } else {
        TargetsGood(chain, p, LastOrdinary(c, h - 1, interval, Encode(p.powLimit, false)));
      }
    }
  }

  /** Along such a chain an adjustment never raises the target above four times the one before it; where its product
      does not wrap it is the rounded ideal one, and leaves a quarter under the condition above. */
  lemma TargetsMoveSlowly(chain: seq<Header>, p: Params, h: nat)
    requires p.Valid() && FollowsRules(chain, p) && 1 <= h < |chain| && Good(chain[0].bits, p)
    requires h % p.Interval() == 0 && !p.noRetargeting
    ensures h >= p.Interval()
    ensures Decode(chain[h].bits) <= 4 * Decode(chain[h - 1].bits)
    ensures var previous := Decode(chain[h - 1].bits);
            var span := Clamp(chain[h - 1].time - chain[h - p.Interval()].time, p.timespan);
            ProductFits(previous, span) ==>
              && Decode(chain[h].bits) == Round(Ideal(previous, span, p)) >= Round(Lowest(previous, p))
              && (QuarterLeft(previous, p.timespan) ==> Decode(chain[h].bits) >= Round(Quot(previous, 4)))
  {
    hide Encode, Decode, Negative, Overflow, Pow2, Clamp, Round, Quot, Good, Ideal, Lowest, ProductFits, QuarterLeft,
         NextBits;
    var c, interval, bits := chain[..h], p.Interval(), chain[h - 1].bits;
    TargetsGood(chain, p, h - 1);
    FirstOfInterval(h - 1, interval);
    var actual := c[h - 1].time - c[h - interval].time;
    RetargetExact(bits, actual, p);
    if ProductFits(Decode(bits), Clamp(actual, p.timespan)) && QuarterLeft(Decode(bits), p.timespan) {
      QuarterKept(bits, actual, p);
    }
  }

  /** Header times have 32 bits. Along such a chain, under the condition above, every adjustment is the rounded ideal
      one, and a timespan that four divides leaves a quarter. */
  lemma HeaderTargets(chain: seq<Header>, p: Params, h: nat)
    requires p.Valid() && FollowsRules(chain, p) && 1 <= h < |chain| && Good(chain[0].bits, p)
    requires h % p.Interval() == 0 && !p.noRetargeting && HeadersFit(p)
    requires forall i | 0 <= i < |chain| :: 0 <= chain[i].time < B
    ensures h >= p.Interval()
    ensures var previous := Decode(chain[h - 1].bits);
            var span := Clamp(chain[h - 1].time - chain[h - p.Interval()].time, p.timespan);
            && chain[h].bits == Encode(Ideal(previous, span, p), false)
            && (p.timespan % 4 == 0 && p.timespan / 4 < B ==> Decode(chain[h].bits) >= Round(Quot(previous, 4)))
  {
    hide Encode, Decode, Negative, Overflow, Pow2, Clamp, Round, Quot, Good, Ideal, HeadersFit, QuarterLeft, ProductFits,
         NextBits;
    var c, interval, bits := chain[..h], p.Interval(), chain[h - 1].bits;
    TargetsGood(chain, p, h - 1);
    FirstOfInterval(h - 1, interval);
    var actual := c[h - 1].time - c[h - interval].time;
    HeadersFitExact(p);
    assert chain[h].bits == NextBits(bits, actual, p);
    if p.timespan % 4 == 0 && p.timespan / 4 < B {
      HeaderQuarter(bits, actual, p);
    }
  }

  lemma HeaderQuarter(bits: nat, actual: int, p: Params)
    requires p.Valid() && Good(bits, p) && !p.noRetargeting && HeadersFit(p) && actual < B
    requires p.timespan % 4 == 0 && p.timespan / 4 < B
    ensures Decode(NextBits(bits, actual, p)) >= Round(Quot(Decode(bits), 4))
  {
    hide Encode, Decode, Negative, Overflow, Pow2, Clamp, Round, Quot, Good, Ideal, QuarterLeft, ProductFits, NextBits,
         Times, HeaderSpan;
    HeaderClamp(actual, p);
    LongestFits(bits, Clamp(actual, p.timespan), HeaderSpan(p), p);
    SmallOrEven(Decode(bits), p.timespan);
    QuarterKept(bits, actual, p);
  }

  // The rule between adjustments

  /** Block k is the nearest one below height h that starts an interval or is no minimum-difficulty block. */
  ghost predicate NearestOrdinary(chain: seq<Header>, h: nat, k: nat, p: Params)
    requires p.Valid()
  {
    && k < h <= |chain|
    && (k == 0 || k % p.Interval() == 0 || chain[k].bits != Encode(p.powLimit, false))
    && forall i | k < i < h :: i % p.Interval() != 0 && chain[i].bits == Encode(p.powLimit, false)
  }

  /** Between adjustments the target stays. Where minimum-difficulty blocks are allowed, a block more than two spacings
      after its parent has the limit as its target, and any other that of the nearest ordinary block. Where there is no
      retargeting an adjustment keeps the parent's target. */
  lemma NextWorkExact(chain: seq<Header>, newTime: int, p: Params)
    requires |chain| >= 1 && p.Valid()
    ensures var h, bits := |chain|, NextWork(chain, newTime, p);
            if h % p.Interval() == 0 then
              && h >= p.Interval()
              && (p.noRetargeting ==> bits == chain[h - 1].bits)
              && bits == NextBits(chain[h - 1].bits, chain[h - 1].time - chain[h - p.Interval()].time, p)
            else if !p.allowMinDifficulty then bits == chain[h - 1].bits
            else if newTime > chain[h - 1].time + 2 * p.spacing then bits == Encode(p.powLimit, false)
            else exists k: nat :: NearestOrdinary(chain, h, k, p) && bits == chain[k].bits
  {
    hide Encode, Decode, NextTarget, Clamp;
    var h, interval := |chain|, p.Interval();
    if h % interval == 0 {
      FirstOfInterval(h - 1, interval);
    } else if p.allowMinDifficulty {
      var k := LastOrdinary(chain, h - 1, interval, Encode(p.powLimit, false));
      assert NearestOrdinary(chain, h, k, p);
    }
  }

  /** On a chain that follows the rules, and allows no minimum-difficulty blocks, all blocks from one adjustment to the
      next have the same target. */
  lemma {:induction false} SteadyTargets(chain: seq<Header>, p: Params, h: nat)
    requires p.Valid() && FollowsRules(chain, p) && h < |chain| && !p.allowMinDifficulty
    ensures h >= h % p.Interval() && chain[h].bits == chain[h - h % p.Interval()].bits
    ensures h % p.Interval() != 0 ==> chain[h].bits == chain[h - 1].bits
  {
    hide Encode, Decode, NextBits, NextWork;
    var interval := p.Interval();
    RemSmaller(h, interval);
    if h % interval != 0 {
      NextWorkExact(chain[..h], chain[h].time, p);
      SteadyTargets(chain, p, h - 1);
      RemNext(h, interval);
    }
  }

  lemma RemNext(h: nat, d: nat)
    requires d >= 1 && h % d != 0
    ensures h >= 1 && (h - 1) % d == h % d - 1
  {
    hide Quot, Rem;
    RemIs(h, d);
    RemIs(h - 1, d);
    QuotRem(h, d);
    QuotIs(Quot(h, d), d, Rem(h, d) - 1);
  }

  /** On a chain that follows the rules and allows them, minimum-difficulty blocks leave no trace in the targets of the
      blocks after them. */
  lemma MinimumTargets(chain: seq<Header>, p: Params, h: nat)
    requires p.Valid() && FollowsRules(chain, p) && 1 <= h < |chain| && p.allowMinDifficulty
    requires h % p.Interval() != 0
    ensures chain[h].time > chain[h - 1].time + 2 * p.spacing ==> chain[h].bits == Encode(p.powLimit, false)
    ensures chain[h].time <= chain[h - 1].time + 2 * p.spacing ==>
              exists k: nat :: NearestOrdinary(chain, h, k, p) && chain[h].bits == chain[k].bits
  {
    hide Encode, Decode, NextBits, NextWork;
    NextWorkExact(chain[..h], chain[h].time, p);
    if chain[h].time <= chain[h - 1].time + 2 * p.spacing {
      var k: nat :| NearestOrdinary(chain[..h], h, k, p) && chain[h].bits == chain[..h][k].bits;
      assert NearestOrdinary(chain, h, k, p);
    }
  }
}
