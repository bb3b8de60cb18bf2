/** GPoW: which accepted hashes a nonce set keeps, and the sum of those it keeps. */
module GPoWHeap {
  import opened Division
  import opened Words

  type Hash = h: seq<nat> | |h| == 8 && AreWords(h) witness [0, 0, 0, 0, 0, 0, 0, 0]

  datatype Try = Try(nonce: nat, hash: Hash)

  datatype Config = Config(m: nat, conservative: bool, inner: nat, maxTries: nat, target: Hash) {
    predicate Valid() {
      1 <= m < B && inner < B && maxTries < B
    }
  }

  function Size(t: Try): nat {
    Val(t.hash)
  }

  function NonceAt(start: nat, k: nat): nat {
    (start + k) % B
  }

  /** The tries among the k from a nonce on whose hash is below the target, in order; nonces wrap at 32 bits. */
  ghost function Accepted(cfg: Config, hash: nat -> Hash, start: nat, k: nat): seq<Try> {
    if k == 0 then [] else
      var nonce := NonceAt(start, k - 1);
      Accepted(cfg, hash, start, k - 1) + if Val(hash(nonce)) < Val(cfg.target) then [Try(nonce, hash(nonce))] else []
  }

  /** The accepted tries are those at the places `js` of the k tried, in order: exactly the ones below the target. */
  lemma {:induction false} AcceptedExact(cfg: Config, hash: nat -> Hash, start: nat, k: nat) returns (js: seq<nat>)
    ensures |js| == |Accepted(cfg, hash, start, k)| && forall i, j | 0 <= i < j < |js| :: js[i] < js[j]
    ensures forall j: nat :: j in js <==> j < k && Val(hash((start + j) % 0x1_0000_0000)) < Val(cfg.target)
    ensures forall i | 0 <= i < |js| :: Accepted(cfg, hash, start, k)[i].nonce == (start + js[i]) % 0x1_0000_0000
                                        && Accepted(cfg, hash, start, k)[i].hash == hash((start + js[i]) % 0x1_0000_0000)
  {
    hide Val;
    js := [];
    if k > 0 {
      var was := AcceptedExact(cfg, hash, start, k - 1);
      js := was;
      if Val(hash(NonceAt(start, k - 1))) < Val(cfg.target) {
        js := was + [k - 1];
        assert forall i | 0 <= i < |was| :: was[i] in was;
      }
    }
  }

  /** The heap holds m of the tries, and none left out is smaller than one it holds. */
  ghost predicate Best(heap: seq<Try>, all: seq<Try>, m: nat) {
    && |heap| == m
    && multiset(heap) <= multiset(all)
    && forall x, y | x in multiset(heap) && y in multiset(all) - multiset(heap) :: Size(x) <= Size(y)
  }

  ghost predicate Top(heap: seq<Try>, i: nat) {
    i < |heap| && forall j | 0 <= j < |heap| :: Size(heap[j]) <= Size(heap[i])
  }

  function Replace(heap: seq<Try>, i: nat, t: Try): seq<Try>
    requires i < |heap|
  {
    heap[..i] + heap[i + 1..] + [t]
  }

  lemma ReplaceSet(heap: seq<Try>, i: nat, t: Try)
    requires i < |heap|
    ensures multiset(Replace(heap, i, t)) == multiset(heap) - multiset{heap[i]} + multiset{t}
  {
    assert heap == heap[..i] + [heap[i]] + heap[i + 1..];
  }

  lemma AppendSet(all: seq<Try>, t: Try)
    ensures multiset(all + [t]) == multiset(all) + multiset{t}
  {
  }

  lemma TopBound(heap: seq<Try>, i: nat, x: Try)
    requires Top(heap, i) && x in multiset(heap)
    ensures Size(x) <= Size(heap[i])
  {
    assert x in heap;
  }

  lemma KeepBest(heap: seq<Try>, all: seq<Try>, m: nat, i: nat, t: Try)
    requires Best(heap, all, m) && Top(heap, i) && Size(t) >= Size(heap[i])
    ensures Best(heap, all + [t], m)
  {
    hide Size;
    AppendSet(all, t);
    forall x, y | x in multiset(heap) && y in multiset(all + [t]) - multiset(heap)
      ensures Size(x) <= Size(y)
    {
      TopBound(heap, i, x);
      assert y == t || y in multiset(all) - multiset(heap);
    }
  }

  lemma ReplaceBest(heap: seq<Try>, all: seq<Try>, m: nat, i: nat, t: Try)
    requires Best(heap, all, m) && Top(heap, i) && Size(t) < Size(heap[i])
    ensures Best(Replace(heap, i, t), all + [t], m)
  {
    hide Size, Replace;
    var next := Replace(heap, i, t);
    AppendSet(all, t);
    ReplaceSet(heap, i, t);
    assert |next| == m by { ReplaceSize(heap, i, t); }
    assert heap[i] in multiset(heap);
    forall x, y | x in multiset(next) && y in multiset(all + [t]) - multiset(next)
      ensures Size(x) <= Size(y)
    {
      assert x == t || x in multiset(heap);
      if x in multiset(heap) {
        TopBound(heap, i, x);
      }
      assert y == heap[i] || y in multiset(all) - multiset(heap);
    }
  }

  lemma ReplaceSize(heap: seq<Try>, i: nat, t: Try)
    requires i < |heap|
    ensures |Replace(heap, i, t)| == |heap|
  {
  }

  lemma BestSize(heap: seq<Try>, all: seq<Try>, m: nat)
    requires Best(heap, all, m)
    ensures |heap| == m
  {
  }

  lemma AllBest(all: seq<Try>)
    ensures Best(all, all, |all|)
  {
  }

  // The sum of the hashes

  ghost function Sum(s: seq<Try>): nat {
    if s == [] then 0 else Sum(s[..|s| - 1]) + Size(s[|s| - 1])
  }

  lemma SumAppend(s: seq<Try>, t: Try)
    ensures Sum(s + [t]) == Sum(s) + Size(t)
  {
    assert (s + [t])[..|s|] == s;
  }

  lemma {:induction false} SumConcat(s: seq<Try>, u: seq<Try>)
    ensures Sum(s + u) == Sum(s) + Sum(u)
  {
    if u == [] {
      assert s + u == s;
    } else {
      var n := |u| - 1;
      SumConcat(s, u[..n]);
      assert (s + u)[..|s + u| - 1] == s + u[..n];
    }
  }

  lemma SumReplace(heap: seq<Try>, i: nat, t: Try)
    requires i < |heap|
    ensures Sum(Replace(heap, i, t)) == Sum(heap) - Size(heap[i]) + Size(t)
    ensures Sum(heap) >= Size(heap[i])
  {
    hide Size, Sum;
    var a, b := heap[..i], heap[i + 1..];
    assert heap == a + [heap[i]] + b;
    SumConcat(a + [heap[i]], b);
    SumAppend(a, heap[i]);
    SumConcat(a, b);
    SumAppend(a + b, t);
  }

  lemma SizeBound(t: Try)
    ensures Size(t) < P(8)
  {
    ValBound(t.hash);
  }

  lemma {:induction false} SumBound(s: seq<Try>)
    ensures Sum(s) + |s| <= Times(|s|, P(8))
  {
    hide P, Size;
    if s != [] {
      var n := |s| - 1;
      SumBound(s[..n]);
      SizeBound(s[n]);
      assert Times(n + 1, P(8)) == Times(n, P(8)) + P(8);
    }
  }

  /** The sum of as many hashes as there are 32-bit numbers fits in 288 bits, and their average in 256. */
  lemma SumFits(s: seq<Try>, m: nat)
    requires |s| <= m && 1 <= m < B
    ensures Sum(s) < P(9) && Quot(Sum(s), m) < P(8)
  {
    hide P, Sum;
    SumBound(s);
    MulLe(|s|, m, P(8));
    MulLe(m, B, P(8));
    PNext(8);
    QuotRem(Sum(s), m);
    var q := Quot(Sum(s), m);
    if q >= P(8) {
      MulLe(P(8), q, m);
      assert P(8) * m == m * P(8);
      StrictlyBelow(s, m);
    }
  }

  lemma StrictlyBelow(s: seq<Try>, m: nat)
    requires |s| <= m && m >= 1
    ensures Sum(s) < m * P(8)
  {
    hide P, Sum;
    SumBound(s);
    MulLe(|s|, m, P(8));
    MulLe(1, m, P(8));
  }

  // The running sum, which starts at 0 for every call

  /** What the running sum holds when the kept hashes add up to x and to `base` when it was cleared. */
  function Balance(x: nat, base: nat): nat
    requires base < P(9)
  {
    if x >= base then x - base else x + P(9) - base
  }

  lemma BalanceAdd(x: nat, base: nat, h: nat)
    requires base < P(9) && x + h < P(9)
    ensures (Balance(x, base) + h) % P(9) == Balance(x + h, base)
  {
    hide P;
    if x < base && x + h >= base {
      QuotIs(1, P(9), x + h - base);
    } else {
      QuotIs(0, P(9), Balance(x, base) + h);
    }
  }

  lemma BalanceSub(x: nat, base: nat, h: nat)
    requires base < P(9) && h <= x < P(9)
    ensures var y := Balance(x, base);
            (if y >= h then y - h else y + P(9) - h) == Balance(x - h, base)
  {
    hide P;
  }

  /** Replacing a hash of the heap in the running sum. */
  lemma BalanceReplace(heap: seq<Try>, i: nat, t: Try, base: nat, m: nat)
    requires i < |heap| <= m && 1 <= m < B && base < P(9)
    ensures |Replace(heap, i, t)| == |heap|
    ensures var x, top := Balance(Sum(heap), base), Size(heap[i]);
            var y := if x >= top then x - top else x + P(9) - top;
            (y + Size(t)) % P(9) == Balance(Sum(Replace(heap, i, t)), base)
  {
    hide P, Sum, Size, Balance, Replace;
    ReplaceSize(heap, i, t);
    SumReplace(heap, i, t);
    SumFits(heap, m);
    SumFits(Replace(heap, i, t), m);
    BalanceSub(Sum(heap), base, Size(heap[i]));
    BalanceAdd(Sum(heap) - Size(heap[i]), base, Size(t));
  }

  /** A sum that was cleared while hashes adding up to `base` were kept gives their true average only if `base` is less
      than the remainder of the division. */
  lemma MeanExact(x: nat, base: nat, m: nat)
    requires base <= x < P(9) && m >= 1
    ensures Quot(Balance(x, base), m) == Quot(x, m) <==> base <= Rem(x, m)
  {
    hide P, Quot, Rem;
    var q, r := Quot(x, m), Rem(x, m);
    QuotRem(x, m);
    if base <= r {
      QuotIs(q, m, r - base);
    } else {
      QuotRem(x - base, m);
      if Quot(x - base, m) == q {
        assert false;
      }
    }
  }

  /** A kept hash of 5 replaced by one of 3 in a sum cleared in between, with m = 1, is averaged to 2^256 - 2. */
  lemma ResumedExample()
    ensures P(9) > 5 && Rem(Quot(Balance(3, 5), 1), P(8)) == P(8) - 2
  {
    hide P;
    PNext(8);
    PPositive(8);
    var p := P(8);
    QuotIs(B * p - 2, 1, 0);
    QuotIs(B - 1, p, p - 2);
    assert (B - 1) * p + (p - 2) == B * p - 2;
  }

  lemma {:induction false} PPositive(n: nat)
    requires n >= 1
    ensures P(n) >= B
  {
    if n > 1 {
      PPositive(n - 1);
    }
  }
}
