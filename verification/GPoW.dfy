/** Mining a GPoW nonce set: the loop over nonces, the queue and heap it fills, the 288-bit running sum. */
module GPoW {
  import opened Common
  import opened Division
  import opened Words
  import opened ArithUint
  import opened ArithShift
  import opened ArithDivide
  import opened GPoWHeap

  /** The sign of the comparison of two hashes. */
  method CompareHashes(a: Hash, b: Hash) returns (r: int)
    ensures r == if Val(a) < Val(b) then -1 else if Val(a) > Val(b) then 1 else 0
  {
    hide Val;
    var i := 7;
    while i >= 0
      invariant -1 <= i < 8
      invariant forall j | i < j < 8 :: a[j] == b[j]
    {
      if a[i] > b[i] {
        Differ(b, a, i);
        return 1;
      }
      if a[i] < b[i] {
        Differ(a, b, i);
        return -1;
      }
      i := i - 1;
    }
    assert a == b;
    return 0;
  }

  lemma NineWords(s: seq<nat>)
    requires |s| == 9
    ensures Val(s) == Val(s[..8]) + s[8] * P(8)
  {
    assert s[..9] == s;
    ValPrefix(s, 8);
  }

  lemma LastCarry(v: nat, top: nat, carry: nat, a: nat, h: nat)
    requires top < B && v + carry * P(8) == a + h
    ensures (v + Lo(top + carry) * P(8)) + Hi(top + carry) * P(9) == (a + top * P(8)) + h
  {
    hide P;
    Carry(top + carry, P(8));
    PNext(8);
    Over(top, carry, P(8));
  }

  /** Adds a hash to a 288-bit number. */
  method AddHash(avg: array<nat>, hash: Hash)
    requires avg.Length == 9 && AreWords(avg[..])
    modifies avg
    ensures AreWords(avg[..]) && Val(avg[..]) == (old(Val(avg[..])) + Val(hash)) % P(9)
  {
    hide Val, P, Lo, Hi;
    ghost var a0 := avg[..];
    ValStart(a0);
    ValStart(hash);
    assert avg[..0] == a0[..0];
    var carry: nat := 0;
    var i := 0;
    while i < 8
      invariant 0 <= i <= 8 && carry <= 1 && AreWords(avg[..])
      invariant avg[i..] == a0[i..]
      invariant Val(avg[..i]) + carry * P(i) == Val(a0[..i]) + Val(hash[..i])
    {
      assert avg[i] == a0[i];
      AddStep(Val(avg[..i]), a0[i], hash[i], carry, Val(a0[..i]), Val(hash[..i]), i);
      ValPrefix(a0, i);
      ValPrefix(hash, i);
      var n: nat := carry + avg[i] + hash[i];
      assert n < TWO64;
      LoHi(n);
      ghost var before := avg[..];
      avg[i] := Lo(n);
      Prefixes(avg[..], before, i);
      carry := Hi(n);
      i := i + 1;
    }
    assert hash[..8] == hash;
    assert avg[8] == a0[8];
    LastCarry(Val(avg[..8]), a0[8], carry, Val(a0[..8]), Val(hash));
    NineWords(a0);
    ghost var low := avg[..8];
    avg[8] := Lo(avg[8] + carry);
    assert avg[..][..8] == low;
    NineWords(avg[..]);
    ValBound(avg[..]);
    ModIs(Val(a0) + Val(hash), P(9), Val(avg[..]), Hi(a0[8] + carry));
  }

  /** Subtracts a hash from a 288-bit number, modulo 2 to the width. */
  method MinusHash(avg: array<nat>, hash: Hash)
    requires avg.Length == 9 && AreWords(avg[..])
    modifies avg
    ensures AreWords(avg[..])
    ensures var x, h := old(Val(avg[..])), Val(hash); Val(avg[..]) == if x >= h then x - h else x + P(9) - h
  {
    hide Val, P;
    var tmp := new nat[9];
    Clear(tmp);
    HashFits(hash);
    AddHash(tmp, hash);
    SubAssign(avg, tmp);
  }

  lemma HashFits(hash: Hash)
    ensures (0 + Val(hash)) % P(9) == Val(hash)
  {
    hide Val, P;
    ValBound(hash);
    PNext(8);
    ModIs(Val(hash), P(9), Val(hash), 0);
  }

  /** Divides the sum by m and keeps the low 256 bits. */
  method AvgHash(avg: array<nat>, m: nat) returns (mean: Hash)
    requires avg.Length == 9 && AreWords(avg[..]) && 1 <= m < B
    modifies avg
    ensures Val(mean) == Rem(Quot(old(Val(avg[..])), m), P(8))
  {
    hide Val, P;
    DivAssign32(avg, m);
    NineWords(avg[..]);
    assert avg[..][..8] == avg[..8];
    mean := avg[..8];
    ValBound(mean);
    QuotIs(avg[8], P(8), Val(mean));
  }

  class GNonces {
    const cfg: Config
    var nonce: nat
    var n: nat
    var q: seq<Try>
    var pq: seq<Try>
    const avg: array<nat>
    var hashGPoW: Hash
    var lastSuccess: nat
    var nMaxTries: nat

    /** What is kept of the accepted tries: the first of them, and in the heap the smallest. */
    ghost predicate Holds(all: seq<Try>)
      reads this`q, this`pq
    {
      if |all| < cfg.m then q == all && pq == []
      else q == all[..cfg.m] && if cfg.conservative then |all| == cfg.m && pq == [] else Best(pq, all, cfg.m)
    }

    ghost function Kept(): seq<Try>
      reads this`q, this`pq
    {
      if |q| < cfg.m || cfg.conservative then q else pq
    }

    /** The running sum was cleared when the kept hashes added up to `base`. */
    ghost predicate Valid(base: nat)
      reads this`nonce, this`q, this`pq, avg
    {
      && cfg.Valid() && avg.Length == 9 && AreWords(avg[..])
      && nonce < B && |q| <= cfg.m && |Kept()| <= cfg.m
      && base < P(9) && Val(avg[..]) == Balance(Sum(Kept()), base)
    }

    constructor (cfg: Config, n: nat)
      requires cfg.Valid() && n < B
      ensures this.cfg == cfg && fresh(avg) && avg.Length == 9
      ensures nonce == 0 && q == [] && pq == [] && this.n == n
    {
      this.cfg := cfg;
      nonce := 0;
      this.n := n;
      q := [];
      pq := [];
      avg := new nat[9];
      hashGPoW := [0, 0, 0, 0, 0, 0, 0, 0];
      lastSuccess := 0;
      nMaxTries := 0;
    }

    /** Nothing more to look for at this nonce. */
    predicate IsmDone()
      reads this
    {
      nonce == cfg.inner || (|q| >= cfg.m && (cfg.conservative || (n != 0 && nonce >= n)))
    }

    method IsNextmDone(ghost base: nat) returns (done: bool)
      requires Valid(base)
      modifies this`nonce
      ensures Valid(base) && nonce == (old(nonce) + 1) % B && done == IsmDone()
      ensures done == (nonce == cfg.inner || (|q| >= cfg.m && (cfg.conservative || (n != 0 && nonce >= n))))
    {
      nonce := (nonce + 1) % B;
      if nonce == cfg.inner {
        return true;
      }
      if |q| < cfg.m {
        return false;
      }
      if cfg.conservative {
        return true;
      }
      return n != 0 && nonce >= n;
    }

    /** The place of a largest hash of the heap; which one of equal hashes is left open. */
    method TopIndex() returns (i: nat)
      requires |pq| >= 1
      ensures Top(pq, i)
    {
      hide Val;
      i := 0;
      var j := 1;
      while j < |pq|
        invariant 1 <= j <= |pq| && i < |pq|
        invariant forall k | 0 <= k < j :: Size(pq[k]) <= Size(pq[i])
      {
        var c := CompareHashes(pq[j].hash, pq[i].hash);
        if c > 0 {
          i := j;
        }
        j := j + 1;
      }
    }

    /** An accepted hash while the queue is not full. */
    method Enqueue(t: Try, ghost all: seq<Try>, ghost base: nat) returns (stop: bool)
      requires Valid(base) && Holds(all) && |q| < cfg.m
      modifies this`q, this`pq, this`lastSuccess, avg
      ensures Valid(base) && Holds(all + [t]) && lastSuccess == t.nonce
      ensures stop == (cfg.conservative && |q| == cfg.m)
    {
      hide Val, P, Sum, Best, Balance;
      lastSuccess := t.nonce;
      SumAppend(q, t);
      SumFits(q + [t], cfg.m);
      BalanceAdd(Sum(q), base, Size(t));
      q := q + [t];
      AddHash(avg, t.hash);
      if |q| == cfg.m {
        assert (all + [t])[..cfg.m] == all + [t];
        if cfg.conservative {
          return true;
        }
        pq := q;
        AllBest(q);
      }
      return false;
    }

    /** An accepted hash once the queue is full: it displaces a largest one of the heap if it is smaller. */
    method Compete(t: Try, ghost all: seq<Try>, ghost base: nat)
      requires Valid(base) && Holds(all) && |q| >= cfg.m && !cfg.conservative
      modifies this`pq, this`lastSuccess, avg
      ensures Valid(base) && Holds(all + [t])
    {
      hide Val, P, Sum, Best, Replace, Balance;
      BestSize(pq, all, cfg.m);
      assert (all + [t])[..cfg.m] == all[..cfg.m];
      var i := TopIndex();
      var top := pq[i].hash;
      var c := CompareHashes(t.hash, top);
      if c < 0 {
        ReplaceBest(pq, all, cfg.m, i, t);
        BalanceReplace(pq, i, t, base, cfg.m);
        lastSuccess := t.nonce;
        MinusHash(avg, top);
        pq := Replace(pq, i, t);
        AddHash(avg, t.hash);
      } else {
        KeepBest(pq, all, cfg.m, i, t);
      }
    }

    /** One nonce: its hash is kept or dropped; the result says to stop at once. */
    method TryNonce(hash: nat -> Hash, ghost all: seq<Try>, ghost base: nat) returns (stop: bool)
      requires Valid(base) && Holds(all) && (cfg.conservative ==> |q| < cfg.m)
      modifies this`q, this`pq, this`lastSuccess, avg
      ensures Valid(base)
      ensures Holds(if Val(hash(nonce)) < Val(cfg.target) then all + [Try(nonce, hash(nonce))] else all)
      ensures stop == (cfg.conservative && |q| == cfg.m)
    {
      hide Val, P, Sum, Best, Balance;
      var h := hash(nonce);
      var c := CompareHashes(h, cfg.target);
      stop := false;
      if c < 0 {
        var t := Try(nonce, h);
        if |q| < cfg.m {
          stop := Enqueue(t, all, base);
        } else {
          Compete(t, all, base);
        }
      }
    }

    /** The loop over nonces, ended by a full queue, the number of tries or the flag that allows mining. `all` are the
        tries accepted before. */
    method Mine(hash: nat -> Hash, allowed: nat -> bool, ghost all: seq<Try>, ghost base: nat) returns (tries: nat)
      requires Valid(base) && Holds(all) && (cfg.conservative ==> |q| < cfg.m)
      modifies this`nonce, this`q, this`pq, this`lastSuccess, this`nMaxTries, avg
      ensures Valid(base) && Holds(all + Accepted(cfg, hash, old(nonce), tries))
      ensures cfg.conservative && |q| == cfg.m ==> tries >= 1
      ensures nonce == NonceAt(old(nonce), if cfg.conservative && |q| == cfg.m then tries - 1 else tries)
      ensures old(nMaxTries) - nMaxTries <= tries <= 2 * (old(nMaxTries) - nMaxTries) + 2
      ensures forall k: nat | k < tries :: allowed(k)
      ensures nMaxTries == 0 || !allowed(tries) || (|q| >= cfg.m && (cfg.conservative || IsmDone()))
    {
      hide Holds, Accepted, Valid, Val, P, Sum, Best, AreWords, Kept, Pow2, NonceAt;
      tries := 0;
      ghost var start, budget := nonce, nMaxTries;
      NothingYet(hash, all, start);
      StartInRange(base);
      while nMaxTries > 0 && allowed(tries)
        invariant Valid(base) && Holds(all + Accepted(cfg, hash, start, tries))
        invariant nonce == NonceAt(start, tries) && (cfg.conservative ==> |q| < cfg.m)
        invariant budget - nMaxTries <= tries <= 2 * (budget - nMaxTries) + if nonce == cfg.inner then 1 else 0
        invariant forall k: nat | k < tries :: allowed(k)
        decreases nMaxTries, if nonce == cfg.inner then 0 else 1
      {
        AcceptedNext(hash, all, start, tries);
        var stop := TryNonce(hash, all + Accepted(cfg, hash, start, tries), base);
        tries := tries + 1;
        if stop {
          break;
        }
        NonceNext(start, tries - 1);
        var done := IsNextmDone(base);
        if done {
          if |q| < cfg.m {
            continue;
          }
          break;
        }
        nMaxTries := nMaxTries - 1;
      }
    }

    lemma NothingYet(hash: nat -> Hash, all: seq<Try>, start: nat)
      ensures all + Accepted(cfg, hash, start, 0) == all
    {}

    lemma StartInRange(base: nat)
      requires Valid(base)
      ensures nonce == NonceAt(nonce, 0) && nonce < B
    {}

    lemma AcceptedNext(hash: nat -> Hash, all: seq<Try>, start: nat, k: nat)
      ensures var nonce, done := NonceAt(start, k), all + Accepted(cfg, hash, start, k);
              all + Accepted(cfg, hash, start, k + 1) ==
                if Val(hash(nonce)) < Val(cfg.target) then done + [Try(nonce, hash(nonce))] else done
    {
      hide Val, NonceAt;
    }

    lemma NonceNext(start: nat, k: nat)
      ensures (NonceAt(start, k) + 1) % B == NonceAt(start, k + 1) != NonceAt(start, k)
    {}

    /** Mines a nonce set, new or mined before; `all` are the tries accepted before. A set that is done is left alone in
        the conservative form, and goes on from the next nonce without a new budget in the other. The flag that allows
        mining may change between any two rounds. */
    method NextGPoW(hash: nat -> Hash, allowed: nat -> bool, ghost all: seq<Try>) returns (tries: nat)
      requires cfg.Valid() && avg.Length == 9 && nonce < B && Holds(all)
      modifies this, avg
      ensures old(IsmDone()) && cfg.conservative ==>
                tries == 0 && unchanged(this) && avg[..] == old(avg[..])
      ensures !(old(IsmDone()) && cfg.conservative) ==>
                var start := if old(IsmDone()) then (old(nonce) + 1) % B else old(nonce);
                var budget := if old(IsmDone()) then old(nMaxTries) else cfg.maxTries;
                && Holds(all + Accepted(cfg, hash, start, tries))
                && old(Sum(Kept())) < P(9)
                && Val(hashGPoW) == Rem(Quot(Balance(Sum(Kept()), old(Sum(Kept()))), cfg.m), P(8))
                && (old(Sum(Kept())) == 0 ==> Val(hashGPoW) == Quot(Sum(Kept()), cfg.m))
                && n == lastSuccess
                && budget - nMaxTries <= tries <= 2 * (budget - nMaxTries) + 2
                && (forall k: nat | k < tries :: allowed(k))
                && (nMaxTries == 0 || !allowed(tries) || |q| >= cfg.m)
    {
      hide Val, P, Sum, Best, Holds, Accepted;
      HoldsSize(all);
      if IsmDone() {
        if cfg.conservative {
          return 0;
        }
        nonce := (nonce + 1) % B;
      } else {
        nMaxTries := cfg.maxTries;
      }
      Clear(avg);
      ghost var base := Sum(Kept());
      SumFits(Kept(), cfg.m);
      tries := Mine(hash, allowed, all, base);
      n := lastSuccess;
      MeanKept(base);
      hashGPoW := AvgHash(avg, cfg.m);
    }

    lemma HoldsSize(all: seq<Try>)
      requires cfg.Valid() && Holds(all)
      ensures |q| <= cfg.m && |Kept()| <= cfg.m
    {
      hide Sum;
    }

    lemma MeanKept(base: nat)
      requires Valid(base)
      ensures base == 0 ==> Rem(Quot(Val(avg[..]), cfg.m), P(8)) == Quot(Sum(Kept()), cfg.m)
    {
      hide Val, P, Sum, Quot, Rem;
      SumFits(Kept(), cfg.m);
      QuotIs(0, P(8), Quot(Sum(Kept()), cfg.m));
    }
  }
}
