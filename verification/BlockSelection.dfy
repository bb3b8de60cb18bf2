/** The greedy selection by fee rate: what the entry of a transaction says once ancestors of it are in the block, when a
    package is turned down, and what it means that the best package is taken next. Fee rates are compared exactly. */
module BlockSelection {
  import opened Common
  import opened BlockPackages

  // ----- entries discounted for ancestors in the block

  /** The sums of `t` without its ancestors `done`: one of them gave up its modified fee, the others their plain fee. */
  ghost predicate Without(p: Pool, done: set<TxId>, t: TxId, m: Mod) {
    && m.nSizeWithAncestors == p.sizeWithAnc(t) - Sum(p.size, done)
    && m.nSigOpCostWithAncestors == p.sigopsWithAnc(t) - Sum(p.sigops, done)
    && (done == {} ==> m.nModFeesWithAncestors == p.modFeesWithAnc(t))
    && (done != {} ==> exists a :: a in done
                         && m.nModFeesWithAncestors == p.modFeesWithAnc(t) - p.modFee(a) - Sum(p.fee, done - {a}))
  }

  /** An existing entry after the ancestors `done`: each gave up its plain fee. */
  ghost predicate Less(p: Pool, done: set<TxId>, m: Mod, m': Mod) {
    && m'.nSizeWithAncestors == m.nSizeWithAncestors - Sum(p.size, done)
    && m'.nSigOpCostWithAncestors == m.nSigOpCostWithAncestors - Sum(p.sigops, done)
    && m'.nModFeesWithAncestors == m.nModFeesWithAncestors - Sum(p.fee, done)
  }

  lemma WithoutLess(p: Pool, done: set<TxId>, more: set<TxId>, t: TxId, m: Mod, m': Mod)
    requires Without(p, done, t, m) && Less(p, more, m, m') && done !! more && done != {}
    ensures Without(p, done + more, t, m')
  {
    SumUnion(p.size, done, more);
    SumUnion(p.sigops, done, more);
    var a :| a in done && m.nModFeesWithAncestors == p.modFeesWithAnc(t) - p.modFee(a) - Sum(p.fee, done - {a});
    SumUnion(p.fee, done - {a}, more);
    assert done + more - {a} == done - {a} + more;
  }

  /** A discounted entry has the true size and sigop sums of the rest of the package. Its fee is the true modified fee of
      the rest plus the fee deltas of all discounted ancestors but one. */
  lemma WithoutSums(p: Pool, done: set<TxId>, t: TxId, m: Mod) returns (a: TxId)
    requires ValidPool(p) && t in p.ids && done <= p.anc(t) && Without(p, done, t, m)
    ensures m.nSizeWithAncestors == Sum(p.size, Package(p, t) - done)
    ensures m.nSigOpCostWithAncestors == Sum(p.sigops, Package(p, t) - done)
    ensures done != {} ==> a in done
    ensures m.nModFeesWithAncestors ==
            Sum(p.modFee, Package(p, t) - done) + Sum(p.modFee, done - {a}) - Sum(p.fee, done - {a})
  {
    var all := Package(p, t);
    assert all == (all - done) + done;
    SumUnion(p.size, all - done, done);
    SumUnion(p.sigops, all - done, done);
    SumUnion(p.modFee, all - done, done);
    if done == {} {
      a := t;
      assert done - {a} == {};
    } else {
      a :| a in done && m.nModFeesWithAncestors == p.modFeesWithAnc(t) - p.modFee(a) - Sum(p.fee, done - {a});
      SumPick(p.modFee, done, a);
    }
  }

  // ----- what is turned down

  /** After the transactions `s` the rest of the package of `t` does not fit, or has a member that may not go in. */
  ghost predicate Refused(c: Config, p: Pool, s: set<TxId>, t: TxId) {
    var rest := Package(p, t) - s;
    || COINBASE_WEIGHT + Sum(p.weight, s) + WITNESS_SCALE_FACTOR * Sum(p.size, rest) >= c.nBlockMaxWeight
    || COINBASE_SIGOPS + Sum(p.sigops, s) + Sum(p.sigops, rest) >= MAX_BLOCK_SIGOPS_COST
    || (c.fNeedSizeAccounting && COINBASE_SIZE + Sum(p.serSize, s) + Sum(p.serSize, rest) >= c.nBlockMaxSize)
    || exists a :: a in rest && !(p.isFinal(a) && (c.fIncludeWitness || !p.hasWitness(a)))
  }

  /** `t` was refused at some point since the block held `from` transactions. */
  ghost predicate TurnedDown(c: Config, p: Pool, from: nat, s: seq<TxId>, t: TxId) {
    exists k :: from <= k <= |s| && t !in s[..k] && Refused(c, p, Members(s[..k]), t)
  }

  lemma TurnedDownStays(c: Config, p: Pool, from: nat, s: seq<TxId>, ts: seq<TxId>, t: TxId)
    requires TurnedDown(c, p, from, s, t)
    ensures TurnedDown(c, p, from, s + ts, t)
  {
    hide Refused;
    var k :| from <= k <= |s| && t !in s[..k] && Refused(c, p, Members(s[..k]), t);
    assert (s + ts)[..k] == s[..k];
  }

  lemma RefusedNow(c: Config, p: Pool, from: nat, s: seq<TxId>, t: TxId)
    requires from <= |s| && t !in s && Refused(c, p, Members(s), t)
    ensures TurnedDown(c, p, from, s, t)
  {
    hide Refused;
    assert s[..|s|] == s;
  }

  // ----- what a transaction is evaluated with

  /** The sums of `t` without its ancestors in the block. Only for a transaction turned down before may some be missed. */
  ghost predicate EvaluatedBy(c: Config, p: Pool, from: nat, s: seq<TxId>, t: TxId, m: Mod, done: set<TxId>) {
    && done <= p.anc(t) * Members(s) && (done == p.anc(t) * Members(s) || TurnedDown(c, p, from, s, t))
    && Without(p, done, t, m)
  }

  ghost predicate Evaluated(c: Config, p: Pool, from: nat, s: seq<TxId>, t: TxId, m: Mod) {
    exists done: set<TxId> :: EvaluatedBy(c, p, from, s, t, m, done)
  }

  /** The entry of a transaction with an ancestor in the block. */
  ghost predicate Modified(c: Config, p: Pool, from: nat, s: seq<TxId>, t: TxId, m: Mod) {
    exists done: set<TxId> :: done != {} && EvaluatedBy(c, p, from, s, t, m, done)
  }

  lemma ModifiedEvaluated(c: Config, p: Pool, from: nat, s: seq<TxId>, t: TxId, m: Mod)
    requires Modified(c, p, from, s, t, m)
    ensures Evaluated(c, p, from, s, t, m)
  {
    hide EvaluatedBy;
  }

  function Cached(p: Pool, t: TxId): Mod {
    Mod(p.sizeWithAnc(t), p.sigopsWithAnc(t), p.modFeesWithAnc(t))
  }

  lemma EvaluatedCached(c: Config, p: Pool, from: nat, s: seq<TxId>, t: TxId)
    requires p.anc(t) * Members(s) == {} || TurnedDown(c, p, from, s, t)
    ensures Evaluated(c, p, from, s, t, Cached(p, t))
  {
    hide TurnedDown;
    assert EvaluatedBy(c, p, from, s, t, Cached(p, t), {});
  }

  /** The sums never fall below the true ones, and are the true ones for a transaction not turned down before. */
  lemma EvaluatedSums(c: Config, p: Pool, from: nat, s: seq<TxId>, t: TxId, m: Mod)
    requires ValidPool(p) && t in p.ids && t !in s && Evaluated(c, p, from, s, t, m)
    ensures m.nSizeWithAncestors > 0
    ensures Remaining(p, p.size, t, Members(s)) <= m.nSizeWithAncestors
    ensures Remaining(p, p.sigops, t, Members(s)) <= m.nSigOpCostWithAncestors
    ensures || TurnedDown(c, p, from, s, t)
            || (&& m.nSizeWithAncestors == Remaining(p, p.size, t, Members(s))
                && m.nSigOpCostWithAncestors == Remaining(p, p.sigops, t, Members(s)))
  {
    hide TurnedDown, Without, PartialOrder, CachedSums;
    var done: set<TxId> :| EvaluatedBy(c, p, from, s, t, m, done);
    var _ := WithoutSums(p, done, t, m);
    PackageInPool(p, t);
    var rest := Package(p, t) - Members(s);
    SumSubset(p.size, rest, Package(p, t) - done);
    SumSubset(p.sigops, rest, Package(p, t) - done);
    SumPick(p.size, rest, t);
    SumSubset(p.size, rest - {t}, rest);
    if done == p.anc(t) * Members(s) {
      assert Package(p, t) - done == rest;
    }
  }

  // ----- fee rates

  /** `a` has no higher fee rate than `b`. */
  predicate NoFaster(a: Mod, b: Mod) {
    a.nModFeesWithAncestors * b.nSizeWithAncestors <= b.nModFeesWithAncestors * a.nSizeWithAncestors
  }

  /** CompareModifiedEntry: by fee rate, and by transaction when that is equal. */
  predicate Ahead(a: Mod, x: TxId, b: Mod, y: TxId) {
    var f1 := a.nModFeesWithAncestors * b.nSizeWithAncestors;
    var f2 := b.nModFeesWithAncestors * a.nSizeWithAncestors;
    if f1 == f2 then x < y else f1 > f2
  }

  lemma ScaleUp(x: int, y: int, k: int)
    requires x <= y && k >= 0
    ensures x * k <= y * k
  {}

  lemma ScaleDown(x: int, y: int, k: int)
    requires x * k <= y * k && k > 0
    ensures x <= y
  {}

  lemma NoFasterTrans(a: Mod, b: Mod, c: Mod)
    requires NoFaster(a, b) && NoFaster(b, c)
    requires a.nSizeWithAncestors > 0 && b.nSizeWithAncestors > 0 && c.nSizeWithAncestors > 0
    ensures NoFaster(a, c)
  {
    var (fa, sa) := (a.nModFeesWithAncestors, a.nSizeWithAncestors);
    var (fb, sb) := (b.nModFeesWithAncestors, b.nSizeWithAncestors);
    var (fc, sc) := (c.nModFeesWithAncestors, c.nSizeWithAncestors);
    ScaleUp(fa * sb, fb * sa, sc);
    ScaleUp(fb * sc, fc * sb, sa);
    assert fa * sb * sc == fa * sc * sb && fb * sa * sc == fb * sc * sa && fc * sb * sa == fc * sa * sb;
    ScaleDown(fa * sc, fc * sa, sb);
  }

  /** CFeeRate::GetFee: thousandths cut toward zero, but a nonzero rate never gives a fee of zero for a nonzero size. */
  function GetFee(nSatoshisPerK: int, nBytes: nat): int {
    var x := nSatoshisPerK * nBytes;
    var nFee := if x >= 0 then x / 1000 else -(-x / 1000);
    if nFee == 0 && nBytes != 0 then (if nSatoshisPerK > 0 then 1 else if nSatoshisPerK < 0 then -1 else 0) else nFee
  }

  /** Once the fastest-paying package is below the minimum fee, every other one pays less than the minimum rate. It can
      still meet the minimum fee of its size exactly, but only where that fee was rounded. */
  lemma OthersBelowRate(nSatoshisPerK: int, m: Mod, m': Mod)
    requires m.nSizeWithAncestors > 0 && m'.nSizeWithAncestors > 0 && NoFaster(m', m)
    requires m.nModFeesWithAncestors < GetFee(nSatoshisPerK, m.nSizeWithAncestors)
    ensures 1000 * m'.nModFeesWithAncestors < nSatoshisPerK * m'.nSizeWithAncestors
    ensures var nFee := GetFee(nSatoshisPerK, m'.nSizeWithAncestors);
            && m'.nModFeesWithAncestors <= nFee
            && ((nSatoshisPerK * m'.nSizeWithAncestors) % 1000 == 0 ==> m'.nModFeesWithAncestors < nFee)
  {
    var (f, n) := (m.nModFeesWithAncestors, m.nSizeWithAncestors);
    var (f', n') := (m'.nModFeesWithAncestors, m'.nSizeWithAncestors);
    FeeAboveRate(nSatoshisPerK, n, f);
    RateCarries(nSatoshisPerK, f, n, f', n');
    RateBelowFee(nSatoshisPerK, n', f');
  }

  lemma RateCarries(r: int, f: int, n: nat, f': int, n': nat)
    requires n > 0 && n' > 0 && 1000 * f < r * n && f' * n <= f * n'
    ensures 1000 * f' < r * n'
  {
    ScaleUp(1000 * f + 1, r * n, n');
    assert r * n * n' == r * n' * n && (1000 * f + 1) * n' == 1000 * (f * n') + n';
    assert 1000 * f' * n == 1000 * (f' * n);
    if 1000 * f' >= r * n' {
      ScaleUp(r * n', 1000 * f', n);
    }
  }

  lemma Rounding(x: int)
    ensures var q := if x >= 0 then x / 1000 else -(-x / 1000);
            && (x >= 0 ==> 1000 * q <= x < 1000 * q + 1000) && (x < 0 ==> 1000 * q - 1000 < x <= 1000 * q)
            && (x % 1000 == 0 ==> x == 1000 * q)
  {}

  lemma FeeAboveRate(r: int, n: nat, f: int)
    requires n > 0 && f < GetFee(r, n)
    ensures 1000 * f < r * n
  {
    var x := r * n;
    Rounding(x);
    Signs(r, n);
  }

  lemma RateBelowFee(r: int, n: nat, f: int)
    requires n > 0 && 1000 * f < r * n
    ensures f <= GetFee(r, n) && ((r * n) % 1000 == 0 ==> f < GetFee(r, n))
  {
    var x := r * n;
    Rounding(x);
    Signs(r, n);
  }

  lemma Signs(r: int, n: nat)
    requires n > 0
    ensures (r > 0 ==> r * n > 0) && (r < 0 ==> r * n < 0) && (r == 0 ==> r * n == 0)
  {}

  /** At 1500 satoshis a kilobyte, 1500 for 1001 bytes is below the minimum, yet 1 for 1 byte, which pays no faster, meets it. */
  lemma SlowerMayMeetFee()
    ensures var (m, m') := (Mod(1001, 0, 1500), Mod(1, 0, 1));
            && NoFaster(m', m) && m.nModFeesWithAncestors < GetFee(1500, 1001) && m'.nModFeesWithAncestors == GetFee(1500, 1)
  {}

  lemma AheadRates(a: Mod, x: TxId, b: Mod, y: TxId)
    ensures Ahead(a, x, b, y) ==> NoFaster(b, a)
    ensures !Ahead(a, x, b, y) ==> NoFaster(a, b)
    ensures NoFaster(a, a)
  {}

  lemma AheadTrans(a: Mod, x: TxId, b: Mod, y: TxId, c: Mod, z: TxId)
    requires Ahead(a, x, b, y) && Ahead(b, y, c, z)
    requires a.nSizeWithAncestors > 0 && b.nSizeWithAncestors > 0 && c.nSizeWithAncestors > 0
    ensures Ahead(a, x, c, z)
  {
    NoFasterTrans(c, b, a);
    if NoFaster(a, c) {
      NoFasterTrans(a, c, b);
      NoFasterTrans(b, a, c);
    }
  }

  lemma AheadOnce(a: Mod, x: TxId, b: Mod, y: TxId)
    requires Ahead(a, x, b, y)
    ensures !Ahead(b, y, a, x)
  {}

  lemma BehindFirst(a: Mod, x: TxId, b: Mod, y: TxId, c: Mod, z: TxId)
    requires Ahead(b, y, c, z) && !Ahead(a, x, c, z)
    requires a.nSizeWithAncestors > 0 && b.nSizeWithAncestors > 0 && c.nSizeWithAncestors > 0
    ensures !Ahead(a, x, b, y)
  {
    hide Ahead;
    if Ahead(a, x, b, y) {
      AheadTrans(a, x, b, y, c, z);
    }
  }

  ghost predicate Sized(mod: map<TxId, Mod>) {
    forall t | t in mod :: mod[t].nSizeWithAncestors > 0
  }

  /** None of the entries `s` is ahead of `x`. */
  ghost predicate Front(mod: map<TxId, Mod>, s: set<TxId>, x: TxId)
    requires s <= mod.Keys
  {
    x in s && forall y | y in s && y != x :: !Ahead(mod[y], y, mod[x], x)
  }

  lemma {:induction false} FrontExists(mod: map<TxId, Mod>, s: set<TxId>)
    requires s != {} && s <= mod.Keys && Sized(mod)
    ensures exists x :: Front(mod, s, x)
    decreases s
  {
    hide Ahead;
    var z :| z in s;
    if s == {z} {
      assert Front(mod, s, z);
    } else {
      FrontExists(mod, s - {z});
      var x :| Front(mod, s - {z}, x);
      if Ahead(mod[z], z, mod[x], x) {
        forall y | y in s && y != z ensures !Ahead(mod[y], y, mod[z], z) {
          AheadOnce(mod[z], z, mod[x], x);
          if y != x {
            BehindFirst(mod[y], y, mod[z], z, mod[x], x);
          }
        }
        assert Front(mod, s, z);
      } else {
        assert Front(mod, s, x);
      }
    }
  }

  // ----- the greedy choice

  /** Every other transaction outside the block has no higher fee rate or was turned down. */
  ghost predicate Foremost(c: Config, p: Pool, from: nat, s: seq<TxId>, t: TxId, m: Mod) {
    forall d | d in p.ids && d !in s && d != t ::
      TurnedDown(c, p, from, s, d) || exists m' :: Evaluated(c, p, from, s, d, m') && NoFaster(m', m)
  }

  ghost predicate Picked(c: Config, p: Pool, from: nat, s: seq<TxId>, t: TxId, m: Mod) {
    t in p.ids && t !in s && Evaluated(c, p, from, s, t, m) && Foremost(c, p, from, s, t, m)
  }

  /** The index the pool keeps by ancestor fee rate: every transaction once, none after a slower one. */
  ghost predicate ByRate(p: Pool, order: seq<TxId>) {
    && Members(order) == p.ids && NoDups(order)
    && forall i, j | 0 <= i < j < |order| :: NoFaster(Cached(p, order[j]), Cached(p, order[i]))
  }

  /** A modified entry is evaluated with its own sums; a transaction without one has no ancestor in the block or was
      turned down. */
  ghost predicate Tracked(c: Config, p: Pool, from: nat, s: seq<TxId>, mod: map<TxId, Mod>) {
    && (forall t | t in mod :: t in p.ids && t !in s && Modified(c, p, from, s, t, mod[t]))
    && forall t | t in p.ids && t !in s && t !in mod :: p.anc(t) * Members(s) == {} || TurnedDown(c, p, from, s, t)
  }

  /** Every pool transaction is in the block, still to be looked at, or turned down. */
  ghost predicate Swept(c: Config, p: Pool, from: nat, s: seq<TxId>, mod: map<TxId, Mod>, rest: seq<TxId>) {
    forall t | t in p.ids :: t in s || t in mod || t in rest || TurnedDown(c, p, from, s, t)
  }

  lemma TrackedSized(c: Config, p: Pool, from: nat, s: seq<TxId>, mod: map<TxId, Mod>)
    requires ValidPool(p) && Tracked(c, p, from, s, mod)
    ensures Sized(mod)
  {
    hide ValidPool, Evaluated, Modified, TurnedDown;
    forall t | t in mod ensures mod[t].nSizeWithAncestors > 0 {
      ModifiedEvaluated(c, p, from, s, t, mod[t]);
      EvaluatedSums(c, p, from, s, t, mod[t]);
    }
  }

  lemma CachedSized(p: Pool, t: TxId)
    requires ValidPool(p) && t in p.ids
    ensures Cached(p, t).nSizeWithAncestors > 0
  {
    PackageInPool(p, t);
    SumPick(p.size, Package(p, t), t);
    SumSubset(p.size, Package(p, t) - {t}, Package(p, t));
  }

  /** The best entry is foremost when it is ahead of the next pool entry, and that one is when it is not. */
  lemma FrontIsForemost(c: Config, p: Pool, from: nat, s: seq<TxId>, mod: map<TxId, Mod>, order: seq<TxId>, mi: nat,
                        t: TxId, m: Mod)
    requires ValidPool(p) && Tracked(c, p, from, s, mod) && ByRate(p, order) && mi <= |order|
    requires Swept(c, p, from, s, mod, order[mi..])
    requires t in p.ids && m.nSizeWithAncestors > 0
    requires forall d | d in mod :: NoFaster(mod[d], m)
    requires mi < |order| ==> NoFaster(Cached(p, order[mi]), m)
    ensures Foremost(c, p, from, s, t, m)
  {
    hide ValidPool, NoFaster, Evaluated, Modified, TurnedDown, ByRate, Cached;
    forall d | d in p.ids && d !in s && d != t && !TurnedDown(c, p, from, s, d)
      ensures exists m' :: Evaluated(c, p, from, s, d, m') && NoFaster(m', m) {
      if d in mod {
        ModifiedEvaluated(c, p, from, s, d, mod[d]);
      } else {
        EvaluatedCached(c, p, from, s, d);
        var i :| 0 <= i < |order[mi..]| && order[mi..][i] == d;
        assert order[mi + i] == d;
        OrderedRates(p, order, mi, mi + i, m);
      }
    }
  }

  lemma OrderedRates(p: Pool, order: seq<TxId>, i: nat, j: nat, m: Mod)
    requires ValidPool(p) && ByRate(p, order) && i <= j < |order|
    requires NoFaster(Cached(p, order[i]), m) && m.nSizeWithAncestors > 0
    ensures NoFaster(Cached(p, order[j]), m)
  {
    hide NoFaster, ValidPool, Cached;
    assert order[i] in Members(order) && order[j] in Members(order);
    if i < j {
      CachedSized(p, order[i]);
      CachedSized(p, order[j]);
      NoFasterTrans(Cached(p, order[j]), Cached(p, order[i]), m);
    }
  }

  // ----- a whole selection

  datatype Choice = Choice(tx: TxId, sums: Mod, txs: seq<TxId>)

  /** A package picked after `s`: it pays for its size, and goes in as what is left of it, ancestors first. */
  ghost predicate Selected(c: Config, p: Pool, from: nat, s: seq<TxId>, x: Choice) {
    && Picked(c, p, from, s, x.tx, x.sums)
    && x.sums.nModFeesWithAncestors >= c.minFee(x.sums.nSizeWithAncestors)
    && Members(x.txs) == p.anc(x.tx) + {x.tx} - Members(s)
    && forall i, j | 0 <= i < j < |x.txs| ::
         |p.anc(x.txs[i])| < |p.anc(x.txs[j])| || (|p.anc(x.txs[i])| == |p.anc(x.txs[j])| && x.txs[i] < x.txs[j])
  }

  /** `s` is `s0` followed by the packages chosen, each selected after those before it. */
  ghost predicate Selection(c: Config, p: Pool, s0: seq<TxId>, chosen: seq<Choice>, s: seq<TxId>) {
    if chosen == [] then s == s0
    else
      var x := chosen[|chosen| - 1];
      exists s1 :: s == s1 + x.txs && Selected(c, p, |s0|, s1, x) && Selection(c, p, s0, chosen[..|chosen| - 1], s1)
  }

  lemma SelectionNext(c: Config, p: Pool, s0: seq<TxId>, chosen: seq<Choice>, s: seq<TxId>, x: Choice)
    requires Selection(c, p, s0, chosen, s) && Selected(c, p, |s0|, s, x)
    ensures Selection(c, p, s0, chosen + [x], s + x.txs)
  {
    hide Selected;
    var all := chosen + [x];
    assert all[..|all| - 1] == chosen && all[|all| - 1] == x;
    assert s + x.txs == s + all[|all| - 1].txs && Selection(c, p, s0, all[..|all| - 1], s);
  }

  // ----- updating the dependents of what was added

  /** In-pool transactions that depend on `t`. */
  function Dependents(p: Pool, t: TxId): set<TxId> {
    set d | d in p.ids && t in p.anc(d)
  }

  /** The modified entry of `d` once its ancestor `t` is in the block. */
  function TouchEntry(p: Pool, mod: map<TxId, Mod>, d: TxId, t: TxId): Mod {
    if d in mod then
      Mod(mod[d].nSizeWithAncestors - p.size(t), mod[d].nSigOpCostWithAncestors - p.sigops(t),
          mod[d].nModFeesWithAncestors - p.fee(t))
    else
      Mod(p.sizeWithAnc(d) - p.size(t), p.sigopsWithAnc(d) - p.sigops(t), p.modFeesWithAnc(d) - p.modFee(t))
  }

  ghost function Touch(p: Pool, mod: map<TxId, Mod>, t: TxId, ds: set<TxId>): map<TxId, Mod> {
    map d | d in mod.Keys + ds :: if d in ds then TouchEntry(p, mod, d, t) else mod[d]
  }

  /** The entries touched for `t` when `added` went in. */
  ghost function Updates(p: Pool, added: set<TxId>): TxId -> int {
    (t: TxId) => |Dependents(p, t) - added|
  }

  ghost function AllUpdates(p: Pool, chosen: seq<Choice>): int {
    if chosen == [] then 0
    else
      var added := Members(chosen[|chosen| - 1].txs);
      AllUpdates(p, chosen[..|chosen| - 1]) + Sum(Updates(p, added), added)
  }

  /** `mod'` is `mod` with the members of `done`, out of the added set, taken out of their dependents. */
  ghost predicate Discounted(p: Pool, added: set<TxId>, done: set<TxId>, mod: map<TxId, Mod>, mod': map<TxId, Mod>) {
    && (forall d :: d in mod' <==> d in mod || (d in p.ids && d !in added && p.anc(d) * done != {}))
    && forall d | d in mod' ::
         if d in mod then Less(p, p.anc(d) * done, mod[d], mod'[d]) else Without(p, p.anc(d) * done, d, mod'[d])
  }

  lemma DiscountedNone(p: Pool, added: set<TxId>, mod: map<TxId, Mod>)
    ensures Discounted(p, added, {}, mod, mod)
  {
    forall d ensures p.anc(d) * {} == {} {}
  }

  lemma TouchedLess(p: Pool, done: set<TxId>, t: TxId, m: Mod, m1: Mod)
    requires Less(p, done, m, m1) && t !in done
    ensures Less(p, done + {t}, m, Mod(m1.nSizeWithAncestors - p.size(t), m1.nSigOpCostWithAncestors - p.sigops(t),
                                       m1.nModFeesWithAncestors - p.fee(t)))
  {
    assert done + {t} - {t} == done;
    SumPick(p.size, done + {t}, t);
    SumPick(p.sigops, done + {t}, t);
    SumPick(p.fee, done + {t}, t);
  }

  lemma TouchedWithout(p: Pool, done: set<TxId>, t: TxId, d: TxId, m1: Mod)
    requires Without(p, done, d, m1) && done != {} && t !in done
    ensures Without(p, done + {t}, d, Mod(m1.nSizeWithAncestors - p.size(t), m1.nSigOpCostWithAncestors - p.sigops(t),
                                          m1.nModFeesWithAncestors - p.fee(t)))
  {
    var m2 := Mod(m1.nSizeWithAncestors - p.size(t), m1.nSigOpCostWithAncestors - p.sigops(t),
                  m1.nModFeesWithAncestors - p.fee(t));
    OneLess(p, t, m1, m2);
    WithoutLess(p, done, {t}, d, m1, m2);
  }

  lemma OneLess(p: Pool, t: TxId, m1: Mod, m2: Mod)
    requires m2 == Mod(m1.nSizeWithAncestors - p.size(t), m1.nSigOpCostWithAncestors - p.sigops(t),
                       m1.nModFeesWithAncestors - p.fee(t))
    ensures Less(p, {t}, m1, m2)
  {
    SumPick(p.size, {t}, t);
    SumPick(p.sigops, {t}, t);
    SumPick(p.fee, {t}, t);
  }

  lemma TouchedFresh(p: Pool, t: TxId, d: TxId)
    ensures Without(p, {t}, d, Mod(p.sizeWithAnc(d) - p.size(t), p.sigopsWithAnc(d) - p.sigops(t),
                                   p.modFeesWithAnc(d) - p.modFee(t)))
  {
    SumPick(p.size, {t}, t);
    SumPick(p.sigops, {t}, t);
    assert {t} - {t} == {};
  }

  lemma TouchedEntry(p: Pool, was: set<TxId>, t: TxId, d: TxId, mod: map<TxId, Mod>, mod1: map<TxId, Mod>)
    requires t !in was && (d in mod ==> d in mod1 && Less(p, was, mod[d], mod1[d]))
    requires d !in mod && d in mod1 ==> was != {} && Without(p, was, d, mod1[d])
    requires d !in mod && d !in mod1 ==> was == {}
    ensures var m2 := TouchEntry(p, mod1, d, t);
            if d in mod then Less(p, was + {t}, mod[d], m2) else Without(p, was + {t}, d, m2)
  {
    hide Less, Without;
    if d in mod {
      TouchedLess(p, was, t, mod[d], mod1[d]);
    } else if d in mod1 {
      TouchedWithout(p, was, t, d, mod1[d]);
    } else {
      TouchedFresh(p, t, d);
      assert was + {t} == {t};
    }
  }

  lemma TouchedKeys(p: Pool, added: set<TxId>, done: set<TxId>, t: TxId, mod: map<TxId, Mod>, mod1: map<TxId, Mod>)
    requires t in added && mod.Keys <= p.ids - added
    requires forall d :: d in mod1 <==> d in mod || (d in p.ids && d !in added && p.anc(d) * done != {})
    ensures var mod2 := Touch(p, mod1, t, Dependents(p, t) - added);
            && (forall d :: d in mod2 <==> d in mod || (d in p.ids && d !in added && p.anc(d) * (done + {t}) != {}))
            && forall d | d in mod2 :: if t in p.anc(d) then mod2[d] == TouchEntry(p, mod1, d, t)
                                       else d in mod1 && mod2[d] == mod1[d]
  {
    hide TouchEntry;
    forall d | d in mod ensures d in p.ids && d !in added {
      assert d in mod.Keys;
    }
    forall d ensures p.anc(d) * (done + {t}) != {} <==> p.anc(d) * done != {} || t in p.anc(d) {
      assert p.anc(d) * (done + {t}) == p.anc(d) * done + p.anc(d) * {t};
      assert t in p.anc(d) ==> t in p.anc(d) * (done + {t});
    }
  }

  lemma DiscountedValue(p: Pool, done: set<TxId>, t: TxId, d: TxId, mod: map<TxId, Mod>, mod1: map<TxId, Mod>, m2: Mod)
    requires t !in done && (d in mod ==> d in mod1 && Less(p, p.anc(d) * done, mod[d], mod1[d]))
    requires d !in mod && d in mod1 ==> p.anc(d) * done != {} && Without(p, p.anc(d) * done, d, mod1[d])
    requires d !in mod && d !in mod1 ==> p.anc(d) * done == {}
    requires if t in p.anc(d) then m2 == TouchEntry(p, mod1, d, t) else d in mod1 && m2 == mod1[d]
    ensures if d in mod then Less(p, p.anc(d) * (done + {t}), mod[d], m2)
            else Without(p, p.anc(d) * (done + {t}), d, m2)
  {
    hide Less, Without, TouchEntry;
    if t in p.anc(d) {
      TouchedEntry(p, p.anc(d) * done, t, d, mod, mod1);
      assert p.anc(d) * (done + {t}) == p.anc(d) * done + {t};
    } else {
      assert p.anc(d) * (done + {t}) == p.anc(d) * done;
    }
  }

  /** One round: each dependent of `t` that was not added gives `t` up, once. */
  lemma DiscountedStep(p: Pool, added: set<TxId>, done: set<TxId>, t: TxId, mod: map<TxId, Mod>, mod1: map<TxId, Mod>)
    requires Discounted(p, added, done, mod, mod1) && t in added && t !in done && mod.Keys <= p.ids - added
    ensures Discounted(p, added, done + {t}, mod, Touch(p, mod1, t, Dependents(p, t) - added))
  {
    hide Less, Without, TouchEntry, Touch, Dependents;
    var mod2 := Touch(p, mod1, t, Dependents(p, t) - added);
    TouchedKeys(p, added, done, t, mod, mod1);
    forall d | d in mod2
      ensures if d in mod then Less(p, p.anc(d) * (done + {t}), mod[d], mod2[d])
              else Without(p, p.anc(d) * (done + {t}), d, mod2[d]) {
      DiscountedValue(p, done, t, d, mod, mod1, mod2[d]);
    }
  }

  /** After a package is added and its dependents are updated, every entry is again what it is evaluated with. */
  lemma TrackedAdded(c: Config, p: Pool, from: nat, s: seq<TxId>, ts: seq<TxId>, mod: map<TxId, Mod>, mod': map<TxId, Mod>)
    requires Tracked(c, p, from, s, mod) && Members(ts) !! Members(s) && Members(ts) <= p.ids
    requires forall a | a in s :: p.anc(a) <= Members(s)
    requires Discounted(p, Members(ts), Members(ts), mod - Members(ts), mod')
    ensures Tracked(c, p, from, s + ts, mod')
  {
    hide TurnedDown, Modified, Less, Without, Discounted;
    assert Members(s + ts) == Members(s) + Members(ts);
    forall t | TurnedDown(c, p, from, s, t) ensures TurnedDown(c, p, from, s + ts, t) {
      TurnedDownStays(c, p, from, s, ts, t);
    }
    forall t | t in mod' ensures t in p.ids && t !in s + ts && Modified(c, p, from, s + ts, t, mod'[t]) {
      TrackedEntry(c, p, from, s, ts, mod, mod', t);
    }
    forall t | t in p.ids && t !in s + ts && t !in mod'
      ensures p.anc(t) * Members(s + ts) == {} || TurnedDown(c, p, from, s + ts, t) {
      TrackedRest(p, ts, mod, mod', t);
      AncestorsIn(p, s, ts, t);
    }
  }

  lemma TrackedRest(p: Pool, ts: seq<TxId>, mod: map<TxId, Mod>, mod': map<TxId, Mod>, t: TxId)
    requires Discounted(p, Members(ts), Members(ts), mod - Members(ts), mod') && t in p.ids && t !in ts && t !in mod'
    ensures t !in mod && p.anc(t) * Members(ts) == {}
  {
    hide Less, Without;
  }

  lemma AncestorsIn(p: Pool, s: seq<TxId>, ts: seq<TxId>, t: TxId)
    ensures p.anc(t) * Members(s + ts) == p.anc(t) * Members(s) + p.anc(t) * Members(ts)
  {
    assert Members(s + ts) == Members(s) + Members(ts);
  }

  lemma TrackedEntry(c: Config, p: Pool, from: nat, s: seq<TxId>, ts: seq<TxId>, mod: map<TxId, Mod>, mod': map<TxId, Mod>,
                     t: TxId)
    requires Tracked(c, p, from, s, mod) && Members(ts) !! Members(s) && t in mod'
    requires forall a | a in s :: p.anc(a) <= Members(s)
    requires Discounted(p, Members(ts), Members(ts), mod - Members(ts), mod')
    ensures t in p.ids && t !in s + ts && Modified(c, p, from, s + ts, t, mod'[t])
  {
    hide TurnedDown, Less, Without, Modified;
    if t in mod - Members(ts) {
      ModifiedMore(c, p, from, s, ts, t, mod[t], mod'[t]);
    } else {
      var new' := p.anc(t) * Members(ts);
      assert t in s ==> new' <= Members(s);
      NewlyModified(c, p, from, s, ts, t, mod'[t]);
    }
  }

  lemma ModifiedMore(c: Config, p: Pool, from: nat, s: seq<TxId>, ts: seq<TxId>, t: TxId, m: Mod, m': Mod)
    requires Members(ts) !! Members(s) && Modified(c, p, from, s, t, m) && Less(p, p.anc(t) * Members(ts), m, m')
    ensures Modified(c, p, from, s + ts, t, m')
  {
    hide TurnedDown, Less, Without, Members;
    var done: set<TxId> :| done != {} && EvaluatedBy(c, p, from, s, t, m, done);
    WithoutLess(p, done, p.anc(t) * Members(ts), t, m, m');
    AncestorsIn(p, s, ts, t);
    if TurnedDown(c, p, from, s, t) {
      TurnedDownStays(c, p, from, s, ts, t);
    }
    assert EvaluatedBy(c, p, from, s + ts, t, m', done + p.anc(t) * Members(ts));
  }

  lemma NewlyModified(c: Config, p: Pool, from: nat, s: seq<TxId>, ts: seq<TxId>, t: TxId, m: Mod)
    requires p.anc(t) * Members(s) == {} || TurnedDown(c, p, from, s, t)
    requires p.anc(t) * Members(ts) != {} && Without(p, p.anc(t) * Members(ts), t, m)
    ensures Modified(c, p, from, s + ts, t, m)
  {
    hide TurnedDown, Without, Members;
    AncestorsIn(p, s, ts, t);
    if TurnedDown(c, p, from, s, t) {
      TurnedDownStays(c, p, from, s, ts, t);
    }
    assert EvaluatedBy(c, p, from, s + ts, t, m, p.anc(t) * Members(ts));
  }
}
