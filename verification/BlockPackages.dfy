/** Packages of dependent transactions: the mempool as a finite partial order, the state of a block under
    assembly, and what adding a package keeps. */
module BlockPackages {
  import opened Common

  type TxId = nat

  const WITNESS_SCALE_FACTOR: nat := 4
  const MAX_BLOCK_SIGOPS_COST: nat := 80000
  const MAX_CONSECUTIVE_FAILURES: nat := 1000
  const COINBASE_SIZE: nat := 1000
  const COINBASE_WEIGHT: nat := 4000
  const COINBASE_SIGOPS: nat := 400

  /** The memory pool: `anc` gives all in-pool ancestors of a transaction; `sizeWithAnc`, `sigopsWithAnc` and
      `modFeesWithAnc` are the cached sums over a transaction and its ancestors. */
  datatype Pool = Pool(
    ids: set<TxId>,
    anc: TxId -> set<TxId>,
    size: TxId -> int,
    weight: TxId -> int,
    sigops: TxId -> int,
    serSize: TxId -> int,
    fee: TxId -> int,
    modFee: TxId -> int,
    sizeWithAnc: TxId -> int,
    sigopsWithAnc: TxId -> int,
    modFeesWithAnc: TxId -> int,
    isFinal: TxId -> bool,
    hasWitness: TxId -> bool
  )

  ghost predicate PartialOrder(p: Pool) {
    && (forall t | t in p.ids :: p.anc(t) <= p.ids && t !in p.anc(t))
    && (forall t, a | t in p.ids && a in p.anc(t) :: p.anc(a) <= p.anc(t))
  }

  /** A transaction has a size, no negative costs, and its virtual size covers its weight. */
  ghost predicate Costs(p: Pool) {
    forall t | t in p.ids ::
      && 0 < p.size(t) && 0 <= p.weight(t) <= WITNESS_SCALE_FACTOR * p.size(t)
      && 0 <= p.sigops(t) && 0 <= p.serSize(t)
  }

  ghost predicate CachedSums(p: Pool) {
    forall t | t in p.ids ::
      && p.sizeWithAnc(t) == Full(p, p.size, t) && p.sigopsWithAnc(t) == Full(p, p.sigops, t)
      && p.modFeesWithAnc(t) == Full(p, p.modFee, t)
  }

  ghost predicate ValidPool(p: Pool) {
    PartialOrder(p) && Costs(p) && CachedSums(p)
  }

  datatype Config = Config(
    nBlockMaxWeight: nat,
    nBlockMaxSize: nat,
    fNeedSizeAccounting: bool,
    fIncludeWitness: bool,
    minFee: int -> int
  )

  datatype Block = Block(
    vtx: seq<TxId>,
    inBlock: set<TxId>,
    nBlockWeight: int,
    nBlockSize: int,
    nBlockTx: int,
    nBlockSigOpsCost: int,
    nFees: int
  )

  const EmptyBlock := Block([], {}, COINBASE_WEIGHT, COINBASE_SIZE, 0, COINBASE_SIGOPS, 0)

  /** An entry of mapModifiedTx. */
  datatype Mod = Mod(nSizeWithAncestors: int, nSigOpCostWithAncestors: int, nModFeesWithAncestors: int)

  // ----- sums over sets

  ghost function Sum(f: TxId -> int, s: set<TxId>): int {
    if s == {} then 0
    else
      var x :| x in s;
      f(x) + Sum(f, s - {x})
  }

  lemma {:induction false} SumPick(f: TxId -> int, s: set<TxId>, x: TxId)
    requires x in s
    ensures Sum(f, s) == f(x) + Sum(f, s - {x})
    decreases s
  {
    var y :| y in s && Sum(f, s) == f(y) + Sum(f, s - {y});
    if y != x {
      SumPick(f, s - {y}, x);
      SumPick(f, s - {x}, y);
      assert s - {y} - {x} == s - {x} - {y};
    }
  }

  lemma {:induction false} SumUnion(f: TxId -> int, a: set<TxId>, b: set<TxId>)
    requires a !! b
    ensures Sum(f, a + b) == Sum(f, a) + Sum(f, b)
    decreases a
  {
    if a == {} {
      assert a + b == b;
    } else {
      var x :| x in a;
      SumPick(f, a, x);
      SumPick(f, a + b, x);
      assert a + b - {x} == (a - {x}) + b;
      SumUnion(f, a - {x}, b);
    }
  }

  lemma {:induction false} SumScaled(f: TxId -> int, g: TxId -> int, s: set<TxId>)
    requires forall x | x in s :: f(x) <= WITNESS_SCALE_FACTOR * g(x)
    ensures Sum(f, s) <= WITNESS_SCALE_FACTOR * Sum(g, s)
    decreases s
  {
    if s != {} {
      var x :| x in s;
      SumPick(f, s, x);
      SumPick(g, s, x);
      SumScaled(f, g, s - {x});
    }
  }

  lemma SumSubset(f: TxId -> int, a: set<TxId>, b: set<TxId>)
    requires a <= b && forall x | x in b :: f(x) >= 0
    ensures 0 <= Sum(f, a) <= Sum(f, b)
  {
    SumUnion(f, a, b - a);
    assert a + (b - a) == b;
    SumNonNeg(f, b - a);
    SumNonNeg(f, a);
  }

  lemma {:induction false} SumNonNeg(f: TxId -> int, s: set<TxId>)
    requires forall x | x in s :: f(x) >= 0
    ensures Sum(f, s) >= 0
    decreases s
  {
    if s != {} {
      var x :| x in s;
      SumPick(f, s, x);
      SumNonNeg(f, s - {x});
    }
  }

  // ----- packages

  /** A transaction with all its ancestors. */
  function Package(p: Pool, t: TxId): set<TxId> {
    p.anc(t) + {t}
  }

  ghost function Full(p: Pool, f: TxId -> int, t: TxId): int {
    Sum(f, Package(p, t))
  }

  /** The true sum over what is not yet in the block. */
  ghost function Remaining(p: Pool, f: TxId -> int, t: TxId, inBlock: set<TxId>): int {
    Sum(f, Package(p, t) - inBlock)
  }

  function AncestorCount(p: Pool, t: TxId): nat {
    |p.anc(t)| + 1
  }

  lemma AncestorCountGrows(p: Pool, a: TxId, t: TxId)
    requires PartialOrder(p) && t in p.ids && a in p.anc(t)
    ensures AncestorCount(p, a) < AncestorCount(p, t)
  {
    assert a in p.ids && a !in p.anc(a);
    SubsetSize(p.anc(a) + {a}, p.anc(t));
  }

  // ----- the block under assembly

  function Members(s: seq<TxId>): set<TxId> {
    set t | t in s
  }

  ghost predicate NoDups(s: seq<TxId>) {
    forall i, j | 0 <= i < j < |s| :: s[i] != s[j]
  }

  /** Every transaction comes after all its in-pool ancestors, which are therefore all present. */
  ghost predicate Ordered(p: Pool, s: seq<TxId>) {
    forall i | 0 <= i < |s| :: p.anc(s[i]) <= Members(s[..i])
  }

  ghost predicate Totalled(c: Config, p: Pool, b: Block) {
    && b.nBlockWeight == COINBASE_WEIGHT + Sum(p.weight, b.inBlock)
    && b.nBlockSigOpsCost == COINBASE_SIGOPS + Sum(p.sigops, b.inBlock)
    && b.nBlockSize == COINBASE_SIZE + (if c.fNeedSizeAccounting then Sum(p.serSize, b.inBlock) else 0)
    && b.nFees == Sum(p.fee, b.inBlock)
    && b.nBlockTx == |b.vtx|
  }

  ghost predicate WithinLimits(c: Config, b: Block) {
    && b.nBlockWeight < c.nBlockMaxWeight
    && b.nBlockSigOpsCost < MAX_BLOCK_SIGOPS_COST
    && (c.fNeedSizeAccounting ==> b.nBlockSize < c.nBlockMaxSize)
  }

  predicate Eligible(c: Config, p: Pool, t: TxId) {
    p.isFinal(t) && (c.fIncludeWitness || !p.hasWitness(t))
  }

  /** What is promised of a block at every point between packages. */
  ghost predicate BlockOk(c: Config, p: Pool, b: Block) {
    && b.inBlock == Members(b.vtx) <= p.ids && NoDups(b.vtx) && Ordered(p, b.vtx)
    && Totalled(c, p, b)
    && (b.vtx != [] ==> WithinLimits(c, b))
    && (forall t | t in b.inBlock :: Eligible(c, p, t))
  }

  // ----- adding a package

  function AddTx(c: Config, p: Pool, b: Block, t: TxId): Block {
    Block(b.vtx + [t], b.inBlock + {t}, b.nBlockWeight + p.weight(t),
          if c.fNeedSizeAccounting then b.nBlockSize + p.serSize(t) else b.nBlockSize,
          b.nBlockTx + 1, b.nBlockSigOpsCost + p.sigops(t), b.nFees + p.fee(t))
  }

  function AddAll(c: Config, p: Pool, b: Block, ts: seq<TxId>): Block {
    if ts == [] then b else AddTx(c, p, AddAll(c, p, b, ts[..|ts| - 1]), ts[|ts| - 1])
  }

  lemma AddAllNext(c: Config, p: Pool, b: Block, ts: seq<TxId>, i: nat)
    requires i < |ts|
    ensures AddAll(c, p, b, ts[..i + 1]) == AddTx(c, p, AddAll(c, p, b, ts[..i]), ts[i])
  {
    assert ts[..i + 1][..i] == ts[..i];
  }

  lemma MembersNext(ts: seq<TxId>, i: nat)
    requires i < |ts|
    ensures Members(ts[..i + 1]) == Members(ts[..i]) + {ts[i]}
  {
    assert ts[..i + 1] == ts[..i] + [ts[i]];
  }

  lemma NoneAdded(c: Config, p: Pool, b: Block, ts: seq<TxId>)
    ensures AddAll(c, p, b, ts[..0]) == b && Members(ts[..0]) == {}
  {}

  /** The order CompareTxIterByAncestorCount sorts by. */
  predicate Before(p: Pool, s: TxId, t: TxId) {
    AncestorCount(p, s) < AncestorCount(p, t) || (AncestorCount(p, s) == AncestorCount(p, t) && s < t)
  }

  ghost predicate SortedPackage(p: Pool, ts: seq<TxId>) {
    forall i, j | 0 <= i < j < |ts| :: Before(p, ts[i], ts[j])
  }

  lemma AddTxTotals(c: Config, p: Pool, b: Block, t: TxId)
    requires Totalled(c, p, b) && t !in b.inBlock
    ensures Totalled(c, p, AddTx(c, p, b, t))
  {
    var s := b.inBlock + {t};
    assert s - {t} == b.inBlock;
    SumPick(p.weight, s, t);
    SumPick(p.sigops, s, t);
    SumPick(p.serSize, s, t);
    SumPick(p.fee, s, t);
  }

  lemma {:induction false} AddAllTotals(c: Config, p: Pool, b: Block, ts: seq<TxId>)
    requires Totalled(c, p, b) && NoDups(ts) && Members(ts) !! b.inBlock
    ensures var b' := AddAll(c, p, b, ts);
            Totalled(c, p, b') && b'.vtx == b.vtx + ts && b'.inBlock == b.inBlock + Members(ts)
  {
    hide Totalled;
    if ts != [] {
      var n := |ts| - 1;
      var init, t := ts[..n], ts[n];
      assert ts == init + [t];
      assert Members(ts) == Members(init) + {t};
      AddAllTotals(c, p, b, init);
      AddTxTotals(c, p, AddAll(c, p, b, init), t);
    } else {
      assert Members(ts) == {};
      assert b.vtx + ts == b.vtx;
    }
  }

  /** Sorting by ancestor count is enough to order a package after what is already in the block. */
  lemma PackageOrdered(p: Pool, vtx: seq<TxId>, t: TxId, ts: seq<TxId>)
    requires PartialOrder(p) && t in p.ids
    requires NoDups(vtx) && Ordered(p, vtx)
    requires Members(ts) == Package(p, t) - Members(vtx) && SortedPackage(p, ts)
    ensures NoDups(vtx + ts) && Ordered(p, vtx + ts)
  {
    forall i | 0 <= i < |ts| ensures p.anc(ts[i]) <= Members((vtx + ts)[..|vtx| + i]) {
      var x := ts[i];
      assert x in Members(ts);
      forall a | a in p.anc(x) ensures a in Members((vtx + ts)[..|vtx| + i]) {
        AncestorCountGrows(p, a, x);
        if a !in vtx {
          assert a in Members(ts);
          var j :| 0 <= j < |ts| && ts[j] == a;
          assert j < i;
          assert (vtx + ts)[|vtx| + j] == a;
        } else {
          var j :| 0 <= j < |vtx| && vtx[j] == a;
          assert (vtx + ts)[j] == a;
        }
      }
    }
    forall i | 0 <= i < |vtx| ensures (vtx + ts)[..i] == vtx[..i] {}
    forall i, j | 0 <= i < j < |vtx + ts| ensures (vtx + ts)[i] != (vtx + ts)[j] {
      if i < |vtx| <= j {
        assert ts[j - |vtx|] in Members(ts);
      }
    }
  }

  lemma PackageWithin(c: Config, p: Pool, b: Block, rest: set<TxId>, b': Block)
    requires Costs(p) && Totalled(c, p, b) && Totalled(c, p, b') && b'.inBlock == b.inBlock + rest
    requires rest <= p.ids && rest !! b.inBlock
    requires b.nBlockWeight + WITNESS_SCALE_FACTOR * Sum(p.size, rest) < c.nBlockMaxWeight
    requires b.nBlockSigOpsCost + Sum(p.sigops, rest) < MAX_BLOCK_SIGOPS_COST
    requires c.fNeedSizeAccounting ==> b.nBlockSize + Sum(p.serSize, rest) < c.nBlockMaxSize
    ensures WithinLimits(c, b')
  {
    SumUnion(p.weight, b.inBlock, rest);
    SumUnion(p.sigops, b.inBlock, rest);
    SumUnion(p.serSize, b.inBlock, rest);
    SumScaled(p.weight, p.size, rest);
  }

  lemma SortedNoDups(p: Pool, ts: seq<TxId>)
    requires SortedPackage(p, ts)
    ensures NoDups(ts)
  {
    forall i, j | 0 <= i < j < |ts| ensures ts[i] != ts[j] {
      assert Before(p, ts[i], ts[j]);
    }
  }

  lemma PackageInPool(p: Pool, t: TxId)
    requires PartialOrder(p) && t in p.ids
    ensures Package(p, t) <= p.ids
  {}

  /** A package that passes both tests leaves the block within its limits and well ordered. */
  lemma PackageKeeps(c: Config, p: Pool, b: Block, t: TxId, ts: seq<TxId>)
    requires ValidPool(p) && BlockOk(c, p, b) && t in p.ids && t !in b.inBlock
    requires Members(ts) == Package(p, t) - b.inBlock && SortedPackage(p, ts)
    requires b.nBlockWeight + WITNESS_SCALE_FACTOR * Remaining(p, p.size, t, b.inBlock) < c.nBlockMaxWeight
    requires b.nBlockSigOpsCost + Remaining(p, p.sigops, t, b.inBlock) < MAX_BLOCK_SIGOPS_COST
    requires c.fNeedSizeAccounting ==> b.nBlockSize + Sum(p.serSize, Members(ts)) < c.nBlockMaxSize
    requires forall x | x in Members(ts) :: Eligible(c, p, x)
    ensures BlockOk(c, p, AddAll(c, p, b, ts))
    ensures AddAll(c, p, b, ts).inBlock == b.inBlock + Members(ts) && AddAll(c, p, b, ts).vtx == b.vtx + ts
  {
    hide Ordered, NoDups, SortedPackage, Totalled, Sum, AddAll, PartialOrder, Costs, CachedSums;
    var b' := AddAll(c, p, b, ts);
    SortedNoDups(p, ts);
    PackageInPool(p, t);
    AddAllTotals(c, p, b, ts);
    PackageOrdered(p, b.vtx, t, ts);
    PackageWithin(c, p, b, Members(ts), b');
    assert Members(b.vtx + ts) == b.inBlock + Members(ts);
  }

  lemma OrderedClosed(p: Pool, s: seq<TxId>, t: TxId)
    requires Ordered(p, s) && t in s
    ensures p.anc(t) <= Members(s)
  {
    var i :| 0 <= i < |s| && s[i] == t;
    assert Members(s[..i]) <= Members(s);
  }
}
