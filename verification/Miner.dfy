/** BlockAssembler: the greedy package scheduler, in place. */
module Miner {
  import opened BlockPackages
  import opened BlockSelection

  /** Why the selection loop ended. */
  datatype Exit = Exhausted | LowFee(tx: TxId, sums: Mod) | GaveUp(nConsecutiveFailed: nat)

  class BlockAssembler {
    const pool: Pool
    const config: Config
    var vtx: seq<TxId>
    var inBlock: set<TxId>
    var nBlockWeight: int
    var nBlockSize: int
    var nBlockTx: int
    var nBlockSigOpsCost: int
    var nFees: int

    ghost function Abs(): Block
      reads this
    {
      Block(vtx, inBlock, nBlockWeight, nBlockSize, nBlockTx, nBlockSigOpsCost, nFees)
    }

    ghost predicate Ok()
      reads this
    {
      ValidPool(pool) && BlockOk(config, pool, Abs())
    }

    constructor (pool: Pool, config: Config)
      requires ValidPool(pool)
      ensures this.pool == pool && this.config == config
      ensures Ok() && Abs() == EmptyBlock
    {
      this.pool, this.config := pool, config;
      vtx, inBlock := [], {};
      nBlockWeight, nBlockSize, nBlockTx, nBlockSigOpsCost, nFees :=
        COINBASE_WEIGHT, COINBASE_SIZE, 0, COINBASE_SIGOPS, 0;
    }

    method AddToBlock(t: TxId)
      modifies this
      ensures Abs() == AddTx(config, pool, old(Abs()), t)
    {
      vtx := vtx + [t];
      if config.fNeedSizeAccounting {
        nBlockSize := nBlockSize + pool.serSize(t);
      }
      nBlockWeight := nBlockWeight + pool.weight(t);
      nBlockTx := nBlockTx + 1;
      nBlockSigOpsCost := nBlockSigOpsCost + pool.sigops(t);
      nFees := nFees + pool.fee(t);
      inBlock := inBlock + {t};
    }

    method OnlyUnconfirmed(testSet: set<TxId>) returns (r: set<TxId>)
      ensures r == testSet - inBlock
    {
      r := testSet;
      var todo := testSet;
      while todo != {}
        invariant todo <= testSet && r == testSet - (inBlock - todo)
        decreases |todo|
      {
        var t :| t in todo;
        if t in inBlock {
          r := r - {t};
        }
        todo := todo - {t};
      }
    }

    method TestPackage(packageSize: int, packageSigOpsCost: int) returns (fits: bool)
      ensures fits == (nBlockWeight + WITNESS_SCALE_FACTOR * packageSize < config.nBlockMaxWeight
                       && nBlockSigOpsCost + packageSigOpsCost < MAX_BLOCK_SIGOPS_COST)
    {
      if nBlockWeight + WITNESS_SCALE_FACTOR * packageSize >= config.nBlockMaxWeight {
        return false;
      }
      if nBlockSigOpsCost + packageSigOpsCost >= MAX_BLOCK_SIGOPS_COST {
        return false;
      }
      return true;
    }

    /** The running size test of each prefix amounts to one test of the whole package. */
    method TestPackageTransactions(package: set<TxId>) returns (ok: bool)
      requires package != {} && forall t | t in package :: pool.serSize(t) >= 0
      ensures ok <==> && (forall t | t in package :: pool.isFinal(t) && (config.fIncludeWitness || !pool.hasWitness(t)))
                      && (config.fNeedSizeAccounting ==> nBlockSize + Sum(pool.serSize, package) < config.nBlockMaxSize)
    {
      var nPotentialBlockSize := nBlockSize;
      var todo := package;
      while todo != {}
        invariant todo <= package
        invariant forall t | t in package && t !in todo :: pool.isFinal(t) && (config.fIncludeWitness || !pool.hasWitness(t))
        invariant config.fNeedSizeAccounting ==> nPotentialBlockSize + Sum(pool.serSize, todo) == nBlockSize + Sum(pool.serSize, package)
        invariant config.fNeedSizeAccounting && todo != package ==> nPotentialBlockSize < config.nBlockMaxSize
        decreases |todo|
      {
        var t :| t in todo;
        if !pool.isFinal(t) {
          return false;
        }
        if !config.fIncludeWitness && pool.hasWitness(t) {
          return false;
        }
        SumPick(pool.serSize, todo, t);
        if config.fNeedSizeAccounting {
          var nTxSize := pool.serSize(t);
          if nPotentialBlockSize + nTxSize >= config.nBlockMaxSize {
            SumNonNeg(pool.serSize, todo - {t});
            return false;
          }
          nPotentialBlockSize := nPotentialBlockSize + nTxSize;
        }
        todo := todo - {t};
      }
      return true;
    }

    /** Insert into the modified set the dependents of each added transaction that are not themselves added. */
    method UpdatePackagesForAdded(alreadyAdded: set<TxId>, mapModifiedTx: map<TxId, Mod>)
      returns (mod: map<TxId, Mod>, nDescendantsUpdated: nat)
      requires mapModifiedTx.Keys <= pool.ids - alreadyAdded
      ensures Discounted(pool, alreadyAdded, alreadyAdded, mapModifiedTx, mod)
      ensures nDescendantsUpdated == Sum(Updates(pool, alreadyAdded), alreadyAdded)
    {
      hide Touch, Discounted, Updates, Sum, Card, Dependents;
      nDescendantsUpdated := 0;
      mod := mapModifiedTx;
      var todo := alreadyAdded;
      DiscountedNone(pool, alreadyAdded, mod);
      NoUpdates(pool, alreadyAdded);
      assert alreadyAdded - todo == {};
      while todo != {}
        invariant todo <= alreadyAdded
        invariant Discounted(pool, alreadyAdded, alreadyAdded - todo, mapModifiedTx, mod)
        invariant nDescendantsUpdated == Sum(Updates(pool, alreadyAdded), alreadyAdded - todo)
        decreases todo
      {
        var it :| it in todo;
        UpdatesNext(pool, alreadyAdded, alreadyAdded - todo, it);
        DiscountedStep(pool, alreadyAdded, alreadyAdded - todo, it, mapModifiedTx, mod);
        var n: nat;
        mod, n := UpdateDependents(it, alreadyAdded, mod);
        nDescendantsUpdated := nDescendantsUpdated + n;
        assert alreadyAdded - todo + {it} == alreadyAdded - (todo - {it});
        todo := todo - {it};
      }
      assert alreadyAdded - todo == alreadyAdded;
    }

    method UpdateDependents(it: TxId, alreadyAdded: set<TxId>, mapModifiedTx: map<TxId, Mod>)
      returns (mod: map<TxId, Mod>, n: nat)
      ensures mod == Touch(pool, mapModifiedTx, it, Dependents(pool, it) - alreadyAdded)
      ensures n == Card(Dependents(pool, it) - alreadyAdded)
    {
      hide Touch, Dependents, TouchEntry, Card;
      n := 0;
      mod := mapModifiedTx;
      ghost var all := Dependents(pool, it);
      var todo := Dependents(pool, it);
      TouchNone(pool, mod, it);
      assert all - todo - alreadyAdded == {};
      while todo != {}
        invariant todo <= all
        invariant mod == Touch(pool, mapModifiedTx, it, all - todo - alreadyAdded) && n == Card(all - todo - alreadyAdded)
        decreases todo
      {
        var desc :| desc in todo;
        ghost var done := all - todo - alreadyAdded;
        if desc !in alreadyAdded {
          n := n + 1;
          TouchNext(pool, mapModifiedTx, it, done, desc);
          CardNext(done, desc);
          mod := mod[desc := TouchEntry(pool, mod, desc, it)];
          assert all - (todo - {desc}) - alreadyAdded == done + {desc};
        } else {
          assert all - (todo - {desc}) - alreadyAdded == done;
        }
        todo := todo - {desc};
      }
      assert all - todo - alreadyAdded == all - alreadyAdded;
    }

    /** The package in the order of CompareTxIterByAncestorCount. */
    method SortForBlock(package: set<TxId>) returns (sorted: seq<TxId>)
      ensures Members(sorted) == package && SortedPackage(pool, sorted)
    {
      sorted := [];
      var rest := package;
      hide Before, SortedPackage, Members, Lead;
      SortedStart(pool, package);
      while rest != {}
        invariant rest <= package && Members(sorted) == package - rest && SortedPackage(pool, sorted)
        invariant Lead(pool, sorted, rest)
        decreases |rest|
      {
        LeastExists(pool, rest);
        var x :| x in rest && forall y | y in rest && y != x :: Before(pool, x, y);
        SortedNext(pool, sorted, rest, x);
        sorted := sorted + [x];
        rest := rest - {x};
      }
    }

    /** Add a sorted package to the block and take its members out of the modified set. */
    method AddSorted(sorted: seq<TxId>, mapModifiedTx: map<TxId, Mod>) returns (mod: map<TxId, Mod>)
      modifies this
      ensures Abs() == AddAll(config, pool, old(Abs()), sorted)
      ensures mod == mapModifiedTx - Members(sorted)
    {
      hide AddAll, AddTx, Members;
      NoneAdded(config, pool, Abs(), sorted);
      mod := mapModifiedTx;
      var i := 0;
      while i < |sorted|
        invariant 0 <= i <= |sorted|
        invariant Abs() == AddAll(config, pool, old(Abs()), sorted[..i])
        invariant mod == mapModifiedTx - Members(sorted[..i])
      {
        AddAllNext(config, pool, old(Abs()), sorted, i);
        MembersNext(sorted, i);
        AddToBlock(sorted[i]);
        mod := mod - {sorted[i]};
        i := i + 1;
      }
      assert sorted[..i] == sorted;
    }

    /** Everything done for a package that passed its tests. */
    method AddPackage(iter: TxId, ancestors: set<TxId>, mapModifiedTx: map<TxId, Mod>, ghost from: nat)
      returns (mod: map<TxId, Mod>, n: nat, ghost txs: seq<TxId>)
      requires Ok() && Tracked(config, pool, from, vtx, mapModifiedTx)
      requires iter in pool.ids && iter !in inBlock && ancestors == Package(pool, iter) - inBlock
      requires nBlockWeight + WITNESS_SCALE_FACTOR * Remaining(pool, pool.size, iter, inBlock) < config.nBlockMaxWeight
      requires nBlockSigOpsCost + Remaining(pool, pool.sigops, iter, inBlock) < MAX_BLOCK_SIGOPS_COST
      requires config.fNeedSizeAccounting ==> nBlockSize + Sum(pool.serSize, ancestors) < config.nBlockMaxSize
      requires forall t | t in ancestors :: Eligible(config, pool, t)
      modifies this
      ensures Ok() && Tracked(config, pool, from, vtx, mod) && mapModifiedTx.Keys <= mod.Keys + inBlock
      ensures vtx == old(vtx) + txs && inBlock == old(inBlock) + ancestors
      ensures Members(txs) == ancestors && SortedPackage(pool, txs)
      ensures n == Sum(Updates(pool, ancestors), ancestors)
    {
      ghost var b := Abs();
      hide PartialOrder, Costs, CachedSums, Sum, Full, Ordered, NoDups, Totalled, AddAll, SortedPackage, Modified, TurnedDown;
      var sorted := SortForBlock(ancestors);
      txs := sorted;
      PackageKeeps(config, pool, b, iter, sorted);
      PackageInPool(pool, iter);
      mod := AddSorted(sorted, mapModifiedTx);
      forall t | t in b.vtx ensures pool.anc(t) <= Members(b.vtx) {
        OrderedClosed(pool, b.vtx, t);
      }
      ghost var mod0 := mod;
      mod, n := UpdatePackagesForAdded(ancestors, mod);
      DiscountedKeys(pool, ancestors, ancestors, mod0, mod);
      TrackedAdded(config, pool, from, b.vtx, sorted, mapModifiedTx, mod);
    }

    /** Whether a pool entry needs no look: it is in the block, or modified, or failed before. */
    predicate SkipMapTxEntry(t: TxId, mod: map<TxId, Mod>, failedTx: set<TxId>)
      reads this
    {
      t in mod || t in inBlock || t in failedTx
    }

    /** Both tests of a package; on success it is added, otherwise it is turned down. */
    method TryPackage(iter: TxId, packageSize: int, packageSigOpsCost: int, mapModifiedTx: map<TxId, Mod>,
                      ghost from: nat, ghost sums: Mod)
      returns (fits: bool, added: bool, mod: map<TxId, Mod>, n: nat, ghost txs: seq<TxId>)
      requires Ok() && Tracked(config, pool, from, vtx, mapModifiedTx) && iter in pool.ids && iter !in inBlock
      requires from <= |vtx| && Evaluated(config, pool, from, vtx, iter, sums)
      requires packageSize == sums.nSizeWithAncestors && packageSigOpsCost == sums.nSigOpCostWithAncestors
      modifies this
      ensures Ok() && Tracked(config, pool, from, vtx, mod) && (added ==> fits)
      ensures !added ==> Abs() == old(Abs()) && mod == mapModifiedTx && TurnedDown(config, pool, from, vtx, iter)
      ensures added ==> vtx == old(vtx) + txs && Members(txs) == Package(pool, iter) - old(inBlock) && SortedPackage(pool, txs)
      ensures added ==> old(inBlock) <= inBlock && iter in inBlock && iter in Members(txs)
      ensures added ==> mapModifiedTx.Keys <= mod.Keys + inBlock && n == Sum(Updates(pool, Members(txs)), Members(txs))
    {
      hide PartialOrder, Costs, CachedSums, Sum, Remaining, Tracked, Evaluated, TurnedDown, SortedPackage, Updates;
      mod, n, added, txs := mapModifiedTx, 0, false, [];
      EvaluatedSums(config, pool, from, vtx, iter, sums);
      fits := TestPackage(packageSize, packageSigOpsCost);
      if !fits {
        OverLimits(config, pool, from, Abs(), iter, sums);
        return;
      }
      var ancestors := OnlyUnconfirmed(pool.anc(iter));
      ancestors := ancestors + {iter};
      assert ancestors == Package(pool, iter) - inBlock;
      SizesNonNeg(pool, iter);
      var eligible := TestPackageTransactions(ancestors);
      if !eligible {
        BadMember(config, pool, from, Abs(), iter);
        return;
      }
      added := true;
      mod, n, txs := AddPackage(iter, ancestors, mapModifiedTx, from);
    }

    /** The entry to evaluate next: the best modified one when the pool entries have run out or it beats the
        next of them, otherwise that next one. */
    method Next(order: seq<TxId>, mi: nat, mod: map<TxId, Mod>) returns (iter: TxId, fUsingModified: bool)
      requires mi <= |order| && (mi < |order| || mod.Keys != {}) && Sized(mod)
      requires mi < |order| ==> Cached(pool, order[mi]).nSizeWithAncestors > 0
      ensures if fUsingModified then iter in mod else mi < |order| && iter == order[mi]
      ensures var m := if fUsingModified then mod[iter] else Cached(pool, iter);
              && m.nSizeWithAncestors > 0 && (forall d | d in mod :: NoFaster(mod[d], m))
              && (mi < |order| ==> NoFaster(Cached(pool, order[mi]), m))
    {
      hide Ahead, NoFaster;
      if mod.Keys != {} {
        FrontExists(mod, mod.Keys);
        var modit :| modit in mod && forall y | y in mod && y != modit :: !Ahead(mod[y], y, mod[modit], modit);
        FrontRates(mod, modit);
        if mi == |order| {
          return modit, true;
        }
        var entry := order[mi];
        AheadRates(mod[modit], modit, Cached(pool, entry), entry);
        if Ahead(mod[modit], modit, Mod(pool.sizeWithAnc(entry), pool.sigopsWithAnc(entry), pool.modFeesWithAnc(entry)), entry) {
          return modit, true;
        }
        FrontBehind(mod, modit, Cached(pool, entry));
        AheadRates(Cached(pool, entry), entry, Cached(pool, entry), entry);
      } else {
        assert forall d :: d !in mod.Keys;
        AheadRates(Cached(pool, order[mi]), order[mi], Cached(pool, order[mi]), order[mi]);
      }
      return order[mi], false;
    }

    /** For every pool: the block is a sequence of packages, each the rest of the fastest-paying package left and each
        paying for its size. When nothing is left to look at, every transaction outside was turned down; when the loop
        ends on a low fee, no transaction outside pays faster unless it was turned down; when it gives up, the block is
        nearly full and more than a thousand transactions outside were turned down since the last package. */
    method AddPackageTxs(order: seq<TxId>)
      returns (exit: Exit, nPackagesSelected: nat, nDescendantsUpdated: nat, ghost chosen: seq<Choice>, ghost failures: set<TxId>)
      requires Ok() && ByRate(pool, order)
      modifies this
      ensures Ok() && Selection(config, pool, old(vtx), chosen, vtx)
      ensures nPackagesSelected == |chosen| && nDescendantsUpdated == AllUpdates(pool, chosen)
      ensures exit.Exhausted? ==> forall t | t in pool.ids :: t in vtx || TurnedDown(config, pool, |old(vtx)|, vtx, t)
      ensures exit.LowFee? ==>
                && Picked(config, pool, |old(vtx)|, vtx, exit.tx, exit.sums)
                && exit.sums.nModFeesWithAncestors < config.minFee(exit.sums.nSizeWithAncestors)
      ensures exit.GaveUp? ==>
                && nBlockWeight > config.nBlockMaxWeight - COINBASE_WEIGHT
                && |failures| == exit.nConsecutiveFailed > MAX_CONSECUTIVE_FAILURES
                && forall t | t in failures :: t in pool.ids && t !in vtx && TurnedDown(config, pool, |old(vtx)|, vtx, t)
    {
      hide PartialOrder, Costs, CachedSums, BlockOk, Tracked, Members, TurnedDown, Evaluated, Selection, ByRate, Cached, Sized,
        NoFaster, Loop, Picked, SortedPackage, AllUpdates, Updates, Sum;
      nPackagesSelected, nDescendantsUpdated := 0, 0;
      chosen, failures := [], {};
      var failedTx: set<TxId> := {};
      var mod := Prepare();
      var mi: nat := 0;
      var nConsecutiveFailed: nat := 0;
      ghost var from := |vtx|;
      Start(config, pool, vtx, mod, order);
      while mi < |order| || mod.Keys != {}
        invariant Ok() && Tracked(config, pool, from, vtx, mod) && mi <= |order| && from == |old(vtx)| <= |vtx|
        invariant Loop(config, pool, from, vtx, mod, order[mi..], failedTx, failures) && |failures| == nConsecutiveFailed
        invariant Selection(config, pool, old(vtx), chosen, vtx)
        invariant nPackagesSelected == |chosen| && nDescendantsUpdated == AllUpdates(pool, chosen)
        decreases pool.ids - inBlock, |order| - mi, mod.Keys
      {
        BlockIs(config, pool, Abs());
        if mi < |order| && SkipMapTxEntry(order[mi], mod, failedTx) {
          Skip(config, pool, from, vtx, mod, order, mi, failedTx, failures);
          mi := mi + 1;
          continue;
        }
        Sizes(config, pool, from, vtx, mod, order, mi);
        var iter, fUsingModified := Next(order, mi, mod);
        ghost var mod0, rest, failed0 := mod, order[mi..], failedTx;
        ghost var sums := if fUsingModified then mod[iter] else Cached(pool, iter);
        Pick(config, pool, from, vtx, mod, order, mi, iter, fUsingModified, sums, failedTx, failures);
        if !fUsingModified {
          mi := mi + 1;
        }
        assert iter !in inBlock;
        var packageSize, packageFees, packageSigOpsCost :=
          pool.sizeWithAnc(iter), pool.modFeesWithAnc(iter), pool.sigopsWithAnc(iter);
        if fUsingModified {
          packageSize := mod[iter].nSizeWithAncestors;
          packageFees := mod[iter].nModFeesWithAncestors;
          packageSigOpsCost := mod[iter].nSigOpCostWithAncestors;
        } else {
          CachedIs(pool, iter);
        }
        if packageFees < config.minFee(packageSize) {
          exit := LowFee(iter, Mod(packageSize, packageSigOpsCost, packageFees));
          return;
        }
        ghost var s := vtx;
        var fits, added, n;
        ghost var txs;
        fits, added, mod, n, txs := TryPackage(iter, packageSize, packageSigOpsCost, mod, from, sums);
        if !added {
          if fUsingModified {
            mod := mod - {iter};
            failedTx := failedTx + {iter};
          }
          TrackedDrop(config, pool, from, vtx, mod0, iter);
          Fail(config, pool, from, vtx, mod0, mod, rest, order[mi..], failed0, failedTx, failures, iter, fUsingModified);
          if !fits {
            nConsecutiveFailed := nConsecutiveFailed + 1;
            failures := failures + {iter};
            if nConsecutiveFailed > MAX_CONSECUTIVE_FAILURES && nBlockWeight > config.nBlockMaxWeight - COINBASE_WEIGHT {
              Failures(config, pool, from, vtx, mod, order[mi..], failedTx, failures);
              exit := GaveUp(nConsecutiveFailed);
              return;
            }
          }
          continue;
        }
        BlockIs(config, pool, Abs());
        Grow(config, pool, from, s, txs, mod0, mod, rest, order[mi..], failedTx, failures, iter);
        SelectionAdded(config, pool, old(vtx), chosen, s, Choice(iter, sums, txs));
        chosen := chosen + [Choice(iter, sums, txs)];
        nConsecutiveFailed := 0;
        failures := {};
        nPackagesSelected := nPackagesSelected + 1;
        nDescendantsUpdated := nDescendantsUpdated + n;
      }
      Done(config, pool, from, vtx, mod, order[mi..], failedTx, failures);
      exit := Exhausted;
    }

    /** The modified set for what is in the block already. */
    method Prepare() returns (mod: map<TxId, Mod>)
      requires Ok()
      ensures Tracked(config, pool, |vtx|, vtx, mod)
    {
      hide PartialOrder, Costs, CachedSums, Sum, Full, Modified, TurnedDown, Discounted;
      var n;
      mod, n := UpdatePackagesForAdded(inBlock, map[]);
      PreparedTracked(config, pool, vtx, mod);
    }
  }

  ghost predicate Lead(p: Pool, sorted: seq<TxId>, rest: set<TxId>) {
    forall i, y | 0 <= i < |sorted| && y in rest :: Before(p, sorted[i], y)
  }

  lemma SortedStart(p: Pool, rest: set<TxId>)
    ensures Members([]) == {} && SortedPackage(p, []) && Lead(p, [], rest)
  {}

  lemma SortedNext(p: Pool, sorted: seq<TxId>, rest: set<TxId>, x: TxId)
    requires SortedPackage(p, sorted) && Lead(p, sorted, rest)
    requires x in rest && forall y | y in rest && y != x :: Before(p, x, y)
    ensures SortedPackage(p, sorted + [x]) && Lead(p, sorted + [x], rest - {x})
    ensures Members(sorted + [x]) == Members(sorted) + {x}
  {
    hide Before;
  }

  lemma SizesNonNeg(p: Pool, t: TxId)
    requires ValidPool(p) && t in p.ids
    ensures forall x | x in Package(p, t) :: p.serSize(x) >= 0
  {
    PackageInPool(p, t);
  }

  lemma DiscountedKeys(p: Pool, added: set<TxId>, done: set<TxId>, mod: map<TxId, Mod>, mod': map<TxId, Mod>)
    requires Discounted(p, added, done, mod, mod')
    ensures mod.Keys <= mod'.Keys
  {
    hide Less, Without;
    forall d | d in mod.Keys ensures d in mod'.Keys {
      assert d in mod';
    }
  }

  lemma PreparedTracked(c: Config, p: Pool, s: seq<TxId>, mod: map<TxId, Mod>)
    requires PartialOrder(p) && Discounted(p, Members(s), Members(s), map[], mod)
    ensures Tracked(c, p, |s|, s, mod)
  {
    hide TurnedDown, Without;
    forall t | t in mod ensures t in p.ids && t !in s && Modified(c, p, |s|, s, t, mod[t]) {
      assert EvaluatedBy(c, p, |s|, s, t, mod[t], p.anc(t) * Members(s));
    }
  }

  lemma FrontRates(mod: map<TxId, Mod>, x: TxId)
    requires x in mod && forall y | y in mod && y != x :: !Ahead(mod[y], y, mod[x], x)
    ensures forall y | y in mod :: NoFaster(mod[y], mod[x])
  {
    hide Ahead, NoFaster;
    forall y | y in mod ensures NoFaster(mod[y], mod[x]) {
      AheadRates(mod[y], y, mod[x], x);
    }
  }

  lemma FrontBehind(mod: map<TxId, Mod>, x: TxId, m: Mod)
    requires x in mod && Sized(mod) && m.nSizeWithAncestors > 0 && NoFaster(mod[x], m)
    requires forall y | y in mod :: NoFaster(mod[y], mod[x])
    ensures forall y | y in mod :: NoFaster(mod[y], m)
  {
    hide NoFaster;
    forall y | y in mod ensures NoFaster(mod[y], m) {
      NoFasterTrans(mod[y], mod[x], m);
    }
  }

  /** A package over the limits with the sums it is evaluated with is turned down. */
  lemma OverLimits(c: Config, p: Pool, from: nat, b: Block, t: TxId, m: Mod)
    requires ValidPool(p) && BlockOk(c, p, b) && t in p.ids && t !in b.vtx && from <= |b.vtx|
    requires Evaluated(c, p, from, b.vtx, t, m)
    requires || b.nBlockWeight + WITNESS_SCALE_FACTOR * m.nSizeWithAncestors >= c.nBlockMaxWeight
             || b.nBlockSigOpsCost + m.nSigOpCostWithAncestors >= MAX_BLOCK_SIGOPS_COST
    ensures TurnedDown(c, p, from, b.vtx, t)
  {
    hide ValidPool, Evaluated, TurnedDown, Sum;
    EvaluatedSums(c, p, from, b.vtx, t, m);
    if !TurnedDown(c, p, from, b.vtx, t) {
      RefusedNow(c, p, from, b.vtx, t);
    }
  }

  lemma BadMember(c: Config, p: Pool, from: nat, b: Block, t: TxId)
    requires BlockOk(c, p, b) && t !in b.vtx && from <= |b.vtx|
    requires var rest := Package(p, t) - b.inBlock;
             || (exists a :: a in rest && !(p.isFinal(a) && (c.fIncludeWitness || !p.hasWitness(a))))
             || (c.fNeedSizeAccounting && b.nBlockSize + Sum(p.serSize, rest) >= c.nBlockMaxSize)
    ensures TurnedDown(c, p, from, b.vtx, t)
  {
    hide TurnedDown, Sum;
    RefusedNow(c, p, from, b.vtx, t);
  }

  lemma BlockIs(c: Config, p: Pool, b: Block)
    requires BlockOk(c, p, b)
    ensures b.inBlock == Members(b.vtx) <= p.ids && forall t :: t in b.inBlock <==> t in b.vtx
  {}

  lemma CachedIs(p: Pool, t: TxId)
    ensures Cached(p, t) == Mod(p.sizeWithAnc(t), p.sigopsWithAnc(t), p.modFeesWithAnc(t))
  {}

  // ----- what the loop keeps

  /** Every transaction is in the block, still to be looked at, or turned down, and the failed ones are turned down. Those
      turned down in a row are not looked at again before the next package. */
  ghost predicate Loop(c: Config, p: Pool, from: nat, s: seq<TxId>, mod: map<TxId, Mod>, rest: seq<TxId>,
                       failed: set<TxId>, failures: set<TxId>) {
    && Swept(c, p, from, s, mod, rest)
    && (forall t | t in failed :: TurnedDown(c, p, from, s, t))
    && forall t | t in failures ::
         t in p.ids && t !in s && t !in mod && (t in rest ==> t in failed) && TurnedDown(c, p, from, s, t)
  }

  lemma Start(c: Config, p: Pool, s: seq<TxId>, mod: map<TxId, Mod>, order: seq<TxId>)
    requires ByRate(p, order)
    ensures Loop(c, p, |s|, s, mod, order[0..], {}, {}) && Selection(c, p, s, [], s) && AllUpdates(p, []) == 0
  {
    hide TurnedDown, NoFaster, Selected;
    assert order[0..] == order;
    forall t | t in p.ids ensures t in order {
      assert t in Members(order);
    }
  }

  lemma Skip(c: Config, p: Pool, from: nat, s: seq<TxId>, mod: map<TxId, Mod>, order: seq<TxId>, mi: nat,
             failed: set<TxId>, failures: set<TxId>)
    requires mi < |order| && Loop(c, p, from, s, mod, order[mi..], failed, failures)
    requires order[mi] in mod || order[mi] in s || order[mi] in failed
    ensures Loop(c, p, from, s, mod, order[mi + 1..], failed, failures)
  {
    hide TurnedDown;
    assert order[mi..] == [order[mi]] + order[mi + 1..];
  }

  lemma Sizes(c: Config, p: Pool, from: nat, s: seq<TxId>, mod: map<TxId, Mod>, order: seq<TxId>, mi: nat)
    requires ValidPool(p) && Tracked(c, p, from, s, mod) && ByRate(p, order) && mi <= |order|
    ensures Sized(mod) && (mi < |order| ==> order[mi] in p.ids && Cached(p, order[mi]).nSizeWithAncestors > 0)
  {
    hide ValidPool, Sized, Cached, Tracked, NoFaster;
    TrackedSized(c, p, from, s, mod);
    if mi < |order| {
      assert order[mi] in Members(order);
      CachedSized(p, order[mi]);
    }
  }

  /** The entry the loop evaluates is the one to pick, and not one turned down since the last package. */
  lemma Pick(c: Config, p: Pool, from: nat, s: seq<TxId>, mod: map<TxId, Mod>, order: seq<TxId>, mi: nat,
             iter: TxId, modified: bool, sums: Mod, failed: set<TxId>, failures: set<TxId>)
    requires ValidPool(p) && Tracked(c, p, from, s, mod) && ByRate(p, order) && mi <= |order|
    requires Loop(c, p, from, s, mod, order[mi..], failed, failures)
    requires modified ==> iter in mod && sums == mod[iter]
    requires !modified ==> mi < |order| && iter == order[mi] && iter !in mod && iter !in s && iter !in failed
    requires !modified ==> sums == Cached(p, iter)
    requires sums.nSizeWithAncestors > 0 && forall d | d in mod :: NoFaster(mod[d], sums)
    requires mi < |order| ==> NoFaster(Cached(p, order[mi]), sums)
    ensures Picked(c, p, from, s, iter, sums)
    ensures iter in p.ids && iter !in s && Evaluated(c, p, from, s, iter, sums) && iter !in failures
    ensures !modified ==> iter !in order[mi + 1..] && order[mi..] == [iter] + order[mi + 1..]
  {
    hide ValidPool, NoFaster, Evaluated, Modified, TurnedDown, Cached, Foremost, Swept;
    if modified {
      ModifiedEvaluated(c, p, from, s, iter, sums);
    } else {
      assert iter in Members(order);
      EvaluatedCached(c, p, from, s, iter);
      var tail := order[mi + 1..];
      forall i | 0 <= i < |tail| ensures tail[i] != iter {
        assert tail[i] == order[mi + 1 + i];
      }
    }
    FrontIsForemost(c, p, from, s, mod, order, mi, iter, sums);
  }

  lemma TrackedDrop(c: Config, p: Pool, from: nat, s: seq<TxId>, mod: map<TxId, Mod>, t: TxId)
    requires Tracked(c, p, from, s, mod) && TurnedDown(c, p, from, s, t)
    ensures Tracked(c, p, from, s, mod - {t})
  {
    hide TurnedDown, Modified;
  }

  lemma Fail(c: Config, p: Pool, from: nat, s: seq<TxId>, mod: map<TxId, Mod>, mod': map<TxId, Mod>, rest: seq<TxId>,
             rest': seq<TxId>, failed: set<TxId>, failed': set<TxId>, failures: set<TxId>, iter: TxId, modified: bool)
    requires Loop(c, p, from, s, mod, rest, failed, failures) && failed' == (if modified then failed + {iter} else failed)
    requires iter in p.ids && iter !in s && TurnedDown(c, p, from, s, iter)
    requires if modified then mod' == mod - {iter} && rest' == rest
             else mod' == mod && iter !in mod && iter !in rest' && rest == [iter] + rest'
    ensures Loop(c, p, from, s, mod', rest', failed', failures)
    ensures Loop(c, p, from, s, mod', rest', failed', failures + {iter})
  {
    hide TurnedDown;
  }

  lemma Grow(c: Config, p: Pool, from: nat, s: seq<TxId>, txs: seq<TxId>, mod: map<TxId, Mod>, mod': map<TxId, Mod>,
             rest: seq<TxId>, rest': seq<TxId>, failed: set<TxId>, failures: set<TxId>, iter: TxId)
    requires Loop(c, p, from, s, mod, rest, failed, failures) && iter in Members(txs)
    requires mod.Keys <= mod'.Keys + Members(s + txs) && (rest' == rest || rest == [iter] + rest')
    ensures Loop(c, p, from, s + txs, mod', rest', failed, {})
  {
    hide TurnedDown;
    forall t | TurnedDown(c, p, from, s, t) ensures TurnedDown(c, p, from, s + txs, t) {
      TurnedDownStays(c, p, from, s, txs, t);
    }
    forall t | t in mod ensures t in mod' || t in s + txs {
      assert t in mod.Keys;
    }
  }

  lemma Failures(c: Config, p: Pool, from: nat, s: seq<TxId>, mod: map<TxId, Mod>, rest: seq<TxId>, failed: set<TxId>,
                 failures: set<TxId>)
    requires Loop(c, p, from, s, mod, rest, failed, failures)
    ensures forall t | t in failures :: t in p.ids && t !in s && TurnedDown(c, p, from, s, t)
  {
    hide TurnedDown;
  }

  lemma Done(c: Config, p: Pool, from: nat, s: seq<TxId>, mod: map<TxId, Mod>, rest: seq<TxId>, failed: set<TxId>,
             failures: set<TxId>)
    requires Loop(c, p, from, s, mod, rest, failed, failures) && mod.Keys == {} && rest == []
    ensures forall t | t in p.ids :: t in s || TurnedDown(c, p, from, s, t)
  {
    hide TurnedDown;
    forall t | t in p.ids ensures t in s || TurnedDown(c, p, from, s, t) {
      assert t !in mod.Keys;
    }
  }

  lemma SortedByCount(p: Pool, ts: seq<TxId>)
    requires SortedPackage(p, ts)
    ensures forall i, j | 0 <= i < j < |ts| ::
              |p.anc(ts[i])| < |p.anc(ts[j])| || (|p.anc(ts[i])| == |p.anc(ts[j])| && ts[i] < ts[j])
  {
    forall i, j | 0 <= i < j < |ts|
      ensures |p.anc(ts[i])| < |p.anc(ts[j])| || (|p.anc(ts[i])| == |p.anc(ts[j])| && ts[i] < ts[j]) {
      assert Before(p, ts[i], ts[j]);
    }
  }

  lemma SelectionAdded(c: Config, p: Pool, s0: seq<TxId>, chosen: seq<Choice>, s: seq<TxId>, x: Choice)
    requires Selection(c, p, s0, chosen, s) && Picked(c, p, |s0|, s, x.tx, x.sums)
    requires x.sums.nModFeesWithAncestors >= c.minFee(x.sums.nSizeWithAncestors)
    requires Members(x.txs) == Package(p, x.tx) - Members(s) && SortedPackage(p, x.txs)
    ensures Selection(c, p, s0, chosen + [x], s + x.txs)
    ensures AllUpdates(p, chosen + [x]) == AllUpdates(p, chosen) + Sum(Updates(p, Members(x.txs)), Members(x.txs))
  {
    hide Picked, Selection, Updates, Sum;
    SortedByCount(p, x.txs);
    SelectionNext(c, p, s0, chosen, s, x);
    assert (chosen + [x])[..|chosen|] == chosen;
  }

  ghost function Card(s: set<TxId>): nat {
    |s|
  }

  lemma CardNext(s: set<TxId>, x: TxId)
    requires x !in s
    ensures Card(s + {x}) == Card(s) + 1
  {}

  lemma NoUpdates(p: Pool, added: set<TxId>)
    ensures Sum(Updates(p, added), {}) == 0
  {}

  lemma UpdatesNext(p: Pool, added: set<TxId>, done: set<TxId>, t: TxId)
    requires t !in done
    ensures Sum(Updates(p, added), done + {t}) == Sum(Updates(p, added), done) + Card(Dependents(p, t) - added)
  {
    SumPick(Updates(p, added), done + {t}, t);
    assert done + {t} - {t} == done;
  }

  lemma TouchNone(p: Pool, mod: map<TxId, Mod>, t: TxId)
    ensures Touch(p, mod, t, {}) == mod && Card({}) == 0
  {}

  lemma TouchNext(p: Pool, mod: map<TxId, Mod>, t: TxId, ds: set<TxId>, d: TxId)
    requires d !in ds
    ensures Touch(p, mod, t, ds + {d}) == Touch(p, mod, t, ds)[d := TouchEntry(p, mod, d, t)]
    ensures TouchEntry(p, Touch(p, mod, t, ds), d, t) == TouchEntry(p, mod, d, t)
  {}

  lemma {:induction false} LeastExists(p: Pool, s: set<TxId>)
    requires s != {}
    ensures exists x :: x in s && forall y | y in s && y != x :: Before(p, x, y)
    decreases s
  {
    var z :| z in s;
    if s == {z} {
    } else {
      LeastExists(p, s - {z});
      var x :| x in s - {z} && forall y | y in s - {z} && y != x :: Before(p, x, y);
      if Before(p, x, z) {
        assert forall y | y in s && y != x :: Before(p, x, y);
      } else {
        assert Before(p, z, x);
        forall y | y in s && y != z ensures Before(p, z, y) {
          assert y == x || Before(p, x, y);
        }
      }
    }
  }
}
