/** CCoinsViewCache as objects linked by their backing view, updated in place; even reads fill the caches
    of every layer they pass. Every method computes the function of the same name on the stack of layers. */
module CoinsCache {
  import opened Common
  import opened Coins

  /** The bottom of every stack: plain maps, as the database stores them. */
  class Database {
    var coins: map<OutPoint, Coin>
    var conts: map<ContractId, ContState>

    constructor (coins: map<OutPoint, Coin>, conts: map<ContractId, ContState>)
      ensures this.coins == coins && this.conts == conts
    {
      this.coins, this.conts := coins, conts;
    }

    method BatchWrite(mapCoins: map<OutPoint, Entry>, mapContState: map<ContractId, ContState>)
      modifies this
      ensures coins == WriteCoins(mapCoins, old(coins)) && conts == old(conts) + mapContState
    {
      var todo := mapCoins.Keys;
      WriteEnds(mapCoins, coins);
      hide WriteSome, WriteCoins;
      while todo != {}
        invariant todo <= mapCoins.Keys && coins == WriteSome(mapCoins, old(coins), todo)
        decreases |todo|
        modifies this`coins
      {
        var o :| o in todo;
        WriteStep(mapCoins, old(coins), todo, o);
        if mapCoins[o].isDirty {
          if mapCoins[o].coin.IsSpent() {
            coins := coins - {o};
          } else {
            coins := coins[o := mapCoins[o].coin];
          }
        }
        todo := todo - {o};
      }
      conts := conts + mapContState;
    }
  }

  class Cache {
    const db: Database
    const base: Cache?
    const rules: Rules
    ghost const Repr: set<object>
    var cacheCoins: map<OutPoint, Entry>
    var cacheContState: map<ContractId, ContState>

    ghost predicate Valid()
      decreases Repr
    {
      && this in Repr && db in Repr
      && (base != null ==> base in Repr && base.Repr <= Repr && this !in base.Repr && base.db == db && base.Valid())
    }

    ghost function Below(): Stack
      requires Valid()
      reads Repr - {this}
      decreases Repr, 0
    {
      if base == null then Base(Ledger(db.coins, db.conts)) else base.Abs()
    }

    ghost function Abs(): (st: Stack)
      requires Valid()
      reads Repr
      ensures st.Cached?
      decreases Repr, 1
    {
      Cached(Layer(cacheCoins, cacheContState), Below())
    }

    /** A cache over the database, or over another cache. */
    constructor (db: Database, base: Cache?, rules: Rules)
      requires base != null ==> base.Valid() && base.db == db
      ensures Valid() && this.base == base && this.db == db && this.rules == rules
      ensures Abs() == Cached(EmptyLayer, Below())
    {
      this.db, this.base, this.rules := db, base, rules;
      cacheCoins, cacheContState := map[], map[];
      Repr := {this, db} + (if base == null then {} else base.Repr);
    }

    method BaseGetCoin(o: OutPoint) returns (found: bool, coin: Coin)
      requires Valid()
      modifies Repr - {this}
      ensures (Below(), if found then Some(coin) else None) == Coins.GetCoin(old(Below()), o)
      decreases Repr, 0
    {
      if base != null {
        found, coin := base.GetCoin(o);
      } else if o in db.coins {
        found, coin := true, db.coins[o];
      } else {
        found, coin := false, NullCoin;
      }
    }

    method FetchCoin(o: OutPoint)
      requires Valid()
      modifies Repr
      ensures Abs() == Fetch(old(Abs()), o)
      decreases Repr, 1
    {
      if o in cacheCoins {
        return;
      }
      var found, tmp := BaseGetCoin(o);
      if !found {
        return;
      }
      cacheCoins := cacheCoins[o := Entry(tmp, false, false)];
      if cacheCoins[o].coin.IsSpent() {
        cacheCoins := cacheCoins[o := Entry(tmp, false, true)];
      }
    }

    method GetCoin(o: OutPoint) returns (found: bool, coin: Coin)
      requires Valid()
      modifies Repr
      ensures (Abs(), if found then Some(coin) else None) == Coins.GetCoin(old(Abs()), o)
      decreases Repr, 2
    {
      FetchCoin(o);
      if o in cacheCoins {
        coin := cacheCoins[o].coin;
        return !coin.IsSpent(), coin;
      }
      return false, NullCoin;
    }

    method GetContState(id: ContractId) returns (found: bool, cs: ContState)
      requires Valid()
      modifies Repr
      ensures (Abs(), if found then Some(cs) else None) == GetCont(old(Abs()), id)
      decreases Repr
    {
      cs := ContState([], []);
      if id !in cacheContState {
        if base != null {
          found, cs := base.GetContState(id);
        } else {
          found := id in db.conts;
          if found {
            cs := db.conts[id];
          }
        }
        if !found {
          return false, cs;
        }
        cacheContState := cacheContState[id := cs];
      }
      return true, cacheContState[id];
    }

    method AddContState(id: ContractId, cs: ContState)
      requires Valid()
      modifies this
      ensures Abs() == AddCont(old(Abs()), id, cs)
    {
      cacheContState := cacheContState[id := cs];
    }

    /** ok is false where the source throws. */
    method AddCoin(o: OutPoint, coin: Coin, possible_overwrite: bool) returns (ok: bool)
      requires Valid() && !coin.IsSpent()
      modifies Repr
      ensures ok == Coins.AddCoin(rules, old(Abs()), o, coin, possible_overwrite).Some?
      ensures ok ==> Some(Abs()) == Coins.AddCoin(rules, old(Abs()), o, coin, possible_overwrite)
    {
      if rules.isUnspendable(coin.script) {
        return true;
      }
      var entry := if o in cacheCoins then cacheCoins[o] else Entry(NullCoin, false, false);
      var nowFresh := false;
      if !possible_overwrite {
        if !entry.coin.IsSpent() {
          return false;
        }
        nowFresh := !entry.isDirty;
      }
      cacheCoins := cacheCoins[o := Entry(coin, true, entry.isFresh || nowFresh)];
      ghost var stored := Abs();
      assert stored == StoreCoin(old(Abs()), o, coin, possible_overwrite);
      var contract := rules.contract(coin.script);
      if contract.Some? {
        var found, cs := GetContState(contract.value);
        if found {
          AddContState(contract.value, cs.(coins := cs.coins + [o]));
        }
      }
      return true;
    }

    method SpendCoin(o: OutPoint) returns (found: bool, moveout: Coin)
      requires Valid()
      modifies Repr
      ensures (Abs(), if found then Some(moveout) else None) == Spend(old(Abs()), o)
    {
      FetchCoin(o);
      if o !in cacheCoins {
        return false, NullCoin;
      }
      moveout := cacheCoins[o].coin;
      if cacheCoins[o].isFresh {
        cacheCoins := cacheCoins - {o};
      } else {
        cacheCoins := cacheCoins[o := Entry(NullCoin, true, false)];
      }
      return true, moveout;
    }

    method HaveCoin(o: OutPoint) returns (have: bool)
      requires Valid()
      modifies Repr
      ensures Abs() == Coins.GetCoin(old(Abs()), o).0 && have == Coins.GetCoin(old(Abs()), o).1.Some?
    {
      FetchCoin(o);
      have := o in cacheCoins && !cacheCoins[o].coin.IsSpent();
    }

    method Uncache(o: OutPoint)
      requires Valid()
      modifies this
      ensures Abs() == Coins.Uncache(old(Abs()), o)
    {
      if o in cacheCoins && !cacheCoins[o].isDirty && !cacheCoins[o].isFresh {
        cacheCoins := cacheCoins - {o};
      }
    }

    /** Write one dirty child entry over ours; false where the source throws. */
    method MergeOne(o: OutPoint, entry: Entry) returns (ok: bool)
      modifies this`cacheCoins
      ensures ok == !(entry.isFresh && o in old(cacheCoins) && !old(cacheCoins)[o].coin.IsSpent())
      ensures ok ==> cacheCoins == Put(old(cacheCoins), o, MergeEntry(entry, Lookup(old(cacheCoins), o)))
    {
      if o !in cacheCoins {
        if !(entry.isFresh && entry.coin.IsSpent()) {
          cacheCoins := cacheCoins[o := Entry(entry.coin, true, entry.isFresh)];
        }
      } else {
        if entry.isFresh && !cacheCoins[o].coin.IsSpent() {
          return false;
        }
        if cacheCoins[o].isFresh && entry.coin.IsSpent() {
          cacheCoins := cacheCoins - {o};
        } else {
          cacheCoins := cacheCoins[o := Entry(entry.coin, true, cacheCoins[o].isFresh)];
        }
      }
      return true;
    }

    /** ok is false where the source throws. */
    method BatchWrite(mapCoins: map<OutPoint, Entry>, mapContState: map<ContractId, ContState>) returns (ok: bool)
      requires Valid()
      modifies this
      ensures ok <==> forall o :: !Misapplied(mapCoins, old(cacheCoins), o)
      ensures ok ==> Abs() == Coins.BatchWrite(old(Abs()), Layer(mapCoins, mapContState))
    {
      var todo := mapCoins.Keys;
      MergeEnds(mapCoins, cacheCoins);
      hide MergeSome, MergeCoins;
      while todo != {}
        invariant todo <= mapCoins.Keys && cacheCoins == MergeSome(mapCoins, old(cacheCoins), todo)
        invariant forall o | o !in todo :: !Misapplied(mapCoins, old(cacheCoins), o)
        decreases |todo|
        modifies this`cacheCoins
      {
        var o :| o in todo;
        MergeStep(mapCoins, old(cacheCoins), todo, o);
        if mapCoins[o].isDirty {
          ok := MergeOne(o, mapCoins[o]);
          if !ok {
            assert Misapplied(mapCoins, old(cacheCoins), o);
            return false;
          }
        }
        todo := todo - {o};
      }
      cacheContState := cacheContState + mapContState;
      return true;
    }

    /** ok is false where the source throws. */
    method Flush() returns (ok: bool)
      requires Valid()
      modifies Repr
      ensures ok == Coins.Flush(old(Abs())).Some?
      ensures ok ==> Some(Abs()) == Coins.Flush(old(Abs()))
    {
      if base != null {
        assert Below() == Cached(Layer(base.cacheCoins, base.cacheContState), base.Below());
        ok := base.BatchWrite(cacheCoins, cacheContState);
        if !ok {
          return false;
        }
      } else {
        db.BatchWrite(cacheCoins, cacheContState);
      }
      cacheCoins := map[];
      cacheContState := map[];
      return true;
    }

    /** ok is false where the source throws. */
    method AddCoins(txid: nat, outs: seq<(int, Script)>, nHeight: nat, fCoinBase: bool, check: bool) returns (ok: bool)
      requires Valid() && forall k | 0 <= k < |outs| :: outs[k].0 != -1
      modifies Repr
      ensures ok == Coins.AddCoins(rules, old(Abs()), txid, outs, 0, nHeight, fCoinBase, check).Some?
      ensures ok ==> Some(Abs()) == Coins.AddCoins(rules, old(Abs()), txid, outs, 0, nHeight, fCoinBase, check)
    {
      var i := 0;
      while i < |outs|
        invariant 0 <= i <= |outs|
        invariant Coins.AddCoins(rules, Abs(), txid, outs, i, nHeight, fCoinBase, check)
               == Coins.AddCoins(rules, old(Abs()), txid, outs, 0, nHeight, fCoinBase, check)
      {
        var overwrite := fCoinBase;
        if check {
          overwrite := HaveCoin(OutPoint(txid, i));
        }
        ok := AddCoin(OutPoint(txid, i), OutputCoin(outs[i], nHeight, fCoinBase), overwrite);
        if !ok {
          return false;
        }
        i := i + 1;
      }
      return true;
    }
  }

  ghost function Put(m: map<OutPoint, Entry>, o: OutPoint, e: Option<Entry>): map<OutPoint, Entry> {
    if e.None? then m - {o} else m[o := e.value]
  }

  /** The parent's entries when the child's entries in `todo` are still to be written. */
  ghost function MergeSome(child: map<OutPoint, Entry>, us: map<OutPoint, Entry>, todo: set<OutPoint>): map<OutPoint, Entry> {
    MergeCoins(child - todo, us)
  }

  lemma MergeStep(child: map<OutPoint, Entry>, us: map<OutPoint, Entry>, todo: set<OutPoint>, o: OutPoint)
    requires o in todo && o in child
    ensures Lookup(MergeSome(child, us, todo), o) == Lookup(us, o)
    ensures MergeSome(child, us, todo - {o}) ==
              if child[o].isDirty then Put(MergeSome(child, us, todo), o, MergeEntry(child[o], Lookup(us, o)))
              else MergeSome(child, us, todo)
  {
    hide MergeEntry;
    var a, b := child - todo, child - (todo - {o});
    assert forall k | k != o :: Merged(a, us, k) == Merged(b, us, k);
    assert Merged(a, us, o) == Lookup(us, o);
  }

  lemma MergeEnds(child: map<OutPoint, Entry>, us: map<OutPoint, Entry>)
    ensures MergeSome(child, us, child.Keys) == us && MergeSome(child, us, {}) == MergeCoins(child, us)
  {
    assert child - child.Keys == map[];
    assert child - {} == child;
  }

  ghost function WriteSome(child: map<OutPoint, Entry>, db: map<OutPoint, Coin>, todo: set<OutPoint>): map<OutPoint, Coin> {
    WriteCoins(child - todo, db)
  }

  lemma WriteStep(child: map<OutPoint, Entry>, db: map<OutPoint, Coin>, todo: set<OutPoint>, o: OutPoint)
    requires o in todo && o in child
    ensures WriteSome(child, db, todo - {o}) ==
              if !child[o].isDirty then WriteSome(child, db, todo)
              else if child[o].coin.IsSpent() then WriteSome(child, db, todo) - {o}
              else WriteSome(child, db, todo)[o := child[o].coin]
  {
    var a, b := child - todo, child - (todo - {o});
    assert forall k | k != o :: (k in a <==> k in b) && (k in a ==> a[k] == b[k]);
  }

  lemma WriteEnds(child: map<OutPoint, Entry>, db: map<OutPoint, Coin>)
    ensures WriteSome(child, db, child.Keys) == db && WriteSome(child, db, {}) == WriteCoins(child, db)
  {
    assert child - child.Keys == map[];
    assert child - {} == child;
  }
}
