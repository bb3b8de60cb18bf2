/** The coin cache seen from outside: what the lookups answer after each operation. */
module CoinsExact {
  import opened Common
  import opened Coins

  /** What a lookup answers. */
  function CoinAt(st: Stack, o: OutPoint): Option<Coin> {
    GetCoin(st, o).1
  }

  function StateAt(st: Stack, id: ContractId): Option<ContState> {
    GetCont(st, id).1
  }

  lemma Answers(st: Stack)
    requires Ok(st)
    ensures forall o :: CoinAt(st, o) == if o in View(st).coins then Some(View(st).coins[o]) else None
    ensures forall id: ContractId :: StateAt(st, id) == if id in View(st).conts then Some(View(st).conts[id]) else None
  {
    hide View, Ok, GetCoin, GetCont;
    forall o ensures CoinAt(st, o) == if o in View(st).coins then Some(View(st).coins[o]) else None {
      GetCoinRefines(st, o);
    }
    forall id: ContractId ensures StateAt(st, id) == if id in View(st).conts then Some(View(st).conts[id]) else None {
      GetContRefines(st, id);
    }
  }

  /** An empty cache over a database answers from the database. */
  lemma FreshAnswers(db: Ledger)
    requires forall o | o in db.coins :: !db.coins[o].IsSpent()
    ensures var st := Cached(EmptyLayer, Base(db));
            && Ok(st)
            && (forall o :: CoinAt(st, o) == if o in db.coins then Some(db.coins[o]) else None)
            && forall id: ContractId :: StateAt(st, id) == if id in db.conts then Some(db.conts[id]) else None
  {
    var st := Cached(EmptyLayer, Base(db));
    EmptyLayerSees(db);
    assert Ok(Base(db)) && View(st) == db;
    Answers(st);
  }

  /** A provably unspendable coin is not added. After adding any other it is found at its place, and every other place
      answers as before; the contract its script names, if it is known, has the place at the end of its list and is
      otherwise unchanged, and so are all others. */
  lemma AddAnswers(rules: Rules, st: Stack, o: OutPoint, coin: Coin, overwrite: bool)
    requires Ok(st) && st.Cached? && !coin.IsSpent()
    requires rules.isUnspendable(coin.script) || overwrite || CoinAt(st, o).None?
    ensures var r := AddCoin(rules, st, o, coin, overwrite);
            && r.Some? && Ok(r.value)
            && (rules.isUnspendable(coin.script) ==> r.value == st)
            && (!rules.isUnspendable(coin.script) ==>
                  && (forall k :: CoinAt(r.value, k) == if k == o then Some(coin) else CoinAt(st, k))
                  && forall id: ContractId :: StateAt(r.value, id) ==
                       if rules.contract(coin.script) == Some(id) && StateAt(st, id).Some?
                       then Some(ContState(StateAt(st, id).value.coins + [o], StateAt(st, id).value.state))
                       else StateAt(st, id))
  {
    hide View, Ok, CoinAt, StateAt, StoreCoin, Notify;
    Answers(st);
    AddCoinTop(rules, st, o, coin, overwrite);
    Answers(AddCoin(rules, st, o, coin, overwrite).value);
  }

  /** After spending, the place is empty and the coin that was there has been handed out; nothing else changes. */
  lemma SpendAnswers(st: Stack, o: OutPoint)
    requires Ok(st) && st.Cached?
    ensures var (st', r) := Spend(st, o);
            && Ok(st') && (CoinAt(st, o).Some? ==> r == CoinAt(st, o))
            && (forall k :: CoinAt(st', k) == if k == o then None else CoinAt(st, k))
            && forall id: ContractId :: StateAt(st', id) == StateAt(st, id)
  {
    hide View, Ok, Spend, CoinAt, StateAt;
    Answers(st);
    SpendRefines(st, o);
    var st' := Spend(st, o).0;
    TopSame(st, st', View(st).(coins := View(st).coins - {o}));
    Answers(st');
  }

  lemma TopSame(st: Stack, st': Stack, m: Ledger)
    requires Views(st) != [] && Views(st') == PutTop(Views(st), m)
    ensures View(st') == m
  {
    ViewsTop(st');
  }

  lemma StateAnswers(st: Stack, id: ContractId, cs: ContState)
    requires Ok(st) && st.Cached?
    ensures var st' := AddCont(st, id, cs);
            && Ok(st') && (forall k :: CoinAt(st', k) == CoinAt(st, k))
            && forall k :: StateAt(st', k) == if k == id then Some(cs) else StateAt(st, k)
  {
    hide View, Ok, AddCont, CoinAt, StateAt;
    Answers(st);
    AddContRefines(st, id, cs);
    TopSame(st, AddCont(st, id, cs), View(st).(conts := View(st).conts[id := cs]));
    Answers(AddCont(st, id, cs));
  }

  /** After a flush the cache is empty, and both it and the layer below answer what the cache answered before. */
  lemma FlushAnswers(st: Stack)
    requires Ok(st) && st.Cached?
    ensures Flush(st).Some?
    ensures var st' := Flush(st).value;
            && Ok(st') && st'.Cached? && st'.layer == EmptyLayer
            && (forall k :: CoinAt(st', k) == CoinAt(st, k) == CoinAt(st'.below, k))
            && forall id: ContractId :: StateAt(st', id) == StateAt(st, id) == StateAt(st'.below, id)
  {
    hide CoinAt, StateAt, See, BatchWrite, Misapplied;
    Answers(st);
    FlushRefines(st);
    var st' := Flush(st).value;
    BatchWriteRefines(st.below, st.layer);
    EmptyLayerSees(View(st'.below));
    Answers(st');
    Answers(st'.below);
  }

  /** A lookup, or dropping a clean entry, changes no answer. */
  lemma ReadsKeepAnswers(st: Stack, o: OutPoint)
    requires Ok(st) && st.Cached?
    ensures var st' := GetCoin(st, o).0;
            Ok(st') && (forall k :: CoinAt(st', k) == CoinAt(st, k)) && forall id: ContractId :: StateAt(st', id) == StateAt(st, id)
    ensures var st' := Uncache(st, o);
            Ok(st') && (forall k :: CoinAt(st', k) == CoinAt(st, k)) && forall id: ContractId :: StateAt(st', id) == StateAt(st, id)
  {
    hide View, Ok, GetCoin, Uncache, CoinAt, StateAt;
    Answers(st);
    GetCoinRefines(st, o);
    Answers(GetCoin(st, o).0);
    UncacheRefines(st, o);
    ViewsTop(st);
    ViewsTop(Uncache(st, o));
    Answers(Uncache(st, o));
  }

  // ----- the outputs of a transaction

  /** The outputs from i on that go to contract id, in order. */
  function SentTo(rules: Rules, txid: nat, outs: seq<(int, Script)>, i: nat, id: ContractId): seq<OutPoint>
    requires i <= |outs|
    decreases |outs| - i
  {
    if i == |outs| then []
    else
      (if !rules.isUnspendable(outs[i].1) && rules.contract(outs[i].1) == Some(id) then [OutPoint(txid, i)] else [])
      + SentTo(rules, txid, outs, i + 1, id)
  }

  /** Adding a transaction makes each spendable output k readable at (txid, k), with its value and script and the height and
      kind of the transaction, and appends to each known contract the outputs sent to it, in order. Nothing else changes. */
  lemma OutputAnswers(rules: Rules, st: Stack, txid: nat, outs: seq<(int, Script)>, nHeight: nat, fCoinBase: bool, check: bool)
    requires Ok(st) && st.Cached? && forall k | 0 <= k < |outs| :: outs[k].0 != -1
    requires check || fCoinBase || forall n: nat | n < |outs| :: CoinAt(st, OutPoint(txid, n)).None?
    ensures var r := AddCoins(rules, st, txid, outs, 0, nHeight, fCoinBase, check);
            && r.Some? && Ok(r.value)
            && (forall o :: CoinAt(r.value, o) ==
                  if o.hash == txid && o.n < |outs| && !rules.isUnspendable(outs[o.n].1)
                  then Some(Coin(outs[o.n].0, outs[o.n].1, fCoinBase, nHeight))
                  else CoinAt(st, o))
            && forall id: ContractId :: StateAt(r.value, id) ==
                 if StateAt(st, id).None? then None
                 else Some(ContState(StateAt(st, id).value.coins + SentTo(rules, txid, outs, 0, id), StateAt(st, id).value.state))
  {
    hide View, Ok, AddCoins, CoinAt, StateAt, Views, PutTop, LedgerAddAll, SentTo;
    Answers(st);
    AddCoinsRefines(rules, st, txid, outs, 0, nHeight, fCoinBase, check);
    var st', m' := AddCoins(rules, st, txid, outs, 0, nHeight, fCoinBase, check).value,
                   LedgerAddAll(rules, View(st), txid, outs, 0, nHeight, fCoinBase);
    TopSame(st, st', m');
    Answers(st');
    forall o ensures CoinAt(st', o) ==
                       if o.hash == txid && o.n < |outs| && !rules.isUnspendable(outs[o.n].1)
                       then Some(Coin(outs[o.n].0, outs[o.n].1, fCoinBase, nHeight)) else CoinAt(st, o) {
      AddedAt(rules, View(st), txid, outs, 0, nHeight, fCoinBase, o);
    }
    forall id: ContractId
      ensures StateAt(st', id) ==
              if StateAt(st, id).None? then None
              else Some(ContState(StateAt(st, id).value.coins + SentTo(rules, txid, outs, 0, id), StateAt(st, id).value.state)) {
      NotifiedAt(rules, View(st), txid, outs, 0, nHeight, fCoinBase, id);
    }
  }

  lemma {:induction false} AddedAt(rules: Rules, m: Ledger, txid: nat, outs: seq<(int, Script)>, i: nat,
                                   nHeight: nat, fCoinBase: bool, o: OutPoint)
    requires i <= |outs|
    ensures var m' := LedgerAddAll(rules, m, txid, outs, i, nHeight, fCoinBase);
            if o.hash == txid && i <= o.n < |outs| && !rules.isUnspendable(outs[o.n].1)
            then o in m'.coins && m'.coins[o] == Coin(outs[o.n].0, outs[o.n].1, fCoinBase, nHeight)
            else (o in m'.coins <==> o in m.coins) && (o in m.coins ==> m'.coins[o] == m.coins[o])
    decreases |outs| - i
  {
    if i < |outs| {
      var m1 := LedgerAdd(rules, m, OutPoint(txid, i), OutputCoin(outs[i], nHeight, fCoinBase));
      AddedAt(rules, m1, txid, outs, i + 1, nHeight, fCoinBase, o);
    }
  }

  lemma {:induction false} NotifiedAt(rules: Rules, m: Ledger, txid: nat, outs: seq<(int, Script)>, i: nat,
                                      nHeight: nat, fCoinBase: bool, id: ContractId)
    requires i <= |outs|
    ensures var m' := LedgerAddAll(rules, m, txid, outs, i, nHeight, fCoinBase);
            && (id in m'.conts <==> id in m.conts)
            && (id in m.conts ==>
                  m'.conts[id] == ContState(m.conts[id].coins + SentTo(rules, txid, outs, i, id), m.conts[id].state))
    decreases |outs| - i
  {
    if i < |outs| {
      var m1 := LedgerAdd(rules, m, OutPoint(txid, i), OutputCoin(outs[i], nHeight, fCoinBase));
      NotifiedAt(rules, m1, txid, outs, i + 1, nHeight, fCoinBase, id);
    }
  }
}
