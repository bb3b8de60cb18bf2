/** The layered UTXO and contract-state cache. A stack of write-back caches over a database is proved to
    behave, operation by operation, like nested transactions on plain maps. */
module Coins {
  import opened Common

  datatype OutPoint = OutPoint(hash: nat, n: nat)

  type ContractId = nat

  type Script = seq<nat>

  datatype Coin = Coin(nValue: int, script: Script, fCoinBase: bool, nHeight: nat) {
    predicate IsSpent() {
      nValue == -1
    }
  }

  /** A coin after Clear, and the one of a default-constructed entry. */
  const NullCoin := Coin(-1, [], false, 0)

  datatype ContState = ContState(coins: seq<OutPoint>, state: seq<nat>)

  /** isDirty: may differ from the parent view. isFresh: the parent view has no unspent version. */
  datatype Entry = Entry(coin: Coin, isDirty: bool, isFresh: bool)

  /** What the cache asks of a script: whether it is provably unspendable, and the 32-byte contract
      id that an OP_CONTRACT script carries. */
  datatype Rules = Rules(isUnspendable: Script -> bool, contract: Script -> Option<ContractId>)

  /** The plain maps. */
  datatype Ledger = Ledger(coins: map<OutPoint, Coin>, conts: map<ContractId, ContState>)

  datatype Layer = Layer(coins: map<OutPoint, Entry>, conts: map<ContractId, ContState>)

  datatype Stack = Base(db: Ledger) | Cached(layer: Layer, below: Stack)

  const EmptyLayer := Layer(map[], map[])

  // ----- what a stack means

  /** The unspent coins visible through one layer of entries. */
  ghost function SeeCoins(m: map<OutPoint, Entry>, b: map<OutPoint, Coin>): map<OutPoint, Coin> {
    map o | o in m.Keys + b.Keys && (o in m ==> !m[o].coin.IsSpent()) :: if o in m then m[o].coin else b[o]
  }

  ghost function See(l: Layer, b: Ledger): Ledger {
    Ledger(SeeCoins(l.coins, b.coins), b.conts + l.conts)
  }

  ghost function View(st: Stack): Ledger {
    match st
    case Base(db) => db
    case Cached(l, b) => See(l, View(b))
  }

  /** The view at every level, the database first. */
  ghost function Views(st: Stack): seq<Ledger> {
    match st
    case Base(db) => [db]
    case Cached(l, b) => Views(b) + [See(l, View(b))]
  }

  ghost predicate EntryOk(e: Entry, o: OutPoint, b: map<OutPoint, Coin>) {
    && (e.isFresh ==> o !in b)
    && (!e.isDirty ==> if e.coin.IsSpent() then o !in b else o in b && b[o] == e.coin)
  }

  ghost predicate CoinsOk(m: map<OutPoint, Entry>, b: map<OutPoint, Coin>) {
    forall o | o in m :: EntryOk(m[o], o, b)
  }

  ghost predicate LayerOk(l: Layer, b: Ledger) {
    CoinsOk(l.coins, b.coins)
  }

  /** Every flag at every level is truthful, and the database holds unspent coins only. */
  ghost predicate Ok(st: Stack) {
    match st
    case Base(db) => forall o | o in db.coins :: !db.coins[o].IsSpent()
    case Cached(l, b) => LayerOk(l, View(b)) && Ok(b)
  }

  // ----- operations on the top of the stack

  function Fetch(st: Stack, o: OutPoint): (st': Stack)
    requires st.Cached?
    ensures st'.Cached?
    decreases st, 0
  {
    if o in st.layer.coins then st
    else
      var (b, r) := GetCoin(st.below, o);
      match r
      case None => Cached(st.layer, b)
      case Some(c) => Cached(st.layer.(coins := st.layer.coins[o := Entry(c, false, c.IsSpent())]), b)
  }

  /** The coin handed out (GetCoin returning true), and the stack with its caches filled. */
  function GetCoin(st: Stack, o: OutPoint): (r: (Stack, Option<Coin>))
    ensures r.0.Cached? == st.Cached?
    decreases st, 1
  {
    match st
    case Base(db) => (st, if o in db.coins then Some(db.coins[o]) else None)
    case Cached(_, _) =>
      var st' := Fetch(st, o);
      (st', if o in st'.layer.coins && !st'.layer.coins[o].coin.IsSpent() then Some(st'.layer.coins[o].coin) else None)
  }

  function GetCont(st: Stack, id: ContractId): (r: (Stack, Option<ContState>))
    ensures r.0.Cached? == st.Cached?
  {
    match st
    case Base(db) => (st, if id in db.conts then Some(db.conts[id]) else None)
    case Cached(l, below) =>
      if id in l.conts then (st, Some(l.conts[id]))
      else
        var (b, r) := GetCont(below, id);
        match r
        case None => (Cached(l, b), None)
        case Some(cs) => (Cached(l.(conts := l.conts[id := cs]), b), Some(cs))
  }

  function AddCont(st: Stack, id: ContractId, cs: ContState): Stack
    requires st.Cached?
  {
    st.(layer := st.layer.(conts := st.layer.conts[id := cs]))
  }

  function EntryOf(l: Layer, o: OutPoint): Entry {
    if o in l.coins then l.coins[o] else Entry(NullCoin, false, false)
  }

  function StoreCoin(st: Stack, o: OutPoint, coin: Coin, overwrite: bool): Stack
    requires st.Cached?
  {
    var e := EntryOf(st.layer, o);
    var nowFresh := !overwrite && !e.isDirty;
    st.(layer := st.layer.(coins := st.layer.coins[o := Entry(coin, true, e.isFresh || nowFresh)]))
  }

  /** Tell the contract named by the script, if there is one, about the coin. */
  function Notify(rules: Rules, st: Stack, o: OutPoint, coin: Coin): Stack
    requires st.Cached?
  {
    match rules.contract(coin.script)
    case None => st
    case Some(id) =>
      var (st', r) := GetCont(st, id);
      match r
      case None => st'
      case Some(cs) => AddCont(st', id, cs.(coins := cs.coins + [o]))
  }

  /** None stands for the logic_error of replacing a non-pruned entry. */
  function AddCoin(rules: Rules, st: Stack, o: OutPoint, coin: Coin, overwrite: bool): (r: Option<Stack>)
    requires st.Cached? && !coin.IsSpent()
    ensures r.Some? ==> r.value.Cached?
  {
    if rules.isUnspendable(coin.script) then Some(st)
    else if !overwrite && !EntryOf(st.layer, o).coin.IsSpent() then None
    else Some(Notify(rules, StoreCoin(st, o, coin, overwrite), o, coin))
  }

  function SpendEntry(l: Layer, o: OutPoint): Layer
    requires o in l.coins
  {
    l.(coins := if l.coins[o].isFresh then l.coins - {o} else l.coins[o := Entry(NullCoin, true, false)])
  }

  /** The entry found, if any, and the stack with the coin spent. */
  function Spend(st: Stack, o: OutPoint): (Stack, Option<Coin>)
    requires st.Cached?
  {
    var st' := Fetch(st, o);
    if o !in st'.layer.coins then (st', None)
    else
      (st'.(layer := SpendEntry(st'.layer, o)), Some(st'.layer.coins[o].coin))
  }

  function Uncache(st: Stack, o: OutPoint): Stack
    requires st.Cached?
  {
    var l := st.layer;
    if o in l.coins && !l.coins[o].isDirty && !l.coins[o].isFresh
    then st.(layer := l.(coins := l.coins - {o}))
    else st
  }

  // ----- writing a layer back

  /** The parent's entry after a dirty child entry `c` is written over it. */
  function MergeEntry(c: Entry, u: Option<Entry>): Option<Entry> {
    match u
    case None => if c.isFresh && c.coin.IsSpent() then None else Some(Entry(c.coin, true, c.isFresh))
    case Some(e) => if e.isFresh && c.coin.IsSpent() then None else Some(Entry(c.coin, true, e.isFresh))
  }

  function Lookup(m: map<OutPoint, Entry>, o: OutPoint): Option<Entry> {
    if o in m then Some(m[o]) else None
  }

  /** The logic_error of BatchWrite: FRESH on an entry whose parent version is unspent. */
  predicate Misapplied(child: map<OutPoint, Entry>, us: map<OutPoint, Entry>, o: OutPoint) {
    o in child && child[o].isDirty && child[o].isFresh && o in us && !us[o].coin.IsSpent()
  }

  function Merged(child: map<OutPoint, Entry>, us: map<OutPoint, Entry>, o: OutPoint): Option<Entry> {
    if o in child && child[o].isDirty then MergeEntry(child[o], Lookup(us, o)) else Lookup(us, o)
  }

  ghost function MergeCoins(child: map<OutPoint, Entry>, us: map<OutPoint, Entry>): map<OutPoint, Entry> {
    map o | o in child.Keys + us.Keys && Merged(child, us, o).Some? :: Merged(child, us, o).value
  }

  /** What the database becomes: dirty unspent coins are written, dirty spent ones erased. */
  ghost function WriteCoins(child: map<OutPoint, Entry>, db: map<OutPoint, Coin>): map<OutPoint, Coin> {
    map o | o in child.Keys + db.Keys && (if o in child && child[o].isDirty then !child[o].coin.IsSpent() else o in db) ::
      if o in child && child[o].isDirty then child[o].coin else db[o]
  }

  ghost function BatchWrite(st: Stack, child: Layer): Stack {
    match st
    case Base(db) => Base(Ledger(WriteCoins(child.coins, db.coins), db.conts + child.conts))
    case Cached(l, b) => Cached(Layer(MergeCoins(child.coins, l.coins), l.conts + child.conts), b)
  }

  /** None stands for the logic_error of a misapplied FRESH flag. */
  ghost function Flush(st: Stack): Option<Stack>
    requires st.Cached?
  {
    if st.below.Cached? && exists o :: Misapplied(st.layer.coins, st.below.layer.coins, o) then None
    else Some(Cached(EmptyLayer, BatchWrite(st.below, st.layer)))
  }

  // ----- reads change no view

  lemma LayerFill(l: Layer, b: Ledger, o: OutPoint, c: Coin)
    requires LayerOk(l, b) && o !in l.coins && o in b.coins && b.coins[o] == c && !c.IsSpent()
    ensures var l' := l.(coins := l.coins[o := Entry(c, false, c.IsSpent())]);
            LayerOk(l', b) && See(l', b) == See(l, b)
  {}

  lemma {:induction false} GetCoinRefines(st: Stack, o: OutPoint)
    requires Ok(st)
    ensures var (st', r) := GetCoin(st, o);
            && Ok(st') && View(st') == View(st) && Views(st') == Views(st) && st'.Cached? == st.Cached?
            && r == (if o in View(st).coins then Some(View(st).coins[o]) else None)
    ensures st.Cached? ==> GetCoin(st, o).0 == Fetch(st, o)
  {
    match st
    case Base(_) =>
    case Cached(l, b) =>
      if o !in l.coins {
        GetCoinRefines(b, o);
        var (b', r) := GetCoin(b, o);
        if r.Some? {
          ViewUnspent(b, o);
          LayerFill(l, View(b), o, r.value);
        }
      }
  }

  lemma {:induction false} ViewUnspent(st: Stack, o: OutPoint)
    requires Ok(st) && o in View(st).coins
    ensures !View(st).coins[o].IsSpent()
  {
    match st
    case Base(_) =>
    case Cached(l, b) =>
      if o !in l.coins {
        ViewUnspent(b, o);
      }
  }

  lemma StateFill(l: Layer, b: Ledger, id: ContractId, cs: ContState)
    requires id !in l.conts && id in b.conts && b.conts[id] == cs
    ensures See(l.(conts := l.conts[id := cs]), b) == See(l, b)
  {
    assert b.conts + l.conts[id := cs] == b.conts + l.conts;
  }

  lemma {:induction false} GetContRefines(st: Stack, id: ContractId)
    requires Ok(st)
    ensures var (st', r) := GetCont(st, id);
            && Ok(st') && View(st') == View(st) && Views(st') == Views(st) && st'.Cached? == st.Cached?
            && r == (if id in View(st).conts then Some(View(st).conts[id]) else None)
  {
    match st
    case Base(_) =>
    case Cached(l, b) =>
      if id !in l.conts {
        GetContRefines(b, id);
        hide See, CoinsOk;
        var r := GetCont(b, id).1;
        if r.Some? {
          StateFill(l, View(b), id, r.value);
        }
      }
  }

  // ----- writes change the top view only

  /** The top view replaced. */
  function PutTop(ms: seq<Ledger>, m: Ledger): seq<Ledger>
    requires ms != []
  {
    ms[..|ms| - 1] + [m]
  }

  function Top(ms: seq<Ledger>): Ledger
    requires ms != []
  {
    ms[|ms| - 1]
  }

  lemma ViewsTop(st: Stack)
    ensures Views(st) != [] && Top(Views(st)) == View(st)
    ensures st.Cached? ==> |Views(st)| >= 2 && Views(st)[..|Views(st)| - 1] == Views(st.below)
  {
    if st.Cached? {
      ViewsTop(st.below);
    }
  }

  /** A change of the top layer shows in the top view only. */
  lemma TopLayer(st: Stack, l: Layer, m: Ledger)
    requires st.Cached? && See(l, View(st.below)) == m
    ensures Views(st) != [] && Views(st.(layer := l)) == PutTop(Views(st), m)
  {
    ViewsTop(st);
  }

  lemma AddContRefines(st: Stack, id: ContractId, cs: ContState)
    requires Ok(st) && st.Cached?
    ensures var st' := AddCont(st, id, cs);
            && Ok(st') && Views(st) != []
            && Views(st') == PutTop(Views(st), View(st).(conts := View(st).conts[id := cs]))
  {
    var l := st.layer.(conts := st.layer.conts[id := cs]);
    var b := View(st.below);
    assert See(l, b).coins == See(st.layer, b).coins;
    assert See(l, b).conts == See(st.layer, b).conts[id := cs];
    TopLayer(st, l, See(l, b));
  }

  /** Storing a coin keeps every flag truthful exactly when overwriting is announced or no unspent
      coin is visible; the view then gains the coin. */
  lemma StoreCoinRefines(st: Stack, o: OutPoint, coin: Coin, overwrite: bool)
    requires Ok(st) && st.Cached? && !coin.IsSpent()
    requires !overwrite ==> EntryOf(st.layer, o).coin.IsSpent()
    ensures Ok(StoreCoin(st, o, coin, overwrite)) <==> overwrite || o !in View(st).coins
    ensures Views(st) != []
    ensures Views(StoreCoin(st, o, coin, overwrite)) ==
              PutTop(Views(st), View(st).(coins := View(st).coins[o := coin]))
  {
    var st' := StoreCoin(st, o, coin, overwrite);
    var b := View(st.below);
    assert See(st'.layer, b).coins == See(st.layer, b).coins[o := coin];
    TopLayer(st, st'.layer, See(st'.layer, b));
    StoreCoinFlags(st.layer, b, o, coin, overwrite);
  }

  lemma StoreCoinFlags(l: Layer, b: Ledger, o: OutPoint, coin: Coin, overwrite: bool)
    requires LayerOk(l, b) && !coin.IsSpent()
    requires !overwrite ==> EntryOf(l, o).coin.IsSpent()
    ensures var e := EntryOf(l, o);
            var l' := l.(coins := l.coins[o := Entry(coin, true, e.isFresh || (!overwrite && !e.isDirty))]);
            LayerOk(l', b) <==> overwrite || o !in See(l, b).coins
  {
    var e := EntryOf(l, o);
    var e' := Entry(coin, true, e.isFresh || (!overwrite && !e.isDirty));
    var l' := l.(coins := l.coins[o := e']);
    assert l'.coins[o] == e';
    assert o in l.coins ==> EntryOk(l.coins[o], o, b.coins);
    assert EntryOk(e', o, b.coins) <==> overwrite || o !in See(l, b).coins;
    assert forall k | k in l'.coins && k != o :: l'.coins[k] == l.coins[k];
  }

  /** What AddCoin does to a plain map. */
  function LedgerAdd(rules: Rules, m: Ledger, o: OutPoint, coin: Coin): Ledger {
    if rules.isUnspendable(coin.script) then m
    else
      var conts :=
        match rules.contract(coin.script)
        case None => m.conts
        case Some(id) =>
          if id in m.conts then m.conts[id := m.conts[id].(coins := m.conts[id].coins + [o])] else m.conts;
      Ledger(m.coins[o := coin], conts)
  }

  lemma NotifyRefines(rules: Rules, st: Stack, o: OutPoint, coin: Coin)
    requires Ok(st) && st.Cached? && !rules.isUnspendable(coin.script)
    requires o in View(st).coins && View(st).coins[o] == coin
    ensures var st' := Notify(rules, st, o, coin);
            Ok(st') && st'.Cached? && Views(st) != [] && Views(st') == PutTop(Views(st), LedgerAdd(rules, View(st), o, coin))
  {
    ViewsTop(st);
    assert PutTop(Views(st), View(st)) == Views(st);
    assert View(st).coins[o := coin] == View(st).coins;
    match rules.contract(coin.script)
    case None =>
    case Some(id) =>
      GetContRefines(st, id);
      var (st', r) := GetCont(st, id);
      if r.Some? {
        AddContRefines(st', id, r.value.(coins := r.value.coins + [o]));
      }
  }

  /** AddCoin is refused or breaks a flag exactly when an unannounced overwrite hits a visible unspent
      coin; otherwise it does to the top view what it would do to a plain map. */
  lemma AddCoinRefines(rules: Rules, st: Stack, o: OutPoint, coin: Coin, overwrite: bool)
    requires Ok(st) && st.Cached? && !coin.IsSpent() && !rules.isUnspendable(coin.script)
    ensures var r := AddCoin(rules, st, o, coin, overwrite);
            && (overwrite || o !in View(st).coins ==>
                  && r.Some? && Ok(r.value) && r.value.Cached? && Views(st) != []
                  && Views(r.value) == PutTop(Views(st), LedgerAdd(rules, View(st), o, coin)))
            && (!overwrite && o in View(st).coins ==>
                  r == None || !Ok(StoreCoin(st, o, coin, overwrite)))
  {
    var e := EntryOf(st.layer, o);
    if !overwrite && !e.coin.IsSpent() {
      assert EntryOk(st.layer.coins[o], o, View(st.below).coins);
    } else {
      StoreCoinRefines(st, o, coin, overwrite);
      if overwrite || o !in View(st).coins {
        var st1 := StoreCoin(st, o, coin, overwrite);
        ViewsTop(st);
        ViewsTop(st1);
        assert View(st1) == View(st).(coins := View(st).coins[o := coin]);
        NotifyRefines(rules, st1, o, coin);
        AddTwice(rules, Views(st), View(st), o, coin);
      }
    }
  }

  lemma AddTwice(rules: Rules, ms: seq<Ledger>, m: Ledger, o: OutPoint, coin: Coin)
    requires ms != []
    ensures var m1 := m.(coins := m.coins[o := coin]);
            PutTop(PutTop(ms, m1), LedgerAdd(rules, m1, o, coin)) ==
            PutTop(ms, if rules.isUnspendable(coin.script) then m1 else LedgerAdd(rules, m, o, coin))
  {
    assert m.coins[o := coin][o := coin] == m.coins[o := coin];
  }

  lemma SpendEntryRefines(l: Layer, b: Ledger, o: OutPoint)
    requires LayerOk(l, b) && o in l.coins
    ensures LayerOk(SpendEntry(l, o), b)
    ensures See(SpendEntry(l, o), b) == See(l, b).(coins := See(l, b).coins - {o})
  {
    assert EntryOk(l.coins[o], o, b.coins);
    assert See(SpendEntry(l, o), b).coins == See(l, b).coins - {o};
  }

  lemma SpendRefines(st: Stack, o: OutPoint)
    requires Ok(st) && st.Cached?
    ensures var (st', r) := Spend(st, o);
            && Ok(st') && st'.Cached? && Views(st) != []
            && Views(st') == PutTop(Views(st), View(st).(coins := View(st).coins - {o}))
            && (o in View(st).coins ==> r == Some(View(st).coins[o]))
            && (o !in View(st).coins && r.Some? ==> r.value.IsSpent())
  {
    GetCoinRefines(st, o);
    ViewsTop(st);
    var f := Fetch(st, o);
    var b := View(f.below);
    assert View(f) == View(st) == See(f.layer, b);
    hide See, LayerOk, Views;
    if o in f.layer.coins {
      SpendEntryRefines(f.layer, b, o);
      TopLayer(f, SpendEntry(f.layer, o), See(SpendEntry(f.layer, o), b));
    } else {
      assert View(st).coins - {o} == View(st).coins;
      assert PutTop(Views(st), View(st)) == Views(st);
    }
  }

  lemma UncacheRefines(st: Stack, o: OutPoint)
    requires Ok(st) && st.Cached?
    ensures var st' := Uncache(st, o); Ok(st') && st'.Cached? && Views(st') == Views(st)
  {
    var st' := Uncache(st, o);
    var b := View(st.below);
    if st' != st {
      assert EntryOk(st.layer.coins[o], o, b.coins);
      assert See(st'.layer, b).coins == See(st.layer, b).coins;
    }
  }

  // ----- flushing

  lemma MergeEntryOk(child: map<OutPoint, Entry>, us: map<OutPoint, Entry>, b: map<OutPoint, Coin>, o: OutPoint)
    requires o in us ==> EntryOk(us[o], o, b)
    requires o in child ==> EntryOk(child[o], o, SeeCoins(us, b))
    ensures !Misapplied(child, us, o)
    ensures Merged(child, us, o).Some? ==> EntryOk(Merged(child, us, o).value, o, b)
    ensures var v, w := SeeCoins(MergeCoins(child, us), b), SeeCoins(child, SeeCoins(us, b));
            (o in v <==> o in w) && (o in v && o in w ==> v[o] == w[o])
  {}

  /** Writing a truthful layer over another never meets a misapplied FRESH flag, leaves truthful flags,
      and shows what the two layers showed together. */
  lemma MergeRefines(child: map<OutPoint, Entry>, us: map<OutPoint, Entry>, b: map<OutPoint, Coin>)
    requires CoinsOk(us, b) && CoinsOk(child, SeeCoins(us, b))
    ensures forall o :: !Misapplied(child, us, o)
    ensures CoinsOk(MergeCoins(child, us), b)
    ensures SeeCoins(MergeCoins(child, us), b) == SeeCoins(child, SeeCoins(us, b))
  {
    hide EntryOk, SeeCoins, Misapplied, Merged;
    var v, w := SeeCoins(MergeCoins(child, us), b), SeeCoins(child, SeeCoins(us, b));
    forall o
      ensures !Misapplied(child, us, o)
      ensures Merged(child, us, o).Some? ==> EntryOk(Merged(child, us, o).value, o, b)
      ensures (o in v <==> o in w) && (o in v && o in w ==> v[o] == w[o])
    {
      MergeEntryOk(child, us, b, o);
    }
  }

  lemma WriteRefines(child: map<OutPoint, Entry>, db: map<OutPoint, Coin>)
    requires CoinsOk(child, db) && forall o | o in db :: !db[o].IsSpent()
    ensures WriteCoins(child, db) == SeeCoins(child, db)
    ensures forall o | o in SeeCoins(child, db) :: !SeeCoins(child, db)[o].IsSpent()
  {
    forall o | o in child ensures EntryOk(child[o], o, db) {}
  }

  lemma EmptyLayerSees(b: Ledger)
    ensures See(EmptyLayer, b) == b && LayerOk(EmptyLayer, b)
  {
    assert See(EmptyLayer, b).coins == b.coins;
    assert See(EmptyLayer, b).conts == b.conts;
  }

  lemma MergeLayers(child: Layer, us: Layer, b: Ledger)
    requires LayerOk(us, b) && LayerOk(child, See(us, b))
    ensures forall o :: !Misapplied(child.coins, us.coins, o)
    ensures var l := Layer(MergeCoins(child.coins, us.coins), us.conts + child.conts);
            LayerOk(l, b) && See(l, b) == See(child, See(us, b))
  {
    hide SeeCoins, CoinsOk, MergeCoins, Misapplied;
    MergeRefines(child.coins, us.coins, b.coins);
    assert b.conts + us.conts + child.conts == b.conts + (us.conts + child.conts);
  }

  lemma BatchWriteRefines(st: Stack, child: Layer)
    requires Ok(st) && LayerOk(child, View(st))
    ensures var st' := BatchWrite(st, child);
            && Ok(st') && View(st') == See(child, View(st))
            && Views(st) != [] && Views(st') == PutTop(Views(st), See(child, View(st)))
    ensures st.Cached? ==> forall o :: !Misapplied(child.coins, st.layer.coins, o)
  {
    hide SeeCoins, CoinsOk, MergeCoins, WriteCoins, Misapplied;
    match st
    case Base(db) =>
      WriteRefines(child.coins, db.coins);
    case Cached(us, b) =>
      MergeLayers(child, us, View(b));
      TopLayer(st, Layer(MergeCoins(child.coins, us.coins), us.conts + child.conts), See(child, View(st)));
  }

  /** A flush is never refused; it makes the view below equal to the top view and leaves the rest. */
  lemma FlushRefines(st: Stack)
    requires Ok(st) && st.Cached?
    ensures Flush(st).Some? && Ok(Flush(st).value) && Flush(st).value.Cached?
    ensures |Views(st)| >= 2
    ensures Views(Flush(st).value) == PutTop(Views(st)[..|Views(st)| - 1], View(st)) + [View(st)]
  {
    ViewsTop(st);
    EmptyLayerSees(View(st));
    hide See, LayerOk, BatchWrite, Misapplied;
    BatchWriteRefines(st.below, st.layer);
  }

  // ----- all the outputs of a transaction

  function OutputCoin(out: (int, Script), nHeight: nat, fCoinBase: bool): Coin {
    Coin(out.0, out.1, fCoinBase, nHeight)
  }

  /** Adding one output, with the lookup that announces an overwrite. */
  function AddOutput(rules: Rules, st: Stack, o: OutPoint, coin: Coin, check: bool): (r: Option<Stack>)
    requires st.Cached? && !coin.IsSpent()
    ensures r.Some? ==> r.value.Cached?
  {
    if check then
      var (st0, have) := GetCoin(st, o);
      AddCoin(rules, st0, o, coin, have.Some?)
    else
      AddCoin(rules, st, o, coin, coin.fCoinBase)
  }

  /** AddCoins from output `i` on. */
  function AddCoins(rules: Rules, st: Stack, txid: nat, outs: seq<(int, Script)>, i: nat,
                    nHeight: nat, fCoinBase: bool, check: bool): Option<Stack>
    requires st.Cached? && i <= |outs| && forall k | 0 <= k < |outs| :: outs[k].0 != -1
    decreases |outs| - i
  {
    if i == |outs| then Some(st)
    else
      match AddOutput(rules, st, OutPoint(txid, i), OutputCoin(outs[i], nHeight, fCoinBase), check)
      case None => None
      case Some(st1) => AddCoins(rules, st1, txid, outs, i + 1, nHeight, fCoinBase, check)
  }

  function LedgerAddAll(rules: Rules, m: Ledger, txid: nat, outs: seq<(int, Script)>, i: nat,
                        nHeight: nat, fCoinBase: bool): Ledger
    requires i <= |outs|
    decreases |outs| - i
  {
    if i == |outs| then m
    else
      var m1 := LedgerAdd(rules, m, OutPoint(txid, i), OutputCoin(outs[i], nHeight, fCoinBase));
      LedgerAddAll(rules, m1, txid, outs, i + 1, nHeight, fCoinBase)
  }

  lemma AddCoinTop(rules: Rules, st: Stack, o: OutPoint, coin: Coin, overwrite: bool)
    requires Ok(st) && st.Cached? && !coin.IsSpent()
    requires rules.isUnspendable(coin.script) || overwrite || o !in View(st).coins
    ensures var r := AddCoin(rules, st, o, coin, overwrite);
            && r.Some? && Ok(r.value) && r.value.Cached? && Views(st) != []
            && Views(r.value) == PutTop(Views(st), LedgerAdd(rules, View(st), o, coin))
            && View(r.value) == LedgerAdd(rules, View(st), o, coin)
  {
    ViewsTop(st);
    if rules.isUnspendable(coin.script) {
      assert PutTop(Views(st), View(st)) == Views(st);
    } else {
      AddCoinRefines(rules, st, o, coin, overwrite);
    }
    ViewsTop(AddCoin(rules, st, o, coin, overwrite).value);
  }

  /** The outputs from `i` on may be added without being refused. */
  ghost predicate CanAddFrom(m: Ledger, txid: nat, n: nat, i: nat, fCoinBase: bool, check: bool) {
    check || fCoinBase || forall k | i <= k < n :: OutPoint(txid, k) !in m.coins
  }

  lemma CanAddNext(rules: Rules, m: Ledger, txid: nat, n: nat, i: nat, fCoinBase: bool, check: bool, coin: Coin)
    requires CanAddFrom(m, txid, n, i, fCoinBase, check)
    ensures CanAddFrom(LedgerAdd(rules, m, OutPoint(txid, i), coin), txid, n, i + 1, fCoinBase, check)
  {}

  lemma PutTopTwice(ms: seq<Ledger>, m: Ledger, m': Ledger)
    requires ms != []
    ensures PutTop(ms, m) != [] && PutTop(PutTop(ms, m), m') == PutTop(ms, m')
  {}

  lemma AddOutputRefines(rules: Rules, st: Stack, o: OutPoint, coin: Coin, check: bool)
    requires Ok(st) && st.Cached? && !coin.IsSpent()
    requires check || coin.fCoinBase || o !in View(st).coins
    ensures var r := AddOutput(rules, st, o, coin, check);
            && r.Some? && Ok(r.value) && Views(st) != []
            && Views(r.value) == PutTop(Views(st), LedgerAdd(rules, View(st), o, coin))
            && View(r.value) == LedgerAdd(rules, View(st), o, coin)
  {
    hide Views, View, Ok, AddCoin, LedgerAdd, PutTop;
    if check {
      GetCoinRefines(st, o);
      var (st0, have) := GetCoin(st, o);
      AddCoinTop(rules, st0, o, coin, have.Some?);
    } else {
      AddCoinTop(rules, st, o, coin, coin.fCoinBase);
    }
  }

  /** Adding a transaction's outputs is never refused when overwrites are looked up, or the transaction is a
      coinbase, or none of its outputs is visible, and then adds every spendable output to the top view. */
  lemma {:induction false} AddCoinsRefines(rules: Rules, st: Stack, txid: nat, outs: seq<(int, Script)>, i: nat,
                                           nHeight: nat, fCoinBase: bool, check: bool)
    requires Ok(st) && st.Cached? && i <= |outs| && forall k | 0 <= k < |outs| :: outs[k].0 != -1
    requires CanAddFrom(View(st), txid, |outs|, i, fCoinBase, check)
    ensures var r := AddCoins(rules, st, txid, outs, i, nHeight, fCoinBase, check);
            && r.Some? && Ok(r.value) && r.value.Cached? && Views(st) != []
            && Views(r.value) == PutTop(Views(st), LedgerAddAll(rules, View(st), txid, outs, i, nHeight, fCoinBase))
    decreases |outs| - i
  {
    ViewsTop(st);
    if i == |outs| {
      assert PutTop(Views(st), View(st)) == Views(st);
    } else {
      hide Views, View, Ok, AddOutput, LedgerAdd, PutTop;
      var o, coin := OutPoint(txid, i), OutputCoin(outs[i], nHeight, fCoinBase);
      AddOutputRefines(rules, st, o, coin, check);
      CanAddNext(rules, View(st), txid, |outs|, i, fCoinBase, check, coin);
      var st1 := AddOutput(rules, st, o, coin, check).value;
      AddCoinsRefines(rules, st1, txid, outs, i + 1, nHeight, fCoinBase, check);
      PutTopTwice(Views(st), LedgerAdd(rules, View(st), o, coin),
                  LedgerAddAll(rules, View(st1), txid, outs, i + 1, nHeight, fCoinBase));
    }
  }

  // ----- whole runs against nested transactions on plain maps

  datatype Op =
    | OpGet(o: OutPoint)
    | OpGetState(id: ContractId)
    | OpAdd(o: OutPoint, coin: Coin, overwrite: bool)
    | OpSetState(id: ContractId, cs: ContState)
    | OpSpend(o: OutPoint)
    | OpUncache(o: OutPoint)
    | OpFlush
    | OpPush
    | OpPop

  datatype Answer = NoAnswer | CoinAnswer(coin: Option<Coin>) | StateAnswer(cs: Option<ContState>)

  function Unspent(r: Option<Coin>): Option<Coin> {
    if r.Some? && !r.value.IsSpent() then r else None
  }

  /** One operation on the top cache; OpPush puts an empty cache on top, OpPop discards the top one.
      None: a logic_error, or an operation that needs a cache on top and has none. */
  ghost function Step(rules: Rules, st: Stack, op: Op): Option<(Stack, Answer)> {
    if op.OpPush? then Some((Cached(EmptyLayer, st), NoAnswer))
    else if st.Base? then None
    else
      match op
      case OpGet(o) => var (st', r) := GetCoin(st, o); Some((st', CoinAnswer(r)))
      case OpGetState(id) => var (st', r) := GetCont(st, id); Some((st', StateAnswer(r)))
      case OpAdd(o, coin, overwrite) =>
        if coin.IsSpent() then None
        else
          var r := AddCoin(rules, st, o, coin, overwrite);
          if r.None? then None else Some((r.value, NoAnswer))
      case OpSetState(id, cs) => Some((AddCont(st, id, cs), NoAnswer))
      case OpSpend(o) => var (st', r) := Spend(st, o); Some((st', CoinAnswer(Unspent(r))))
      case OpUncache(o) => Some((Uncache(st, o), NoAnswer))
      case OpFlush => var r := Flush(st); if r.None? then None else Some((r.value, NoAnswer))
      case OpPop => Some((st.below, NoAnswer))
  }

  /** What a caller must respect: a cache to work on, no spent coin added, and possible_overwrite=false
      only where no unspent coin is visible. */
  predicate Admissible(rules: Rules, ms: seq<Ledger>, op: Op) {
    && |ms| >= (if op.OpPush? then 1 else 2)
    && (op.OpAdd? ==> !op.coin.IsSpent() && (rules.isUnspendable(op.coin.script) || op.overwrite || op.o !in Top(ms).coins))
  }

  /** The same operation on a stack of plain maps. */
  function PlainStep(rules: Rules, ms: seq<Ledger>, op: Op): (seq<Ledger>, Answer)
    requires Admissible(rules, ms, op)
  {
    var m := Top(ms);
    match op
    case OpGet(o) => (ms, CoinAnswer(if o in m.coins then Some(m.coins[o]) else None))
    case OpGetState(id) => (ms, StateAnswer(if id in m.conts then Some(m.conts[id]) else None))
    case OpAdd(o, coin, _) => (PutTop(ms, LedgerAdd(rules, m, o, coin)), NoAnswer)
    case OpSetState(id, cs) => (PutTop(ms, m.(conts := m.conts[id := cs])), NoAnswer)
    case OpSpend(o) =>
      (PutTop(ms, m.(coins := m.coins - {o})), CoinAnswer(if o in m.coins then Some(m.coins[o]) else None))
    case OpUncache(_) => (ms, NoAnswer)
    case OpFlush => (PutTop(ms[..|ms| - 1], m) + [m], NoAnswer)
    case OpPush => (ms + [m], NoAnswer)
    case OpPop => (ms[..|ms| - 1], NoAnswer)
  }

  lemma StepRefines(rules: Rules, st: Stack, op: Op)
    requires Ok(st) && Admissible(rules, Views(st), op)
    ensures Step(rules, st, op).Some?
    ensures var (st', a) := Step(rules, st, op).value;
            Ok(st') && (Views(st'), a) == PlainStep(rules, Views(st), op)
  {
    ViewsTop(st);
    if st.Base? {
      EmptyLayerSees(View(st));
    } else {
      match op
      case OpGet(o) => GetCoinRefines(st, o);
      case OpGetState(id) => GetContRefines(st, id);
      case OpAdd(o, coin, overwrite) => AddCoinTop(rules, st, o, coin, overwrite);
      case OpSetState(id, cs) => AddContRefines(st, id, cs);
      case OpSpend(o) =>
        SpendRefines(st, o);
        if o in View(st).coins {
          ViewUnspent(st, o);
        }
      case OpUncache(o) => UncacheRefines(st, o);
      case OpFlush => FlushRefines(st);
      case OpPush => EmptyLayerSees(View(st));
      case OpPop =>
    }
  }

  ghost function Run(rules: Rules, st: Stack, ops: seq<Op>): Option<(Stack, seq<Answer>)>
    decreases |ops|
  {
    if ops == [] then Some((st, []))
    else
      var r := Step(rules, st, ops[0]);
      if r.None? then None
      else
        var rest := Run(rules, r.value.0, ops[1..]);
        if rest.None? then None else Some((rest.value.0, [r.value.1] + rest.value.1))
  }

  /** The run on plain maps; None when some operation is not admissible. */
  function PlainRun(rules: Rules, ms: seq<Ledger>, ops: seq<Op>): Option<(seq<Ledger>, seq<Answer>)>
    decreases |ops|
  {
    if ops == [] then Some((ms, []))
    else if !Admissible(rules, ms, ops[0]) then None
    else
      var (ms1, a) := PlainStep(rules, ms, ops[0]);
      var rest := PlainRun(rules, ms1, ops[1..]);
      if rest.None? then None else Some((rest.value.0, [a] + rest.value.1))
  }

  /** Every admissible run of a stack of caches, of any depth and with any flushes, gives the answers
      and ends with the views of the run on plain maps; no logic_error occurs and all flags stay truthful. */
  lemma {:induction false} RunRefines(rules: Rules, st: Stack, ops: seq<Op>)
    requires Ok(st) && PlainRun(rules, Views(st), ops).Some?
    ensures Run(rules, st, ops).Some?
    ensures var (st', answers) := Run(rules, st, ops).value;
            Ok(st') && Some((Views(st'), answers)) == PlainRun(rules, Views(st), ops)
    decreases |ops|
  {
    if ops != [] {
      StepRefines(rules, st, ops[0]);
      RunRefines(rules, Step(rules, st, ops[0]).value.0, ops[1..]);
    }
  }
}
