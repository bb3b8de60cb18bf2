/** Compact blocks (BIP 152): a block as short ids and a few whole transactions, and how a receiver lays them out. */
module CompactBlocks {
  import opened Common

  const MAX_TXS: nat := 100000
  const MAX_INDEX: nat := 65535

  datatype Prefilled<Tx> = Prefilled(index: nat, tx: Tx)

  /** A transaction a node already has, under the hash it is known by. */
  datatype Entry<Tx, Id> = Entry(id: Id, tx: Tx)

  datatype Message<Tx> = Message(headerNull: bool, shortIds: seq<nat>, prefilled: seq<Prefilled<Tx>>) {
    function Count(): nat {
      |shortIds| + |prefilled|
    }
  }

  /** The place of the k-th prefilled transaction: indices count from one past the one before. */
  function Place<Tx>(prefilled: seq<Prefilled<Tx>>, k: nat): int
    requires k <= |prefilled|
  {
    if k == 0 then -1 else Place(prefilled, k - 1) + prefilled[k - 1].index + 1
  }

  lemma {:induction false} PlaceGrows<Tx>(prefilled: seq<Prefilled<Tx>>, j: nat, k: nat)
    requires j < k <= |prefilled|
    ensures -1 <= Place(prefilled, j) < Place(prefilled, k)
  {
    if j == k - 1 {
      if j > 0 {
        PlaceGrows(prefilled, j - 1, j);
      }
    } else {
      PlaceGrows(prefilled, j, k - 1);
    }
  }

  predicate PlaceOk<Tx>(msg: Message<Tx>, isNull: Tx -> bool, i: nat)
    requires i < |msg.prefilled|
  {
    && !isNull(msg.prefilled[i].tx)
    && Place(msg.prefilled, i + 1) <= MAX_INDEX
    && Place(msg.prefilled, i + 1) <= |msg.shortIds| + i
  }

  ghost predicate PlacesOk<Tx>(msg: Message<Tx>, isNull: Tx -> bool, k: nat)
    requires k <= |msg.prefilled|
  {
    forall i | 0 <= i < k :: PlaceOk(msg, isNull, i)
  }

  ghost predicate WellFormed<Tx>(msg: Message<Tx>, isNull: Tx -> bool) {
    && !msg.headerNull && 1 <= msg.Count() <= MAX_TXS
    && PlacesOk(msg, isNull, |msg.prefilled|)
  }

  function Blank<Tx>(n: nat): (s: seq<Option<Tx>>)
    ensures |s| == n && forall i | 0 <= i < n :: s[i] == None
  {
    seq(n, i => None)
  }

  /** The block's places with the first k prefilled transactions in them. */
  ghost function Laid<Tx>(msg: Message<Tx>, isNull: Tx -> bool, k: nat): (s: seq<Option<Tx>>)
    requires k <= |msg.prefilled| && PlacesOk(msg, isNull, k)
    ensures |s| == msg.Count()
    ensures forall p | 0 <= p < |s| && Place(msg.prefilled, k) < p :: s[p] == None
  {
    if k == 0 then Blank(msg.Count()) else
      var s, p := Laid(msg, isNull, k - 1), Place(msg.prefilled, k);
      assert PlaceOk(msg, isNull, k - 1);
      PlaceGrows(msg.prefilled, k - 1, k);
      s[p := Some(msg.prefilled[k - 1].tx)]
  }

  // The free places, in order

  ghost function Free<T>(s: seq<Option<T>>): seq<nat> {
    if s == [] then [] else
      var n := |s| - 1;
      Free(s[..n]) + if s[n].None? then [n] else []
  }

  lemma {:induction false} FreeIs<T>(s: seq<Option<T>>)
    ensures forall i | 0 <= i < |Free(s)| :: Free(s)[i] < |s| && s[Free(s)[i]].None?
    ensures forall i, j | 0 <= i < j < |Free(s)| :: Free(s)[i] < Free(s)[j]
  {
    if s != [] {
      FreeIs(s[..|s| - 1]);
    }
  }

  lemma {:induction false} FreeHas<T>(s: seq<Option<T>>, p: nat) returns (i: nat)
    requires p < |s| && s[p].None?
    ensures i < |Free(s)| && Free(s)[i] == p
  {
    var n := |s| - 1;
    if p < n {
      i := FreeHas(s[..n], p);
    } else {
      i := |Free(s[..n])|;
    }
  }

  lemma {:induction false} FreePrefix<T>(s: seq<Option<T>>, k: nat)
    requires k <= |s|
    ensures Free(s[..k]) <= Free(s)
  {
    if k == |s| {
      assert s[..k] == s;
    } else {
      var n := |s| - 1;
      FreePrefix(s[..n], k);
      assert s[..n][..k] == s[..k];
    }
  }

  lemma FreeStep<T>(s: seq<Option<T>>, k: nat)
    requires k < |s|
    ensures Free(s[..k + 1]) == Free(s[..k]) + if s[k].None? then [k] else []
  {
    assert s[..k + 1][..k] == s[..k];
  }

  lemma {:induction false} FreeTaken<T>(s: seq<Option<T>>, p: nat, x: T)
    requires p < |s| && s[p].None?
    ensures |Free(s[p := Some(x)])| == |Free(s)| - 1
  {
    var n := |s| - 1;
    if p == n {
      assert s[p := Some(x)][..n] == s[..n];
    } else {
      FreeTaken(s[..n], p, x);
      assert s[p := Some(x)][..n] == s[..n][p := Some(x)];
    }
  }

  lemma {:induction false} FreeBlank<T>(n: nat)
    ensures |Free(Blank<T>(n))| == n
  {
    if n > 0 {
      FreeBlank<T>(n - 1);
      assert Blank<T>(n)[..n - 1] == Blank<T>(n - 1);
    }
  }

  /** There is one free place for each short id. */
  lemma {:induction false} FreeCount<Tx>(msg: Message<Tx>, isNull: Tx -> bool, k: nat)
    requires k <= |msg.prefilled| && PlacesOk(msg, isNull, k)
    ensures |Free(Laid(msg, isNull, k))| == msg.Count() - k
  {
    if k == 0 {
      FreeBlank<Tx>(msg.Count());
    } else {
      FreeCount(msg, isNull, k - 1);
      assert PlaceOk(msg, isNull, k - 1);
      PlaceGrows(msg.prefilled, k - 1, k);
      FreeTaken(Laid(msg, isNull, k - 1), Place(msg.prefilled, k), msg.prefilled[k - 1].tx);
    }
  }

  /** The taken places before position k are no more than all taken places. */
  lemma {:induction false} TakenGrows<T>(s: seq<Option<T>>, k: nat)
    requires k <= |s|
    ensures k - |Free(s[..k])| <= |s| - |Free(s)|
  {
    if k == |s| {
      assert s[..k] == s;
    } else {
      var n := |s| - 1;
      TakenGrows(s[..n], k);
      assert s[..n][..k] == s[..k];
    }
  }

  /** The places as they are stored, in 16 bits. */
  ghost function Stored(free: seq<nat>): (places: seq<nat>)
    ensures |places| == |free| && forall i | 0 <= i < |free| :: places[i] == free[i] % 65536
  {
    if free == [] then [] else Stored(free[..|free| - 1]) + [free[|free| - 1] % 65536]
  }

  lemma {:induction false} PrefilledFit<Tx>(msg: Message<Tx>, isNull: Tx -> bool, k: nat)
    requires k <= |msg.prefilled| && PlacesOk(msg, isNull, k)
    ensures k <= Place(msg.prefilled, k) + 1 <= 65536
  {
    if k > 0 {
      PrefilledFit(msg, isNull, k - 1);
      assert PlaceOk(msg, isNull, k - 1);
    }
  }

  /** Every short id is stored with its own free place exactly in messages of at most 65536 transactions. */
  lemma StoredExact<Tx>(msg: Message<Tx>, isNull: Tx -> bool)
    requires WellFormed(msg, isNull)
    ensures var free := Free(Laid(msg, isNull, |msg.prefilled|));
            Stored(free) == free <==> msg.Count() <= 65536
  {
    hide Free, Laid, PlacesOk, Stored;
    var n := |msg.prefilled|;
    var laid := Laid(msg, isNull, n);
    var free := Free(laid);
    FreeIs(laid);
    PrefilledFit(msg, isNull, n);
    if msg.Count() <= 65536 {
      assert forall i | 0 <= i < |free| :: free[i] % 65536 == free[i];
      assert Stored(free) == free;
    } else {
      var i := FreeHas(laid, msg.Count() - 1);
      assert Stored(free)[i] != free[i];
    }
  }

  lemma {:induction false} PlacesFilled<Tx>(msg: Message<Tx>, isNull: Tx -> bool, k: nat, p: nat)
    requires k <= |msg.prefilled| && PlacesOk(msg, isNull, k) && Place(msg.prefilled, k) == k - 1 && p < k
    ensures p < msg.Count() && Laid(msg, isNull, k)[p].Some?
  {
    PlaceGrows(msg.prefilled, k - 1, k);
    PrefilledFit(msg, isNull, k - 1);
    assert PlaceOk(msg, isNull, k - 1);
    if p < k - 1 {
      PlacesFilled(msg, isNull, k - 1, p);
    }
  }

  /** The walk to the first free place, with its 16-bit counter, ends exactly unless 65536 places are taken. */
  lemma WalkEnds<Tx>(msg: Message<Tx>, isNull: Tx -> bool)
    requires WellFormed(msg, isNull) && msg.shortIds != []
    ensures var laid := Laid(msg, isNull, |msg.prefilled|);
            && |msg.prefilled| <= 65536
            && (|msg.prefilled| < 65536 <==> exists n: nat :: n % 65536 < |laid| && laid[n % 65536].None?)
  {
    hide Free, Laid, PlacesOk;
    var k := |msg.prefilled|;
    var laid := Laid(msg, isNull, k);
    PrefilledFit(msg, isNull, k);
    if k < 65536 {
      FreeCount(msg, isNull, k);
      FreeIs(laid);
      var p := Free(laid)[0];
      FirstFree(laid);
      assert p % 65536 < |laid| && laid[p % 65536].None?;
    } else {
      forall n: nat
        ensures !(n % 65536 < |laid| && laid[n % 65536].None?)
      {
        PlacesFilled(msg, isNull, k, n % 65536);
      }
    }
  }

  lemma {:induction false} ZeroPlaces<Tx>(prefilled: seq<Prefilled<Tx>>, k: nat)
    requires k <= |prefilled| && forall i | 0 <= i < k :: prefilled[i].index == 0
    ensures Place(prefilled, k) == k - 1
  {
    if k > 0 {
      ZeroPlaces(prefilled, k - 1);
    }
  }

  /** One transaction prefilled 65536 times and one short id make a message that passes the tests and blocks the walk. */
  lemma BlockedExample<Tx>(tx: Tx, isNull: Tx -> bool, id: nat)
    requires !isNull(tx)
    ensures var msg := Message(false, [id], seq(65536, _ => Prefilled(0, tx)));
            WellFormed(msg, isNull) && forall n: nat :: n % 65536 < msg.Count() ==>
              Laid(msg, isNull, |msg.prefilled|)[n % 65536].Some?
  {
    hide Laid;
    var msg := Message(false, [id], seq(65536, _ => Prefilled(0, tx)));
    forall i | 0 <= i < |msg.prefilled| ensures PlaceOk(msg, isNull, i) {
      ZeroPlaces(msg.prefilled, i + 1);
    }
    WalkEnds(msg, isNull);
  }

  /** No 16-bit offset leads from the first place to a free one. */
  ghost predicate Blocked<T>(s: seq<Option<T>>) {
    |s| > 65536 && forall p | 0 <= p < 65536 :: s[p].Some?
  }

  lemma BlockedExact<Tx>(msg: Message<Tx>, isNull: Tx -> bool)
    requires WellFormed(msg, isNull) && msg.shortIds != []
    ensures var laid := Laid(msg, isNull, |msg.prefilled|);
            && (Blocked(laid) <==> |msg.prefilled| == 65536)
            && (!Blocked(laid) ==> |laid| - |Free(laid)| <= 65535)
  {
    hide Free, Laid, PlacesOk;
    var k := |msg.prefilled|;
    var laid := Laid(msg, isNull, k);
    WalkEnds(msg, isNull);
    FreeCount(msg, isNull, k);
    if k == 65536 {
      PrefilledFit(msg, isNull, k);
      forall p | 0 <= p < 65536 ensures laid[p].Some? {
        PlacesFilled(msg, isNull, k, p);
      }
    }
  }

  /** The first free place comes after taken places only. */
  lemma FirstFree<T>(s: seq<Option<T>>)
    requires Free(s) != []
    ensures Free(s)[0] <= |s| - |Free(s)|
  {
    hide Free;
    FreeIs(s);
    var p := Free(s)[0];
    NoneBefore(s, p);
    TakenGrows(s, p);
  }

  lemma NoneBefore<T>(s: seq<Option<T>>, k: nat)
    requires Free(s) != [] && k == Free(s)[0] && k <= |s|
    ensures Free(s[..k]) == []
  {
    hide Free;
    FreePrefix(s, k);
    FreeIs(s[..k]);
  }

  predicate Distinct(s: seq<nat>) {
    forall i, j | 0 <= i < j < |s| :: s[i] != s[j]
  }

  // What a receiver ends up with at one place

  /** The transactions of the first k entries with a given short id, in order. */
  ghost function Matches<Tx, Id>(entries: seq<Entry<Tx, Id>>, short: Id -> nat, id: nat): seq<Tx> {
    if entries == [] then [] else
      var n := |entries| - 1;
      Matches(entries[..n], short, id) + if short(entries[n].id) == id then [entries[n].tx] else []
  }

  /** Two pool transactions with one short id cancel; an extra one cancels only if its witness hash differs. */
  ghost function Settle<Tx, Id>(pool: seq<Tx>, extra: seq<Tx>, wtxid: Tx -> Id): Option<Tx> {
    if |pool| >= 2 || pool + extra == [] then None else
      var first := (pool + extra)[0];
      if forall i | 0 <= i < |extra| :: wtxid(extra[i]) == wtxid(first) then Some(first) else None
  }

  lemma SettlePool<Tx, Id>(pool: seq<Tx>, tx: Tx, wtxid: Tx -> Id)
    ensures Settle(pool + [tx], [], wtxid) == if pool == [] then Some(tx) else None
  {
  }

  lemma SettleExtra<Tx, Id>(pool: seq<Tx>, extra: seq<Tx>, tx: Tx, wtxid: Tx -> Id)
    ensures var was := Settle(pool, extra, wtxid);
            Settle(pool, extra + [tx], wtxid)
            == if pool + extra == [] then Some(tx)
               else if was.Some? && wtxid(was.value) == wtxid(tx) then was else None
  {
    var more := extra + [tx];
    assert pool + more == pool + extra + [tx];
    if |pool| < 2 && pool + extra != [] {
      var first := (pool + extra)[0];
      assert (pool + more)[0] == first;
      assert forall i | 0 <= i < |extra| :: more[i] == extra[i];
      assert more[|extra|] == tx;
    }
  }

  /** The places of the short ids hold what the entries seen so far settle on; the others are as laid out. */
  ghost predicate Settled<Tx, Id>(laid: seq<Option<Tx>>, avail: seq<Option<Tx>>, have: seq<bool>, ids: seq<nat>,
                                  pool: seq<Entry<Tx, Id>>, extra: seq<Entry<Tx, Id>>, short: Id -> nat,
                                  wtxid: Tx -> Id)
    requires |Free(laid)| == |ids|
  {
    && |avail| == |have| == |laid|
    && (forall p | 0 <= p < |laid| && laid[p].Some? :: avail[p] == laid[p])
    && forall i | 0 <= i < |ids| ::
         && Free(laid)[i] < |laid|
         && var pm, em := Matches(pool, short, ids[i]), Matches(extra, short, ids[i]);
            avail[Free(laid)[i]] == Settle(pm, em, wtxid) && have[Free(laid)[i]] == (pm + em != [])
  }

  /** How many of the given places are taken. */
  ghost function Found<T>(avail: seq<Option<T>>, places: seq<nat>): nat
    requires forall i | 0 <= i < |places| :: places[i] < |avail|
  {
    if places == [] then 0 else
      var n := |places| - 1;
      Found(avail, places[..n]) + if avail[places[n]].Some? then 1 else 0
  }

  lemma {:induction false} FoundAll<T>(avail: seq<Option<T>>, places: seq<nat>)
    requires forall i | 0 <= i < |places| :: places[i] < |avail|
    ensures Found(avail, places) <= |places|
    ensures Found(avail, places) == |places| ==> forall i | 0 <= i < |places| :: avail[places[i]].Some?
  {
    if places != [] {
      FoundAll(avail, places[..|places| - 1]);
    }
  }

  lemma {:induction false} FoundUpdate<T>(avail: seq<Option<T>>, places: seq<nat>, i: nat, x: Option<T>)
    requires forall j | 0 <= j < |places| :: places[j] < |avail|
    requires Distinct(places) && i < |places|
    ensures Found(avail[places[i] := x], places)
         == Found(avail, places) - (if avail[places[i]].Some? then 1 else 0) + (if x.Some? then 1 else 0)
  {
    var n := |places| - 1;
    if i == n {
      FoundSame(avail, places[..n], places[n], x);
    } else {
      FoundUpdate(avail, places[..n], i, x);
    }
  }

  lemma {:induction false} FoundSame<T>(avail: seq<Option<T>>, places: seq<nat>, p: nat, x: Option<T>)
    requires forall j | 0 <= j < |places| :: places[j] < |avail| && places[j] != p
    requires p < |avail|
    ensures Found(avail[p := x], places) == Found(avail, places)
  {
    if places != [] {
      FoundSame(avail, places[..|places| - 1], p, x);
    }
  }

  // The block a message stands for

  /** The message tells the transactions of this block: the prefilled ones whole, the others by short id. */
  ghost predicate Describes<Tx>(msg: Message<Tx>, isNull: Tx -> bool, vtx: seq<Tx>, shortOf: Tx -> nat)
    requires WellFormed(msg, isNull)
  {
    var laid := Laid(msg, isNull, |msg.prefilled|);
    && |vtx| == msg.Count() && |Free(laid)| == |msg.shortIds|
    && (forall p | 0 <= p < |laid| && laid[p].Some? :: laid[p].value == vtx[p])
    && forall i | 0 <= i < |msg.shortIds| :: Free(laid)[i] < |vtx| && msg.shortIds[i] == shortOf(vtx[Free(laid)[i]])
  }

  /** The transactions at the free places, in order: what a receiver asks for. */
  ghost function Missing<Tx>(avail: seq<Option<Tx>>, vtx: seq<Tx>): seq<Tx>
    requires |avail| == |vtx|
  {
    if avail == [] then [] else
      var n := |avail| - 1;
      Missing(avail[..n], vtx[..n]) + if avail[n].None? then [vtx[n]] else []
  }

  /** The block filled in, taking a missing transaction at each free place; fails unless there are as many as needed. */
  ghost function Filled<Tx>(avail: seq<Option<Tx>>, missing: seq<Tx>): (vtx: Option<seq<Tx>>)
    ensures vtx.Some? ==> |vtx.value| == |avail|
  {
    if avail == [] then (if missing == [] then Some([]) else None) else
      var n := |avail| - 1;
      if avail[n].Some? then
        var rest := Filled(avail[..n], missing);
        if rest.None? then None else Some(rest.value + [avail[n].value])
      else if missing == [] then None else
        var rest := Filled(avail[..n], missing[..|missing| - 1]);
        if rest.None? then None else Some(rest.value + [missing[|missing| - 1]])
  }

  /** Filling in the missing transactions gives the block back. */
  lemma {:induction false} FilledBack<Tx>(avail: seq<Option<Tx>>, vtx: seq<Tx>)
    requires |avail| == |vtx| && forall p | 0 <= p < |avail| && avail[p].Some? :: avail[p].value == vtx[p]
    ensures Filled(avail, Missing(avail, vtx)) == Some(vtx)
  {
    if avail != [] {
      var n := |avail| - 1;
      FilledBack(avail[..n], vtx[..n]);
      assert vtx == vtx[..n] + [vtx[n]];
      var m, rest := Missing(avail, vtx), Missing(avail[..n], vtx[..n]);
      if avail[n].None? {
        assert m[..|m| - 1] == rest;
      } else {
        assert m == rest;
      }
    }
  }

  lemma {:induction false} MatchesFrom<Tx, Id>(entries: seq<Entry<Tx, Id>>, short: Id -> nat, id: nat, tx: Tx)
    returns (j: nat)
    requires tx in Matches(entries, short, id)
    ensures j < |entries| && short(entries[j].id) == id && entries[j].tx == tx
  {
    var n := |entries| - 1;
    if tx in Matches(entries[..n], short, id) {
      j := MatchesFrom(entries[..n], short, id, tx);
    } else {
      j := n;
    }
  }

  lemma SettleFrom<Tx, Id>(pool: seq<Tx>, extra: seq<Tx>, wtxid: Tx -> Id)
    ensures Settle(pool, extra, wtxid).Some? ==> Settle(pool, extra, wtxid).value in pool + extra
  {
  }

  /** No entry passes for a transaction of the block it is not. */
  ghost predicate NoImpostor<Tx, Id>(msg: Message<Tx>, free: seq<nat>, vtx: seq<Tx>, entries: seq<Entry<Tx, Id>>,
                                     short: Id -> nat)
    requires |free| == |msg.shortIds| && forall i | 0 <= i < |free| :: free[i] < |vtx|
  {
    forall i, j | 0 <= i < |free| && 0 <= j < |entries| && short(entries[j].id) == msg.shortIds[i] ::
      entries[j].tx == vtx[free[i]]
  }

  /** Whatever the pool and the extra transactions hold, if none passes for another the block comes back. */
  lemma Reconstructs<Tx, Id>(msg: Message<Tx>, isNull: Tx -> bool, vtx: seq<Tx>, shortOf: Tx -> nat,
                             avail: seq<Option<Tx>>, have: seq<bool>, pool: seq<Entry<Tx, Id>>,
                             extra: seq<Entry<Tx, Id>>, short: Id -> nat, wtxid: Tx -> Id)
    requires WellFormed(msg, isNull) && Describes(msg, isNull, vtx, shortOf)
    requires var laid := Laid(msg, isNull, |msg.prefilled|);
             && Settled(laid, avail, have, msg.shortIds, pool, extra, short, wtxid)
             && NoImpostor(msg, Free(laid), vtx, pool, short) && NoImpostor(msg, Free(laid), vtx, extra, short)
    ensures |avail| == |vtx| && Filled(avail, Missing(avail, vtx)) == Some(vtx)
  {
    hide Laid, Free, Settle, Matches, Filled, Missing;
    var laid := Laid(msg, isNull, |msg.prefilled|);
    var free := Free(laid);
    forall p | 0 <= p < |avail| && avail[p].Some?
      ensures avail[p].value == vtx[p]
    {
      if laid[p].None? {
        var i := FreeHas(laid, p);
        var pm, em := Matches(pool, short, msg.shortIds[i]), Matches(extra, short, msg.shortIds[i]);
        SettleFrom(pm, em, wtxid);
        var tx := avail[p].value;
        if tx in pm {
          var j := MatchesFrom(pool, short, msg.shortIds[i], tx);
        } else {
          var j := MatchesFrom(extra, short, msg.shortIds[i], tx);
        }
      }
    }
    FilledBack(avail, vtx);
  }

  /** The message a node sends for its own block: the coinbase whole, all else by short id. */
  function FromBlock<Tx>(vtx: seq<Tx>, shortOf: Tx -> nat): Message<Tx>
    requires |vtx| >= 1
  {
    Message(false, ShortIds(vtx[1..], shortOf), [Prefilled(0, vtx[0])])
  }

  function ShortIds<Tx>(txs: seq<Tx>, shortOf: Tx -> nat): (ids: seq<nat>)
    ensures |ids| == |txs| && forall i | 0 <= i < |txs| :: ids[i] == shortOf(txs[i])
  {
    if txs == [] then [] else [shortOf(txs[0])] + ShortIds(txs[1..], shortOf)
  }

  lemma {:induction false} FreeAfterFirst<T>(s: seq<Option<T>>)
    requires |s| >= 1 && s[0].Some? && forall p | 1 <= p < |s| :: s[p].None?
    ensures |Free(s)| == |s| - 1 && forall i | 0 <= i < |s| - 1 :: Free(s)[i] == i + 1
  {
    var n := |s| - 1;
    if n == 0 {
      assert Free(s[..0]) == [];
    } else {
      FreeAfterFirst(s[..n]);
    }
  }

  lemma FromBlockDescribes<Tx>(vtx: seq<Tx>, shortOf: Tx -> nat, isNull: Tx -> bool)
    requires 1 <= |vtx| <= MAX_TXS && !isNull(vtx[0])
    ensures WellFormed(FromBlock(vtx, shortOf), isNull)
    ensures Describes(FromBlock(vtx, shortOf), isNull, vtx, shortOf)
  {
    hide Laid, Free;
    var msg := FromBlock(vtx, shortOf);
    assert Place(msg.prefilled, 1) == 0;
    assert PlaceOk(msg, isNull, 0);
    FromBlockLaid(vtx, shortOf, isNull);
    FromBlockFree(vtx, shortOf, isNull);
  }

  lemma FromBlockFree<Tx>(vtx: seq<Tx>, shortOf: Tx -> nat, isNull: Tx -> bool)
    requires 1 <= |vtx| && WellFormed(FromBlock(vtx, shortOf), isNull)
    ensures var free := Free(Laid(FromBlock(vtx, shortOf), isNull, 1));
            |free| == |vtx| - 1 && forall i | 0 <= i < |free| :: free[i] == i + 1
  {
    hide Laid, Free;
    FromBlockLaid(vtx, shortOf, isNull);
    FreeAfterFirst(Laid(FromBlock(vtx, shortOf), isNull, 1));
  }

  lemma FromBlockLaid<Tx>(vtx: seq<Tx>, shortOf: Tx -> nat, isNull: Tx -> bool)
    requires 1 <= |vtx| && WellFormed(FromBlock(vtx, shortOf), isNull)
    ensures var laid := Laid(FromBlock(vtx, shortOf), isNull, 1);
            |laid| == |vtx| && laid[0] == Some(vtx[0]) && forall p | 1 <= p < |laid| :: laid[p].None?
  {
    var msg := FromBlock(vtx, shortOf);
    assert Place(msg.prefilled, 1) == 0;
    assert Laid(msg, isNull, 1) == Blank<Tx>(msg.Count())[0 := Some(vtx[0])];
  }

  /** In the message of a block of 65537 transactions the last one is stored at the place of the first. */
  lemma StoredExample<Tx>(vtx: seq<Tx>, shortOf: Tx -> nat, isNull: Tx -> bool)
    requires |vtx| == 65537 && !isNull(vtx[0])
    ensures var msg := FromBlock(vtx, shortOf);
            && WellFormed(msg, isNull)
            && var free := Free(Laid(msg, isNull, 1)); |free| == 65536 && free[65535] == 65536 && Stored(free)[65535] == 0
  {
    hide Free, Laid, Stored;
    FromBlockDescribes(vtx, shortOf, isNull);
    FromBlockFree(vtx, shortOf, isNull);
  }

  // Differential coding of requested indices

  const TWO64: nat := 0x1_0000_0000_0000_0000

  ghost predicate Increasing(idx: seq<nat>) {
    forall i | 0 < i < |idx| :: idx[i - 1] < idx[i]
  }

  /** An index less one past the one before, as an unsigned 64-bit number. */
  function Delta(first: bool, last: nat, x: nat): nat {
    (x - (if first then 0 else last + 1)) % TWO64
  }

  /** The index a delta stands for; fails where the delta or the sum leaves 16 bits. The offset is itself 16 bits. */
  function NextIndex(first: bool, last: nat, d: nat): Option<nat> {
    var offset := if first then 0 else (last + 1) % 65536;
    if d > MAX_INDEX || d + offset > MAX_INDEX then None else Some(d + offset)
  }

  lemma DeltaBack(first: bool, last: nat, x: nat)
    requires last <= MAX_INDEX && x <= MAX_INDEX
    ensures NextIndex(first, last, Delta(first, last, x)) == Some(x) <==> first || last < x
  {
  }

  lemma IndexBack(first: bool, last: nat, d: nat)
    requires last <= MAX_INDEX && NextIndex(first, last, d).Some?
    ensures var x := NextIndex(first, last, d).value;
            && (first || last < x <==> first || last != MAX_INDEX)
            && (first || last < x ==> Delta(first, last, x) == d)
  {
  }

  ghost function Deltas(idx: seq<nat>): (d: seq<nat>)
    ensures |d| == |idx|
  {
    if idx == [] then [] else
      var n := |idx| - 1;
      Deltas(idx[..n]) + [Delta(n == 0, if n == 0 then 0 else idx[n - 1], idx[n])]
  }

  /** The running sum of the deltas. */
  ghost function Indices(d: seq<nat>): (idx: Option<seq<nat>>)
    ensures idx.Some? ==> |idx.value| == |d| && Uint16s(idx.value)
  {
    if d == [] then Some([]) else
      var n := |d| - 1;
      var rest := Indices(d[..n]);
      if rest.None? then None else
        var x := NextIndex(n == 0, if n == 0 then 0 else rest.value[n - 1], d[n]);
        if x.None? then None else Some(rest.value + [x.value])
  }

  ghost predicate Uint16s(idx: seq<nat>) {
    forall i | 0 <= i < |idx| :: idx[i] <= MAX_INDEX
  }

  lemma IncreasingStep(idx: seq<nat>, n: nat)
    requires |idx| == n + 1
    ensures Increasing(idx) <==> Increasing(idx[..n]) && (n == 0 || idx[n - 1] < idx[n])
  {
    if Increasing(idx[..n]) {
      forall i | 0 < i < n
        ensures idx[i - 1] < idx[i]
      {
        assert idx[..n][i - 1] < idx[..n][i];
      }
    }
  }

  /** A request survives coding exactly when its indices strictly increase. */
  lemma {:induction false} RequestRoundTrip(idx: seq<nat>)
    requires Uint16s(idx)
    ensures Indices(Deltas(idx)) == Some(idx) <==> Increasing(idx)
  {
    hide Delta, NextIndex, Increasing;
    if idx == [] {
      NoneIncreasing();
    } else {
      var n := |idx| - 1;
      RequestRoundTrip(idx[..n]);
      IncreasingStep(idx, n);
      DeltaBack(n == 0, if n == 0 then 0 else idx[n - 1], idx[n]);
      assert Deltas(idx)[..n] == Deltas(idx[..n]);
      assert idx == idx[..n] + [idx[n]];
      if Indices(Deltas(idx)) == Some(idx) {
        assert Indices(Deltas(idx)).value[..n] == idx[..n];
      }
    }
  }

  lemma NoneIncreasing()
    ensures Increasing([])
  {
  }

  /** The room a request takes: each delta and the place it ends at. */
  function Total(d: seq<nat>): nat {
    if d == [] then 0 else Total(d[..|d| - 1]) + d[|d| - 1] + 1
  }

  lemma TotalStep(first: bool, last: nat, d: nat, before: nat)
    requires last <= MAX_INDEX && before == if first then 0 else last + 1
    ensures NextIndex(first, last, d).Some? && (first || last < NextIndex(first, last, d).value) <==>
            before + d + 1 <= 65536
    ensures before + d + 1 <= 65536 ==> NextIndex(first, last, d) == Some(before + d)
  {
  }

  /** A received request is accepted and strictly increases exactly when its deltas leave it within 65536 places. */
  lemma {:induction false} RequestAccepted(d: seq<nat>)
    ensures Indices(d).Some? && Increasing(Indices(d).value) <==> Total(d) <= 65536
    ensures Total(d) <= 65536 && d != [] ==> Indices(d).value[|d| - 1] == Total(d) - 1
  {
    hide NextIndex, Increasing, Uint16s;
    if d == [] {
      NoneIncreasing();
    } else {
      var n := |d| - 1;
      RequestAccepted(d[..n]);
      if Indices(d[..n]).Some? {
        var rest := Indices(d[..n]).value;
        var last := if n == 0 then 0 else rest[n - 1];
        InRange16(rest, n);
        if Total(d[..n]) <= 65536 {
          TotalStep(n == 0, last, d[n], Total(d[..n]));
        }
        if Indices(d).Some? {
          assert Indices(d).value[..n] == rest;
          IncreasingStep(Indices(d).value, n);
        }
      }
    }
  }

  lemma InRange16(idx: seq<nat>, n: nat)
    requires Uint16s(idx) && |idx| == n
    ensures n > 0 ==> idx[n - 1] <= MAX_INDEX
  {
  }

  /** What is accepted and strictly increases codes back to what was received. */
  lemma {:induction false} AcceptedRequest(d: seq<nat>)
    requires Total(d) <= 65536
    ensures Indices(d).Some? && Deltas(Indices(d).value) == d
  {
    hide Delta, NextIndex, Increasing;
    RequestAccepted(d);
    if d != [] {
      var n, idx := |d| - 1, Indices(d).value;
      AcceptedRequest(d[..n]);
      assert idx[..n] == Indices(d[..n]).value;
      IncreasingStep(idx, n);
      IndexBack(n == 0, if n == 0 then 0 else idx[n - 1], d[n]);
      assert d == d[..n] + [d[n]];
    }
  }

  /** The running offset wraps after the largest index, so a request that goes back is accepted. */
  lemma WrappedRequest()
    ensures Indices([65535, 0]) == Some([65535, 0]) && !Increasing([65535, 0]) && Total([65535, 0]) == 65537
  {
    hide NextIndex;
    var d, one := [65535, 0], [65535];
    assert d[..1] == one && one[..0] == [];
    LargestThenZero();
    assert Indices([]) == Some([]);
    assert [] + [65535] == one && one + [0] == d;
    assert d[1 - 1] >= d[1];
  }

  lemma LargestThenZero()
    ensures NextIndex(true, 0, 65535) == Some(65535) && NextIndex(false, 65535, 0) == Some(0)
  {
  }
}
