/** PartiallyDownloadedBlock: the receiver's side of a compact block, and the coding of index requests. */
module PartialBlock {
  import opened Common
  import opened CompactBlocks

  /** The source's statuses, and Endless for a call that does not return. */
  datatype ReadStatus = Ok | Invalid | Failed | CheckBlockFailed | Endless

  datatype Mapping = Mapped(ids: map<nat, nat>) | Crowded | NotEnding

  datatype CheckResult = Passed | CorruptionPossible | Rejected

  /** The numbering of short ids: as many of the first ids as are distinct, each at the free place of its turn. */
  ghost predicate Numbered(ids: map<nat, nat>, shortIds: seq<nat>, free: seq<nat>, i: nat)
    requires i <= |shortIds| <= |free|
  {
    && (forall s :: s in ids <==> s in shortIds[..i])
    && |ids| <= i
    && (|ids| == i <==> Distinct(shortIds[..i]))
    && (|ids| == i ==> forall j | 0 <= j < i :: shortIds[j] in ids && ids[shortIds[j]] == free[j])
  }

  lemma DistinctStep(s: seq<nat>, i: nat)
    requires i < |s|
    ensures Distinct(s[..i + 1]) <==> Distinct(s[..i]) && s[i] !in s[..i]
  {
    var t := s[..i + 1];
    assert t == s[..i] + [s[i]];
    if Distinct(t) {
      forall j, k | 0 <= j < k < i
        ensures s[..i][j] != s[..i][k]
      {
        assert t[j] != t[k];
      }
      forall j | 0 <= j < i
        ensures s[..i][j] != s[i]
      {
        assert t[j] != t[i];
      }
    }
  }

  lemma NumberStep(ids: map<nat, nat>, shortIds: seq<nat>, free: seq<nat>, i: nat)
    requires i < |shortIds| <= |free| && Numbered(ids, shortIds, free, i)
    ensures Numbered(ids[shortIds[i] := free[i]], shortIds, free, i + 1)
  {
    hide Distinct;
    var s, more := shortIds[i], ids[shortIds[i] := free[i]];
    DistinctStep(shortIds, i);
    assert shortIds[..i + 1] == shortIds[..i] + [s];
    if s in ids {
      assert more.Keys == ids.Keys;
      assert |more| == |ids|;
    } else {
      assert more.Keys == ids.Keys + {s};
      assert |more| == |ids| + 1;
    }
  }

  lemma MatchAppend<Tx, Id>(entries: seq<Entry<Tx, Id>>, e: Entry<Tx, Id>, short: Id -> nat, id: nat)
    ensures Matches(entries + [e], short, id)
         == Matches(entries, short, id) + if short(e.id) == id then [e.tx] else []
  {
    assert (entries + [e])[..|entries|] == entries;
  }

  /** How a receiver's picture changes when one more entry bears on the place of short id i. */
  lemma Resettle<Tx, Id>(laid: seq<Option<Tx>>, avail: seq<Option<Tx>>, have: seq<bool>, ids: seq<nat>,
                         pool: seq<Entry<Tx, Id>>, extra: seq<Entry<Tx, Id>>, pool2: seq<Entry<Tx, Id>>,
                         extra2: seq<Entry<Tx, Id>>, short: Id -> nat, wtxid: Tx -> Id, i: nat, x: Option<Tx>)
    requires |Free(laid)| == |ids| && Distinct(ids) && i < |ids|
    requires Settled(laid, avail, have, ids, pool, extra, short, wtxid)
    requires forall j | 0 <= j < |ids| && j != i ::
               Matches(pool2, short, ids[j]) == Matches(pool, short, ids[j])
               && Matches(extra2, short, ids[j]) == Matches(extra, short, ids[j])
    requires var pm, em := Matches(pool2, short, ids[i]), Matches(extra2, short, ids[i]);
             x == Settle(pm, em, wtxid) && pm + em != []
    ensures var p := Free(laid)[i];
            Settled(laid, avail[p := x], have[p := true], ids, pool2, extra2, short, wtxid)
  {
    hide Matches, Settle, Free, Distinct;
    FreeIs(laid);
  }

  lemma SameMatches<Tx, Id>(laid: seq<Option<Tx>>, avail: seq<Option<Tx>>, have: seq<bool>, ids: seq<nat>,
                            pool: seq<Entry<Tx, Id>>, extra: seq<Entry<Tx, Id>>, pool2: seq<Entry<Tx, Id>>,
                            extra2: seq<Entry<Tx, Id>>, short: Id -> nat, wtxid: Tx -> Id)
    requires |Free(laid)| == |ids| && Settled(laid, avail, have, ids, pool, extra, short, wtxid)
    requires forall j | 0 <= j < |ids| ::
               Matches(pool2, short, ids[j]) == Matches(pool, short, ids[j])
               && Matches(extra2, short, ids[j]) == Matches(extra, short, ids[j])
    ensures Settled(laid, avail, have, ids, pool2, extra2, short, wtxid)
  {
    hide Matches, Settle, Free;
  }

  /** Each short id belongs to one of the entries. */
  ghost predicate OneEach<Tx, Id>(entries: seq<Entry<Tx, Id>>, short: Id -> nat, ids: seq<nat>) {
    forall i | 0 <= i < |ids| :: |Matches(entries, short, ids[i])| == 1
  }

  lemma SettledOnce<Tx, Id>(pm: seq<Tx>, wtxid: Tx -> Id)
    ensures Settle(pm, [], wtxid).Some? <==> |pm| == 1
  {}

  class PartiallyDownloadedBlock<Tx, Id(==)> {
    const short: Id -> nat
    const wtxid: Tx -> Id
    const isNull: Tx -> bool
    var headerNull: bool
    var txnAvailable: seq<Option<Tx>>
    var mempoolCount: int

    constructor (short: Id -> nat, wtxid: Tx -> Id, isNull: Tx -> bool)
      ensures headerNull && txnAvailable == [] && mempoolCount == 0
      ensures this.short == short && this.wtxid == wtxid && this.isNull == isNull
    {
      this.short, this.wtxid, this.isNull := short, wtxid, isNull;
      headerNull := true;
      txnAvailable := [];
      mempoolCount := 0;
    }

    /** Puts the prefilled transactions in their places. */
    method Prefill(msg: Message<Tx>) returns (ok: bool)
      requires txnAvailable == Blank(msg.Count())
      modifies this`txnAvailable
      ensures ok <==> PlacesOk(msg, isNull, |msg.prefilled|)
      ensures ok ==> txnAvailable == Laid(msg, isNull, |msg.prefilled|)
    {
      hide Place;
      var last := -1;
      assert Place(msg.prefilled, 0) == -1 by { FirstPlace(msg.prefilled); }
      var i := 0;
      while i < |msg.prefilled|
        invariant 0 <= i <= |msg.prefilled| && PlacesOk(msg, isNull, i)
        invariant last == Place(msg.prefilled, i) && txnAvailable == Laid(msg, isNull, i)
      {
        NextPlace(msg.prefilled, i);
        PlaceGrows(msg.prefilled, i, i + 1);
        if isNull(msg.prefilled[i].tx) {
          assert !PlaceOk(msg, isNull, i);
          return false;
        }
        last := last + msg.prefilled[i].index + 1;
        if last > MAX_INDEX {
          assert !PlaceOk(msg, isNull, i);
          return false;
        }
        if last > |msg.shortIds| + i {
          assert !PlaceOk(msg, isNull, i);
          return false;
        }
        assert PlaceOk(msg, isNull, i);
        txnAvailable := txnAvailable[last := Some(msg.prefilled[i].tx)];
        i := i + 1;
      }
      return true;
    }

    /** Numbers the short ids by the free places in order, in 16 bits. A crowded bucket of the table gives up. */
    method MapIds(shortIds: seq<nat>, crowded: nat -> bool) returns (result: Mapping)
      requires |Free(txnAvailable)| == |shortIds|
      requires shortIds != [] && !Blocked(txnAvailable) ==> |txnAvailable| - |shortIds| <= 65535
      ensures result.NotEnding? <==> shortIds != [] && Blocked(txnAvailable)
      ensures result.Crowded? <==> !result.NotEnding? && exists i: nat :: i < |shortIds| && crowded(i)
      ensures result.Mapped? ==> Numbered(result.ids, shortIds, Stored(Free(txnAvailable)), |shortIds|)
    {
      hide Numbered, Free, Stored, Blocked;
      ghost var all := Free(txnAvailable);
      ghost var free := Stored(all);
      var ids: map<nat, nat> := map[];
      var offset: nat := 0;
      var i := 0;
      assert Numbered(ids, shortIds, free, 0) by { NoneNumbered(shortIds, free); }
      assert Free(txnAvailable[..0]) == all[..0] by { NoneFree(txnAvailable); }
      while i < |shortIds|
        invariant 0 <= i <= |shortIds| && i + offset <= |txnAvailable|
        invariant Numbered(ids, shortIds, free, i) && forall j: nat | j < i :: !crowded(j)
        invariant i < |shortIds| ==> Free(txnAvailable[..i + offset]) == all[..i]
        invariant Blocked(txnAvailable) ==> i == offset == 0
      {
        var found := FindFree(i, offset);
        if found.None? {
          return NotEnding;
        }
        offset := found.value;
        NumberStep(ids, shortIds, free, i);
        ids := ids[shortIds[i] := (i + offset) % 65536];
        if crowded(i) {
          return Crowded;
        }
        i := i + 1;
      }
      return Mapped(ids);
    }

    /** Moves past taken places to the free place of short id i, with a 16-bit offset. A walk that comes back to the
        offset it started from goes on for ever. */
    method FindFree(i: nat, start: nat) returns (offset: Option<nat>)
      requires i < |Free(txnAvailable)| && i + start <= |txnAvailable|
      requires Free(txnAvailable[..i + start]) == Free(txnAvailable)[..i]
      requires if Blocked(txnAvailable) then i == start == 0 else |txnAvailable| - |Free(txnAvailable)| <= 65535
      ensures offset.None? <==> Blocked(txnAvailable)
      ensures offset.Some? ==>
                && i + offset.value < |txnAvailable| && Free(txnAvailable)[i] == i + offset.value
                && Free(txnAvailable[..i + 1 + offset.value]) == Free(txnAvailable)[..i + 1]
    {
      hide Free;
      var o := start;
      InRange(txnAvailable, i, i + o);
      while txnAvailable[i + o].Some?
        invariant i + o < |txnAvailable| && start <= o
        invariant Free(txnAvailable[..i + o]) == Free(txnAvailable)[..i]
        invariant Blocked(txnAvailable) ==> o < 65536
        decreases |txnAvailable| - o
      {
        FreeStep(txnAvailable, i + o);
        TakenGrows(txnAvailable, i + o + 1);
        if !Blocked(txnAvailable) {
          InRange(txnAvailable, i, i + o + 1);
        }
        o := (o + 1) % 65536;
        if o == start {
          return None;
        }
      }
      FreeStep(txnAvailable, i + o);
      FreePrefix(txnAvailable, i + o + 1);
      assert Free(txnAvailable[..i + 1 + o])[i] == i + o;
      return Some(o);
    }

    /** Every stored place is one of the block. */
    ghost predicate Usable(ids: map<nat, nat>, have: seq<bool>)
      reads this
    {
      |have| == |txnAvailable| && forall id | id in ids :: ids[id] < |txnAvailable|
    }

    /** What is known while entries are offered: the picture they settle on and how many places are taken. */
    ghost predicate Scanning(laid: seq<Option<Tx>>, have: seq<bool>, ids: map<nat, nat>, shortIds: seq<nat>,
                             pool: seq<Entry<Tx, Id>>, extra: seq<Entry<Tx, Id>>)
      reads this
    {
      && |Free(laid)| == |shortIds| && Distinct(shortIds)
      && Numbered(ids, shortIds, Free(laid), |shortIds|) && |ids| == |shortIds|
      && Settled(laid, txnAvailable, have, shortIds, pool, extra, short, wtxid)
      && mempoolCount == Found(txnAvailable, Free(laid))
    }

    lemma Lookup(laid: seq<Option<Tx>>, have: seq<bool>, ids: map<nat, nat>, shortIds: seq<nat>,
                 pool: seq<Entry<Tx, Id>>, extra: seq<Entry<Tx, Id>>, id: nat) returns (i: nat)
      requires Scanning(laid, have, ids, shortIds, pool, extra)
      ensures id in ids <==> id in shortIds
      ensures id in ids ==> i < |shortIds| && shortIds[i] == id && ids[id] == Free(laid)[i]
                            && ids[id] < |txnAvailable| == |have|
    {
      hide Settle, Matches, Found, Free, Distinct;
      i := 0;
      assert shortIds[..|shortIds|] == shortIds;
      if id in ids {
        i :| 0 <= i < |shortIds| && shortIds[i] == id;
      }
    }

    /** A pool transaction: the first with a short id takes the place, a second empties it. */
    method OfferPool(e: Entry<Tx, Id>, ids: map<nat, nat>, have: seq<bool>, ghost laid: seq<Option<Tx>>,
                     ghost shortIds: seq<nat>, ghost pool: seq<Entry<Tx, Id>>) returns (had: seq<bool>)
      requires Usable(ids, have)
      modifies this`txnAvailable, this`mempoolCount
      ensures Usable(ids, had) && |txnAvailable| == old(|txnAvailable|)
      ensures old(Scanning(laid, have, ids, shortIds, pool, [])) ==> Scanning(laid, had, ids, shortIds, pool + [e], [])
    {
      hide Settle, Matches, Found, Free, Numbered;
      had := have;
      var id := short(e.id);
      if Scanning(laid, have, ids, shortIds, pool, []) {
        PoolEffect(e, ids, have, laid, shortIds, pool);
      }
      if id in ids {
        var p := ids[id];
        if !have[p] {
          txnAvailable := txnAvailable[p := Some(e.tx)];
          had := have[p := true];
          mempoolCount := mempoolCount + 1;
        } else {
          if txnAvailable[p].Some? {
            txnAvailable := txnAvailable[p := None];
            mempoolCount := mempoolCount - 1;
          }
        }
      }
    }

    lemma PoolEffect(e: Entry<Tx, Id>, ids: map<nat, nat>, have: seq<bool>, laid: seq<Option<Tx>>,
                     shortIds: seq<nat>, pool: seq<Entry<Tx, Id>>)
      requires Scanning(laid, have, ids, shortIds, pool, [])
      ensures short(e.id) !in ids ==>
                Settled(laid, txnAvailable, have, shortIds, pool + [e], [], short, wtxid)
      ensures short(e.id) in ids ==>
                var p := ids[short(e.id)];
                && p < |txnAvailable| == |have|
                && (!have[p] ==> txnAvailable[p].None?)
                && var x := if have[p] then None else Some(e.tx);
                   && Settled(laid, txnAvailable[p := x], have[p := true], shortIds, pool + [e], [], short, wtxid)
                   && (forall j | 0 <= j < |Free(laid)| :: Free(laid)[j] < |laid|)
                   && Found(txnAvailable[p := x], Free(laid)) == mempoolCount
                        - (if txnAvailable[p].Some? then 1 else 0) + (if x.Some? then 1 else 0)
    {
      hide Settle, Matches, Found, Free, Numbered;
      var id := short(e.id);
      var i := Lookup(laid, have, ids, shortIds, pool, [], id);
      PoolMatches(pool, e, short, shortIds);
      if id in ids {
        var pm := Matches(pool, short, id);
        SettlePool(pm, e.tx, wtxid);
        NoExtra<Tx, Id>(short, id);
        var x := if pm == [] then Some(e.tx) else None;
        Resettle(laid, txnAvailable, have, shortIds, pool, [], pool + [e], [], short, wtxid, i, x);
        Update(laid, i, x);
        Vacant(laid, txnAvailable, have, shortIds, pool, [], short, wtxid, i);
      } else {
        SameMatches(laid, txnAvailable, have, shortIds, pool, [], pool + [e], [], short, wtxid);
      }
    }

    /** An extra transaction: one with another witness hash than the one in place empties it. */
    method OfferExtra(e: Entry<Tx, Id>, ids: map<nat, nat>, have: seq<bool>, ghost laid: seq<Option<Tx>>,
                      ghost shortIds: seq<nat>, ghost pool: seq<Entry<Tx, Id>>, ghost extra: seq<Entry<Tx, Id>>)
      returns (had: seq<bool>)
      requires Usable(ids, have)
      modifies this`txnAvailable, this`mempoolCount
      ensures Usable(ids, had) && |txnAvailable| == old(|txnAvailable|)
      ensures old(Scanning(laid, have, ids, shortIds, pool, extra)) ==>
                Scanning(laid, had, ids, shortIds, pool, extra + [e])
    {
      hide Settle, Matches, Found, Free, Numbered;
      had := have;
      var id := short(e.id);
      if Scanning(laid, have, ids, shortIds, pool, extra) {
        ExtraEffect(e, ids, have, laid, shortIds, pool, extra);
      }
      if id in ids {
        var p := ids[id];
        if !have[p] {
          txnAvailable := txnAvailable[p := Some(e.tx)];
          had := have[p := true];
          mempoolCount := mempoolCount + 1;
        } else {
          if txnAvailable[p].Some? && wtxid(txnAvailable[p].value) != wtxid(e.tx) {
            txnAvailable := txnAvailable[p := None];
            mempoolCount := mempoolCount - 1;
          }
        }
      }
    }

    lemma ExtraEffect(e: Entry<Tx, Id>, ids: map<nat, nat>, have: seq<bool>, laid: seq<Option<Tx>>,
                      shortIds: seq<nat>, pool: seq<Entry<Tx, Id>>, extra: seq<Entry<Tx, Id>>)
      requires Scanning(laid, have, ids, shortIds, pool, extra)
      ensures short(e.id) !in ids ==>
                Settled(laid, txnAvailable, have, shortIds, pool, extra + [e], short, wtxid)
      ensures short(e.id) in ids ==>
                var p := ids[short(e.id)];
                && p < |txnAvailable| == |have|
                && (!have[p] ==> txnAvailable[p].None?)
                && var was := txnAvailable[p];
                   var x := if !have[p] then Some(e.tx)
                            else if was.Some? && wtxid(was.value) == wtxid(e.tx) then was else None;
                   && Settled(laid, txnAvailable[p := x], have[p := true], shortIds, pool, extra + [e], short, wtxid)
                   && (forall j | 0 <= j < |Free(laid)| :: Free(laid)[j] < |laid|)
                   && Found(txnAvailable[p := x], Free(laid)) == mempoolCount
                        - (if was.Some? then 1 else 0) + (if x.Some? then 1 else 0)
    {
      hide Settle, Matches, Found, Free, Numbered;
      var id := short(e.id);
      var i := Lookup(laid, have, ids, shortIds, pool, extra, id);
      PoolMatches(extra, e, short, shortIds);
      if id in ids {
        var pm, em := Matches(pool, short, id), Matches(extra, short, id);
        var was := txnAvailable[ids[id]];
        SettleExtra(pm, em, e.tx, wtxid);
        var x := if pm + em == [] then Some(e.tx)
                 else if was.Some? && wtxid(was.value) == wtxid(e.tx) then was else None;
        assert pm + (em + [e.tx]) != [];
        Resettle(laid, txnAvailable, have, shortIds, pool, extra, pool, extra + [e], short, wtxid, i, x);
        Update(laid, i, x);
        Vacant(laid, txnAvailable, have, shortIds, pool, extra, short, wtxid, i);
      } else {
        SameMatches(laid, txnAvailable, have, shortIds, pool, extra, pool, extra + [e], short, wtxid);
      }
    }

    /** Offers the pool's transactions until there are no more or every place is taken. */
    method ScanPool(pool: seq<Entry<Tx, Id>>, ids: map<nat, nat>, have: seq<bool>, ghost laid: seq<Option<Tx>>,
                    ghost shortIds: seq<nat>) returns (had: seq<bool>, ghost seen: nat)
      requires Usable(ids, have)
      modifies this`txnAvailable, this`mempoolCount
      ensures Usable(ids, had) && |txnAvailable| == old(|txnAvailable|) && seen <= |pool|
      ensures old(Scanning(laid, have, ids, shortIds, [], [])) ==>
                Scanning(laid, had, ids, shortIds, pool[..seen], []) && (seen < |pool| ==> OneEach(pool[..seen], short, shortIds))
    {
      hide Scanning, Usable, OneEach;
      ghost var began := Scanning(laid, have, ids, shortIds, [], []);
      had := have;
      var k := 0;
      assert pool[..0] == [];
      while k < |pool|
        invariant 0 <= k <= |pool| && Usable(ids, had) && |txnAvailable| == old(|txnAvailable|)
        invariant began ==> Scanning(laid, had, ids, shortIds, pool[..k], [])
      {
        had := OfferPool(pool[k], ids, had, laid, shortIds, pool[..k]);
        assert pool[..k] + [pool[k]] == pool[..k + 1];
        k := k + 1;
        if mempoolCount == |ids| {
          if began {
            AllOnce(laid, had, ids, shortIds, pool[..k]);
          }
          return had, k;
        }
      }
      seen := k;
    }

    method ScanExtra(extra: seq<Entry<Tx, Id>>, ids: map<nat, nat>, have: seq<bool>, ghost laid: seq<Option<Tx>>,
                     ghost shortIds: seq<nat>, ghost pool: seq<Entry<Tx, Id>>)
      returns (had: seq<bool>, ghost seen: nat)
      requires Usable(ids, have)
      modifies this`txnAvailable, this`mempoolCount
      ensures Usable(ids, had) && |txnAvailable| == old(|txnAvailable|) && seen <= |extra|
      ensures old(Scanning(laid, have, ids, shortIds, pool, [])) ==>
                Scanning(laid, had, ids, shortIds, pool, extra[..seen]) && (seen < |extra| ==> Full(laid))
    {
      hide Scanning, Full, Usable;
      ghost var began := Scanning(laid, have, ids, shortIds, pool, []);
      had := have;
      var k := 0;
      assert extra[..0] == [];
      while k < |extra|
        invariant 0 <= k <= |extra| && Usable(ids, had) && |txnAvailable| == old(|txnAvailable|)
        invariant began ==> Scanning(laid, had, ids, shortIds, pool, extra[..k])
      {
        had := OfferExtra(extra[k], ids, had, laid, shortIds, pool, extra[..k]);
        assert extra[..k] + [extra[k]] == extra[..k + 1];
        k := k + 1;
        if mempoolCount == |ids| {
          if began {
            AllTaken(laid, had, ids, shortIds, pool, extra[..k]);
          }
          return had, k;
        }
      }
      seen := k;
    }

    /** Every place of a short id is taken. */
    ghost predicate Full(laid: seq<Option<Tx>>)
      reads this
    {
      forall i | 0 <= i < |Free(laid)| :: Free(laid)[i] < |txnAvailable| && txnAvailable[Free(laid)[i]].Some?
    }

    lemma AllTaken(laid: seq<Option<Tx>>, have: seq<bool>, ids: map<nat, nat>, shortIds: seq<nat>,
                   pool: seq<Entry<Tx, Id>>, extra: seq<Entry<Tx, Id>>)
      requires Scanning(laid, have, ids, shortIds, pool, extra) && mempoolCount == |ids|
      ensures Full(laid)
    {
      hide Found, Free, Settle, Matches, Numbered, Distinct;
      FoundAll(txnAvailable, Free(laid));
    }

    lemma AllOnce(laid: seq<Option<Tx>>, have: seq<bool>, ids: map<nat, nat>, shortIds: seq<nat>, pool: seq<Entry<Tx, Id>>)
      requires Scanning(laid, have, ids, shortIds, pool, []) && mempoolCount == |ids|
      ensures OneEach(pool, short, shortIds)
    {
      hide Found, Free, Settle, Matches, Numbered, Distinct;
      AllTaken(laid, have, ids, shortIds, pool, []);
      forall i | 0 <= i < |shortIds| ensures |Matches(pool, short, shortIds[i])| == 1 {
        NoExtra<Tx, Id>(short, shortIds[i]);
        SettledOnce(Matches(pool, short, shortIds[i]), wtxid);
      }
    }

    lemma StartScan(msg: Message<Tx>, ids: map<nat, nat>, have: seq<bool>)
      requires WellFormed(msg, isNull) && txnAvailable == Laid(msg, isNull, |msg.prefilled|) && mempoolCount == 0
      requires |have| == |txnAvailable| && forall p | 0 <= p < |have| :: !have[p]
      requires |Free(txnAvailable)| == |msg.shortIds| == |ids|
      requires Numbered(ids, msg.shortIds, Free(txnAvailable), |msg.shortIds|)
      ensures Scanning(txnAvailable, have, ids, msg.shortIds, [], [])
    {
      hide Free, Found, Laid;
      var laid := txnAvailable;
      FreeIs(laid);
      NoneFound(laid, Free(laid));
      assert msg.shortIds[..|msg.shortIds|] == msg.shortIds;
    }

    lemma StoredUsable(ids: map<nat, nat>, shortIds: seq<nat>, have: seq<bool>)
      requires |Free(txnAvailable)| == |shortIds| == |ids| && |have| == |txnAvailable|
      requires Numbered(ids, shortIds, Stored(Free(txnAvailable)), |shortIds|)
      ensures Usable(ids, have)
    {
      hide Free, Stored;
      FreeIs(txnAvailable);
      assert shortIds[..|shortIds|] == shortIds;
    }

    /** Whether the message can be used, and then what the receiver has at every place of the block. A message in which
        65536 prefilled transactions leave some short id passes the tests, and then its walk does not end. */
    method InitData(msg: Message<Tx>, pool: seq<Entry<Tx, Id>>, extra: seq<Entry<Tx, Id>>, crowded: nat -> bool)
      returns (status: ReadStatus, ghost have: seq<bool>, ghost k: nat, ghost l: nat)
      requires headerNull && txnAvailable == [] && mempoolCount == 0
      modifies this
      ensures status == Invalid <==> !WellFormed(msg, isNull)
      ensures status == Endless <==> WellFormed(msg, isNull) && msg.shortIds != [] && |msg.prefilled| == 65536
      ensures status == Failed <==>
              WellFormed(msg, isNull) && status != Endless
              && (!Distinct(msg.shortIds) || exists i: nat :: i < |msg.shortIds| && crowded(i))
      ensures status in {Ok, Invalid, Failed, Endless}
      ensures status == Ok ==> !headerNull && |txnAvailable| == msg.Count() && k <= |pool| && l <= |extra|
      ensures status == Ok && msg.Count() <= 65536 ==>
                var laid := Laid(msg, isNull, |msg.prefilled|);
                && |Free(laid)| == |msg.shortIds|
                && Settled(laid, txnAvailable, have, msg.shortIds, pool[..k], extra[..l], short, wtxid)
                && (k < |pool| ==> OneEach(pool[..k], short, msg.shortIds)) && (l < |extra| ==> Full(laid))
    {
      hide Free, Laid, Numbered, PlacesOk, Settled, Found, Distinct, Full, Stored, Usable, Blocked, OneEach;
      have, k, l := [], 0, 0;
      if msg.headerNull || (|msg.shortIds| == 0 && |msg.prefilled| == 0) {
        return Invalid, have, k, l;
      }
      if |msg.shortIds| + |msg.prefilled| > MAX_TXS {
        return Invalid, have, k, l;
      }
      headerNull := false;
      txnAvailable := Blank(msg.Count());
      var ok := Prefill(msg);
      if !ok {
        return Invalid, have, k, l;
      }
      FreeCount(msg, isNull, |msg.prefilled|);
      if msg.shortIds != [] {
        BlockedExact(msg, isNull);
      }
      var mapping := MapIds(msg.shortIds, crowded);
      if mapping.NotEnding? {
        return Endless, have, k, l;
      }
      if mapping.Crowded? {
        return Failed, have, k, l;
      }
      var ids := mapping.ids;
      CountDistinct(ids, msg.shortIds, Stored(Free(txnAvailable)));
      if |ids| != |msg.shortIds| {
        return Failed, have, k, l;
      }
      ghost var laid := txnAvailable;
      var had := seq(|txnAvailable|, p => false);
      StoredExact(msg, isNull);
      StoredUsable(ids, msg.shortIds, had);
      if msg.Count() <= 65536 {
        StartScan(msg, ids, had);
      }
      had, k := ScanPool(pool, ids, had, laid, msg.shortIds);
      had, l := ScanExtra(extra, ids, had, laid, msg.shortIds, pool[..k]);
      have := had;
      return Ok, have, k, l;
    }

    /** Fills the free places from the missing transactions. Whether the block then checks is the caller's check. */
    method FillBlock(missing: seq<Tx>, check: seq<Tx> -> CheckResult) returns (status: ReadStatus, vtx: seq<Tx>)
      requires !headerNull
      modifies this
      ensures var filled := Filled(old(txnAvailable), missing);
              if filled.None? then status == Invalid
              else && vtx == filled.value && headerNull && txnAvailable == []
                   && status == match check(vtx)
                                case Passed => Ok
                                case CorruptionPossible => Failed
                                case Rejected => CheckBlockFailed
    {
      hide Filled;
      ghost var avail := txnAvailable;
      vtx := [];
      var used: nat := 0;
      var i := 0;
      NoneFilled<Tx>(avail, missing);
      while i < |txnAvailable|
        invariant 0 <= i <= |txnAvailable| == |avail| && used <= |missing|
        invariant forall j | i <= j < |avail| :: txnAvailable[j] == avail[j]
        invariant Filled(avail[..i], missing[..used]) == Some(vtx)
      {
        FilledStep(avail, i, missing, used, vtx);
        if txnAvailable[i].None? {
          if |missing| <= used {
            TooFew(avail, i, missing, used);
            return Invalid, vtx;
          }
          vtx := vtx + [missing[used]];
          used := used + 1;
        } else {
          vtx := vtx + [txnAvailable[i].value];
          txnAvailable := txnAvailable[i := None];
        }
        i := i + 1;
      }
      headerNull := true;
      txnAvailable := [];
      assert avail[..i] == avail;
      FilledExact(avail, missing, used);
      if |missing| != used {
        return Invalid, vtx;
      }
      assert missing[..used] == missing;
      match check(vtx) {
        case Passed => return Ok, vtx;
        case CorruptionPossible => return Failed, vtx;
        case Rejected => return CheckBlockFailed, vtx;
      }
    }

    lemma Update(laid: seq<Option<Tx>>, i: nat, x: Option<Tx>)
      requires |txnAvailable| == |laid| && i < |Free(laid)|
      ensures Free(laid)[i] < |laid| && forall j | 0 <= j < |Free(laid)| :: Free(laid)[j] < |laid|
      ensures Found(txnAvailable[Free(laid)[i] := x], Free(laid))
           == Found(txnAvailable, Free(laid)) - (if txnAvailable[Free(laid)[i]].Some? then 1 else 0)
              + (if x.Some? then 1 else 0)
    {
      hide Found, Free;
      FreeIs(laid);
      FoundUpdate(txnAvailable, Free(laid), i, x);
    }
  }

  lemma PoolMatches<Tx, Id>(pool: seq<Entry<Tx, Id>>, e: Entry<Tx, Id>, short: Id -> nat, ids: seq<nat>)
    ensures forall j | 0 <= j < |ids| :: Matches(pool + [e], short, ids[j])
              == if short(e.id) == ids[j] then Matches(pool, short, ids[j]) + [e.tx] else Matches(pool, short, ids[j])
  {
    forall j | 0 <= j < |ids|
      ensures Matches(pool + [e], short, ids[j])
           == if short(e.id) == ids[j] then Matches(pool, short, ids[j]) + [e.tx] else Matches(pool, short, ids[j])
    {
      MatchAppend(pool, e, short, ids[j]);
    }
  }

  lemma NoExtra<Tx, Id>(short: Id -> nat, id: nat)
    ensures Matches<Tx, Id>([], short, id) == []
  {
  }

  /** A place nothing has matched yet is empty. */
  lemma Vacant<Tx, Id>(laid: seq<Option<Tx>>, avail: seq<Option<Tx>>, have: seq<bool>, ids: seq<nat>,
                       pool: seq<Entry<Tx, Id>>, extra: seq<Entry<Tx, Id>>, short: Id -> nat, wtxid: Tx -> Id, i: nat)
    requires |Free(laid)| == |ids| && i < |ids| && Settled(laid, avail, have, ids, pool, extra, short, wtxid)
    ensures !have[Free(laid)[i]] ==> avail[Free(laid)[i]].None?
  {
    hide Matches, Free;
  }

  lemma InRange<T>(s: seq<Option<T>>, i: nat, k: nat)
    requires k <= |s| && i < |Free(s)| && Free(s[..k]) == Free(s)[..i]
    ensures k < |s|
  {
    assert s[..|s|] == s;
  }

  lemma FirstPlace<Tx>(prefilled: seq<Prefilled<Tx>>)
    ensures Place(prefilled, 0) == -1
  {
  }

  lemma NextPlace<Tx>(prefilled: seq<Prefilled<Tx>>, i: nat)
    requires i < |prefilled|
    ensures Place(prefilled, i + 1) == Place(prefilled, i) + prefilled[i].index + 1
  {
  }

  lemma NoneNumbered(shortIds: seq<nat>, free: seq<nat>)
    requires |shortIds| <= |free|
    ensures Numbered(map[], shortIds, free, 0)
  {
  }

  lemma NoneFree<T>(s: seq<Option<T>>)
    ensures Free(s[..0]) == Free(s)[..0]
  {
  }

  lemma {:induction false} NoneFound<T>(s: seq<Option<T>>, places: seq<nat>)
    requires forall i | 0 <= i < |places| :: places[i] < |s| && s[places[i]].None?
    ensures Found(s, places) == 0
  {
    if places != [] {
      NoneFound(s, places[..|places| - 1]);
    }
  }

  lemma CountDistinct(ids: map<nat, nat>, shortIds: seq<nat>, free: seq<nat>)
    requires |shortIds| <= |free| && Numbered(ids, shortIds, free, |shortIds|)
    ensures |ids| == |shortIds| <==> Distinct(shortIds)
  {
    assert shortIds[..|shortIds|] == shortIds;
  }

  lemma NoneFilled<Tx>(avail: seq<Option<Tx>>, missing: seq<Tx>)
    ensures Filled(avail[..0], missing[..0]) == Some([])
  {
  }

  lemma FilledStep<Tx>(avail: seq<Option<Tx>>, i: nat, missing: seq<Tx>, used: nat, vtx: seq<Tx>)
    requires i < |avail| && used <= |missing| && Filled(avail[..i], missing[..used]) == Some(vtx)
    ensures avail[i].Some? ==> Filled(avail[..i + 1], missing[..used]) == Some(vtx + [avail[i].value])
    ensures avail[i].None? && used < |missing| ==>
              Filled(avail[..i + 1], missing[..used + 1]) == Some(vtx + [missing[used]])
  {
    assert avail[..i + 1][..i] == avail[..i];
    if used < |missing| {
      assert missing[..used + 1][..used] == missing[..used];
    }
  }

  /** Filling succeeds with exactly as many transactions as there are free places. */
  lemma {:induction false} FilledCount<Tx>(avail: seq<Option<Tx>>, missing: seq<Tx>)
    ensures Filled(avail, missing).Some? <==> |missing| == |Free(avail)|
  {
    if avail != [] {
      var n := |avail| - 1;
      if avail[n].Some? {
        FilledCount(avail[..n], missing);
      } else if missing != [] {
        FilledCount(avail[..n], missing[..|missing| - 1]);
      }
    }
  }

  lemma TooFew<Tx>(avail: seq<Option<Tx>>, i: nat, missing: seq<Tx>, used: nat)
    requires i < |avail| && used == |missing| && avail[i].None? && Filled(avail[..i], missing[..used]).Some?
    ensures Filled(avail, missing).None?
  {
    hide Filled, Free;
    assert missing[..used] == missing;
    FilledCount(avail[..i], missing);
    FilledCount(avail, missing);
    FreeStep(avail, i);
    FreePrefix(avail, i + 1);
  }

  lemma FilledExact<Tx>(avail: seq<Option<Tx>>, missing: seq<Tx>, used: nat)
    requires used <= |missing| && Filled(avail, missing[..used]).Some?
    ensures Filled(avail, missing).Some? <==> used == |missing|
  {
    hide Filled, Free;
    FilledCount(avail, missing);
    FilledCount(avail, missing[..used]);
  }

  /** Writes an index request. */
  method WriteIndexes(indexes: seq<nat>) returns (deltas: seq<nat>)
    ensures deltas == Deltas(indexes)
  {
    hide Delta;
    deltas := [];
    var i := 0;
    while i < |indexes|
      invariant 0 <= i <= |indexes| && deltas == Deltas(indexes[..i])
    {
      assert indexes[..i + 1][..i] == indexes[..i];
      deltas := deltas + [Delta(i == 0, if i == 0 then 0 else indexes[i - 1], indexes[i])];
      i := i + 1;
    }
    assert indexes[..i] == indexes;
  }

  /** Reads an index request: all deltas first, then the running sum in place. */
  method ReadIndexes(deltas: seq<nat>) returns (indexes: Option<seq<nat>>)
    ensures indexes == Indices(deltas)
  {
    hide Indices;
    var i := 0;
    while i < |deltas|
      invariant 0 <= i <= |deltas| && Uint16s(deltas[..i])
    {
      if deltas[i] > MAX_INDEX {
        TooLarge(deltas, i);
        return None;
      }
      i := i + 1;
    }
    var idx := deltas;
    var offset := 0;
    var j := 0;
    NoneRead(deltas);
    while j < |idx|
      invariant 0 <= j <= |idx| == |deltas| && Uint16s(deltas)
      invariant Indices(deltas[..j]) == Some(idx[..j]) && idx[j..] == deltas[j..]
      invariant offset == Offset(idx[..j], j)
    {
      ReadStep(deltas, j, idx[..j]);
      assert idx[j] == deltas[j];
      if idx[j] + offset > MAX_INDEX {
        return None;
      }
      ghost var done := idx[..j];
      idx := idx[j := idx[j] + offset];
      assert idx[..j + 1] == done + [idx[j]];
      offset := (idx[j] + 1) % 65536;
      j := j + 1;
    }
    assert idx[..j] == idx && deltas[..j] == deltas;
    return Some(idx);
  }

  lemma NoneRead(d: seq<nat>)
    ensures Indices(d[..0]) == Some([])
  {
  }

  lemma IndicesStep(d: seq<nat>, j: nat, idx: seq<nat>)
    requires j < |d| && Indices(d[..j]) == Some(idx) && |idx| == j
    ensures var x := NextIndex(j == 0, if j == 0 then 0 else idx[j - 1], d[j]);
            Indices(d[..j + 1]) == if x.None? then None else Some(idx + [x.value])
  {
    hide NextIndex, Uint16s;
    assert d[..j + 1][..j] == d[..j];
  }

  lemma NextIndexIs(idx: seq<nat>, j: nat, d: nat)
    requires d <= MAX_INDEX && j == |idx|
    ensures NextIndex(j == 0, if j == 0 then 0 else idx[j - 1], d)
         == if d + Offset(idx, j) > MAX_INDEX then None else Some(d + Offset(idx, j))
  {
  }

  /** What is added to the difference of place j. */
  function Offset(idx: seq<nat>, j: nat): (r: nat)
    requires j <= |idx|
  {
    if j == 0 then 0 else (idx[j - 1] + 1) % 65536
  }

  lemma ReadStep(d: seq<nat>, j: nat, idx: seq<nat>)
    requires j < |d| && d[j] <= MAX_INDEX && Indices(d[..j]) == Some(idx) && |idx| == j
    ensures if d[j] + Offset(idx, j) > MAX_INDEX then Indices(d).None?
            else Indices(d[..j + 1]) == Some(idx + [d[j] + Offset(idx, j)])
  {
    hide Indices, Uint16s, NextIndex, Offset;
    IndicesStep(d, j, idx);
    NextIndexIs(idx, j, d[j]);
    if d[j] + Offset(idx, j) > MAX_INDEX {
      StaysUnread(d, j + 1);
    }
  }

  lemma {:induction false} StaysUnread(d: seq<nat>, j: nat)
    requires j <= |d| && Indices(d[..j]).None?
    ensures Indices(d).None?
  {
    if j == |d| {
      assert d[..j] == d;
    } else {
      var n := |d| - 1;
      assert d[..n][..j] == d[..j];
      StaysUnread(d[..n], j);
    }
  }

  lemma TooLarge(d: seq<nat>, i: nat)
    requires i < |d| && d[i] > MAX_INDEX
    ensures Indices(d).None?
  {
    assert d[..i + 1][i] == d[i];
    StaysUnread(d, i + 1);
  }
}
