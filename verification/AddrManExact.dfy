/** What each operation of the address manager does to its entries, field by field. */
module AddrManExact {
  import opened Common
  import opened AddrManState
  import opened AddrManOps

  // ----- which entries are worth keeping

  /** An entry tried in the last minute is never terrible; any other is exactly when its time lies ten minutes ahead, is
      unknown or thirty days old, or when three attempts were all in vain or ten in a week without success. */
  lemma TerribleExact(info: Info, now: int)
    ensures info.nLastTry != 0 && info.nLastTry + 60 >= now ==> !IsTerrible(info, now)
    ensures !(info.nLastTry != 0 && info.nLastTry + 60 >= now) ==>
              (IsTerrible(info, now) <==>
                 || info.addr.nTime == 0
                 || info.addr.nTime - now > 600
                 || now - info.addr.nTime > 2592000
                 || (info.nLastSuccess == 0 && info.nAttempts >= 3)
                 || (now - info.nLastSuccess > 604800 && info.nAttempts >= 10))
  {}

  /** At most 2500 addresses and at most 23 in a hundred are told, as many as that allows. */
  lemma LimitExact(size: nat)
    ensures var limit := GetAddrLimit(size);
            && limit <= 2500 && 100 * limit <= 23 * size
            && (limit < 2500 ==> 23 * size < 100 * (limit + 1))
  {}

  /** A draw takes the entry that many places on, counted around the rest; so every one of the rest can be drawn. */
  lemma DrawExact(st: State, n: nat, rnd: nat)
    requires RandomIndex(st) && n < |st.vRandom|
    ensures var q := n + rnd % (|st.vRandom| - n);
            && n <= q < |st.vRandom| && (rnd < |st.vRandom| - n ==> q == n + rnd)
            && Draw(st, n, rnd).vRandom == st.vRandom[n := st.vRandom[q]][q := st.vRandom[n]]
  {
    var m := |st.vRandom| - n;
    if rnd < m {
      SmallRem(rnd, m);
    }
  }

  lemma SmallRem(x: nat, m: nat)
    requires x < m
    ensures x % m == x
  {}

  /** An address is known with its port exactly when some entry has it. */
  lemma KnownExact(st: State, svc: Service)
    requires AddrIndex(st)
    ensures Known(st, svc) <==> exists id :: id in st.mapInfo && st.mapInfo[id].addr.service == svc
  {
    if Known(st, svc) {
      assert st.mapAddr[svc.addr] in st.mapInfo && st.mapInfo[st.mapAddr[svc.addr]].addr.service == svc;
    }
    if exists id :: id in st.mapInfo && st.mapInfo[id].addr.service == svc {
      var id :| id in st.mapInfo && st.mapInfo[id].addr.service == svc;
      assert svc.addr in st.mapAddr && st.mapAddr[svc.addr] == id;
    }
  }

  // ----- Add_

  /** The time an announcement stands for: a source is not penalised for announcing itself. */
  function AnnouncedTime(addr: Address, source: NetAddr, nTimePenalty: int): nat {
    var t := if addr.service.addr == source then addr.nTime else addr.nTime - nTimePenalty;
    if t < 0 then 0 else t % 0x1_0000_0000
  }

  lemma AnnouncedTimeIs(addr: Address, source: NetAddr, nTimePenalty: int)
    ensures addr.service.addr == source ==> AnnouncedTime(addr, source, nTimePenalty) == addr.nTime % 0x1_0000_0000
    ensures addr.service.addr != source && nTimePenalty >= addr.nTime ==> AnnouncedTime(addr, source, nTimePenalty) == 0
    ensures addr.service.addr != source && 0 <= addr.nTime - nTimePenalty < 0x1_0000_0000 ==>
              AnnouncedTime(addr, source, nTimePenalty) == addr.nTime - nTimePenalty
    ensures ToUint32(AddrManState.Max(0, addr.nTime - Penalty(addr, source, nTimePenalty)))
         == AnnouncedTime(addr, source, nTimePenalty)
  {}

  /** An entry as it starts out. */
  predicate StartsAs(info: Info, addr: Address, source: NetAddr, nTimePenalty: int) {
    && info.addr.service == addr.service && info.addr.nServices == addr.nServices
    && info.addr.nTime == AnnouncedTime(addr, source, nTimePenalty) && info.source == source
    && info.nLastTry == info.nLastCountAttempt == info.nLastSuccess == 0 && info.nAttempts == 0
    && info.nRefCount == 1 && !info.fInTried
  }

  /** An announced address that is not known: it gets the next id and the slot of its address and source, and starts out
      with the penalised time, if the slot is free or its occupant is terrible or has another slot; otherwise there is no
      trace of it. */
  lemma NewEntry(env: Env, st: State, addr: Address, source: NetAddr, nTimePenalty: int, now: int, rnd: nat)
    requires Coherent(env, st, {}, 0) && env.isRoutable(addr.service) && addr.service.addr !in st.mapAddr
    ensures var (st', fNew) := Add(env, st, addr, source, nTimePenalty, now, rnd);
            var id, s := st.nIdCount, NewSlot(env, addr.service, source);
            && fNew
            && if s in st.newTable ==>
                    && st.newTable[s] in st.mapInfo
                    && (IsTerrible(st.mapInfo[st.newTable[s]], now) || st.mapInfo[st.newTable[s]].nRefCount > 1)
               then && st'.newTable == st.newTable[s := id] && id in st'.mapInfo
                    && StartsAs(st'.mapInfo[id], addr, source, nTimePenalty)
                    && addr.service.addr in st'.mapAddr && st'.mapAddr[addr.service.addr] == id
               else st'.newTable == st.newTable && id !in st'.mapInfo && addr.service.addr !in st'.mapAddr
  {
    hide Coherent, MayTake, IsTerrible, Add, NewSlot, Penalty, Placed, StartsAs;
    var st' := Add(env, st, addr, source, nTimePenalty, now, rnd).0;
    var id, s := st.nIdCount, NewSlot(env, addr.service, source);
    AddEffect(env, st, addr, source, nTimePenalty, now, rnd);
    AddCoherent(env, st, addr, source, nTimePenalty, now, rnd);
    var st1 := Registered(st, addr, source, Penalty(addr, source, nTimePenalty));
    if Yields(st, s, now) {
      EntryStarts(env, st, addr, source, nTimePenalty, s, st');
    } else {
      NotTaken(env, st, s, id, st1, st');
      EntryDropped(env, st, addr, source, nTimePenalty, s, st');
    }
  }

  lemma NotTaken(env: Env, st: State, s: Slot, id: int, st1: State, st': State)
    requires Placed(st1, id, s, st') && st1.newTable == st.newTable && st'.newTable != st.newTable[s := id]
    ensures st'.newTable == st.newTable
  {}

  lemma EntryStarts(env: Env, st: State, addr: Address, source: NetAddr, nTimePenalty: int, s: Slot, st': State)
    requires Coherent(env, st, {}, 0) && Coherent(env, st', {}, 0)
    requires Placed(Registered(st, addr, source, Penalty(addr, source, nTimePenalty)), st.nIdCount, s, st')
    requires st'.newTable == st.newTable[s := st.nIdCount]
    ensures st.nIdCount in st'.mapInfo && StartsAs(st'.mapInfo[st.nIdCount], addr, source, nTimePenalty)
    ensures addr.service.addr in st'.mapAddr && st'.mapAddr[addr.service.addr] == st.nIdCount
  {
    hide RandomIndex, TriedIndex, AddrIndex, Counted, Penalty, AnnouncedTime, ToUint32;
    AnnouncedTimeIs(addr, source, nTimePenalty);
    var id := st.nIdCount;
    assert s in st'.newTable && st'.newTable[s] == id;
    OneReference(env, st, s, st'.newTable);
    EntryIndexed(env, st', id);
  }

  lemma OneReference(env: Env, st: State, s: Slot, table: map<Slot, int>)
    requires IdsBelow(st) && NewIndex(env, st, {}) && table == st.newTable[s := st.nIdCount]
    ensures |Refs(table, st.nIdCount)| == 1
  {
    assert Refs(table, st.nIdCount) == {s};
  }

  lemma EntryIndexed(env: Env, st: State, id: int)
    requires Coherent(env, st, {}, 0) && id in st.mapInfo
    ensures var a := st.mapInfo[id].addr.service.addr; a in st.mapAddr && st.mapAddr[a] == id
  {}

  lemma EntryDropped(env: Env, st: State, addr: Address, source: NetAddr, nTimePenalty: int, s: Slot, st': State)
    requires Coherent(env, st, {}, 0) && Coherent(env, st', {}, 0) && addr.service.addr !in st.mapAddr
    requires Placed(Registered(st, addr, source, Penalty(addr, source, nTimePenalty)), st.nIdCount, s, st')
    requires st'.newTable == st.newTable
    ensures st.nIdCount !in st'.mapInfo && addr.service.addr !in st'.mapAddr
  {
    hide RandomIndex, TriedIndex, Counted, Penalty, ToUint32;
    assert Refs(st'.newTable, st.nIdCount) == {};
    forall k | k in st'.mapInfo ensures st'.mapInfo[k].addr.service.addr != addr.service.addr {
      assert k in st.mapInfo;
    }
  }

  /** The time of a known entry after an announcement: it moves only to a time given, and only if none was known or the
      announced one, less the penalty, is later by more than an hour for a peer seen within a day, by a day otherwise. */
  function RefreshedTime(old_: nat, addr: Address, source: NetAddr, nTimePenalty: int, now: int): nat {
    var penalty := if addr.service.addr == source then 0 else nTimePenalty;
    var interval := if now - addr.nTime < 86400 then 3600 else 86400;
    if addr.nTime == 0 then old_
    else if old_ == 0 || addr.nTime - penalty - old_ > interval then AnnouncedTime(addr, source, nTimePenalty)
    else old_
  }

  /** Whether an announcement of a known entry is worth another reference: it is later than the time now known, the entry
      is untried with fewer than eight references, and the draw is a multiple of 2 to their number. */
  predicate WorthReference(info: Info, time: nat, addr: Address, rnd: nat) {
    && addr.nTime != 0 && (time == 0 || addr.nTime > time)
    && !info.fInTried && 0 <= info.nRefCount < 8 && rnd % Pow2(info.nRefCount) == 0
  }

  /** An announced address that is known: its services are joined, its time moves as above, and nothing else of it changes
      but its references. It gets the slot of its address and this source exactly when the announcement is worth it and
      the slot is free or its occupant terrible. */
  lemma KnownEntry(env: Env, st: State, addr: Address, source: NetAddr, nTimePenalty: int, now: int, rnd: nat)
    requires Coherent(env, st, {}, 0) && env.isRoutable(addr.service) && addr.service.addr in st.mapAddr
    ensures var (st', fNew) := Add(env, st, addr, source, nTimePenalty, now, rnd);
            var id := st.mapAddr[addr.service.addr];
            && !fNew && id in st.mapInfo && id in st'.mapInfo
            && var before, after := st.mapInfo[id], st'.mapInfo[id];
               var time := RefreshedTime(before.addr.nTime, addr, source, nTimePenalty, now);
               var s := NewSlot(env, before.addr.service, source);
               && after.addr == Address(before.addr.service, before.addr.nServices + addr.nServices, time)
               && after == before.(addr := after.addr, nRefCount := after.nRefCount, nRandomPos := after.nRandomPos)
               && (s in st.newTable ==> st.newTable[s] in st.mapInfo)
               && (st'.newTable == st.newTable[s := id] <==>
                     || (s in st.newTable && st.newTable[s] == id)
                     || (WorthReference(before, time, addr, rnd)
                         && (s in st.newTable ==> IsTerrible(st.mapInfo[st.newTable[s]], now))))
  {
    hide RandomIndex, TriedIndex, Counted, Add, NewSlot, Placed, IsTerrible, MayAddRef, MayTake, Refresh;
    var id := st.mapAddr[addr.service.addr];
    var before, penalty := st.mapInfo[id], Penalty(addr, source, nTimePenalty);
    AddEffect(env, st, addr, source, nTimePenalty, now, rnd);
    AddCoherent(env, st, addr, source, nTimePenalty, now, rnd);
    var st1, s := Refreshed(st, addr, penalty, now), NewSlot(env, before.addr.service, source);
    RefreshIs(before, addr, source, nTimePenalty, now);
    PlacedKeeps(st1, id, s, Add(env, st, addr, source, nTimePenalty, now, rnd).0);
    KnownHasReference(env, st, id);
    StillThere(env, st, Add(env, st, addr, source, nTimePenalty, now, rnd).0, id);
    WorthIs(st1.mapInfo[id], addr, rnd);
    TakeIs(env, st, st1, id, s, now);
  }

  lemma RefreshIs(info: Info, addr: Address, source: NetAddr, nTimePenalty: int, now: int)
    ensures var r := Refresh(info, addr, Penalty(addr, source, nTimePenalty), now);
            r == info.(addr := Address(info.addr.service, info.addr.nServices + addr.nServices,
                                       RefreshedTime(info.addr.nTime, addr, source, nTimePenalty, now)))
  {
    AnnouncedTimeIs(addr, source, nTimePenalty);
  }

  lemma PlacedKeeps(st: State, id: int, s: Slot, st': State)
    requires Placed(st, id, s, st') && id in st.mapInfo
    ensures id in st'.mapInfo ==> SameButRefs(st'.mapInfo[id], st.mapInfo[id])
    ensures id !in st'.mapInfo ==> st'.newTable == st.newTable && st'.triedTable == st.triedTable
  {}

  lemma KnownHasReference(env: Env, st: State, id: int)
    requires Coherent(env, st, {}, 0) && id in st.mapInfo
    ensures st.mapInfo[id].fInTried ==> exists s :: s in st.triedTable && st.triedTable[s] == id
    ensures !st.mapInfo[id].fInTried ==> st.mapInfo[id].nRefCount >= 1 && exists s :: s in st.newTable && st.newTable[s] == id
  {
    if st.mapInfo[id].fInTried {
      var s := TriedSlot(env, st.mapInfo[id].addr.service);
      assert s in st.triedTable && st.triedTable[s] == id;
    } else {
      assert Refs(st.newTable, id) != {};
      var s :| s in Refs(st.newTable, id);
    }
  }

  lemma StillThere(env: Env, st: State, st': State, id: int)
    requires Coherent(env, st, {}, 0) && Coherent(env, st', {}, 0) && id in st.mapInfo
    requires id !in st'.mapInfo ==> st'.newTable == st.newTable && st'.triedTable == st.triedTable
    ensures id in st'.mapInfo
  {
    hide RandomIndex, Counted, AddrIndex, IdsBelow;
    KnownHasReference(env, st, id);
  }

  lemma WorthIs(info: Info, addr: Address, rnd: nat)
    requires info.nRefCount <= 8
    ensures MayAddRef(info, addr, rnd) <==> WorthReference(info, info.addr.nTime, addr, rnd)
  {}

  lemma TakeIs(env: Env, st: State, st1: State, id: int, s: Slot, now: int)
    requires Coherent(env, st, {}, 0) && id in st.mapInfo && id in st1.mapInfo
    requires st1 == st.(mapInfo := st.mapInfo[id := st1.mapInfo[id]])
    requires st1.mapInfo[id].nRefCount == st.mapInfo[id].nRefCount
    requires !st.mapInfo[id].fInTried ==> st.mapInfo[id].nRefCount >= 1
    ensures s in st.newTable ==> st.newTable[s] in st.mapInfo
    ensures !st.mapInfo[id].fInTried && !(s in st.newTable && st.newTable[s] == id) ==>
              (MayTake(st1, s, id, now) <==> (s in st.newTable ==> IsTerrible(st.mapInfo[st.newTable[s]], now)))
  {
    hide IsTerrible;
  }

  // ----- Good_

  /** The stamps of a success; nothing else of the entry changes but its table, references and place. */
  predicate Succeeded(before: Info, after: Info, nTime: int) {
    && after.addr == before.addr && after.source == before.source
    && after.nLastCountAttempt == before.nLastCountAttempt
    && after.nLastSuccess == after.nLastTry == nTime && after.nAttempts == 0 && after.fInTried
  }

  /** Another entry, of which only references and place may differ. */
  predicate Untouched(before: Info, after: Info) {
    && after.addr == before.addr && after.source == before.source && after.nLastTry == before.nLastTry
    && after.nLastCountAttempt == before.nLastCountAttempt && after.nLastSuccess == before.nLastSuccess
    && after.nAttempts == before.nAttempts && after.fInTried == before.fInTried
  }

  lemma GoodUnknown(env: Env, st: State, svc: Service, nTime: int)
    requires Coherent(env, st, {}, 0) && !Known(st, svc)
    ensures Good(env, st, svc, nTime) == st.(nLastGood := nTime)
  {}

  /** A success with a tried entry only stamps it. */
  lemma GoodTried(env: Env, st: State, svc: Service, nTime: int)
    requires Coherent(env, st, {}, 0) && Known(st, svc) && st.mapInfo[st.mapAddr[svc.addr]].fInTried
    ensures var st', id := Good(env, st, svc, nTime), st.mapAddr[svc.addr];
            && id in st'.mapInfo && Succeeded(st.mapInfo[id], st'.mapInfo[id], nTime)
            && st' == st.(nLastGood := nTime, mapInfo := st.mapInfo[id := st'.mapInfo[id]])
            && st'.mapInfo[id].nRefCount == st.mapInfo[id].nRefCount && st'.mapInfo[id].nRandomPos == st.mapInfo[id].nRandomPos
  {
    GoodPrepared(env, st, svc, nTime);
  }

  /** A success with an untried entry: it is stamped, leaves every new slot and takes the tried slot of its address. An
      entry that was there goes back, unstamped, to the new slot of its own address and source with one reference. No
      other tried slot changes, and no other entry but for references. */
  lemma GoodUntried(env: Env, st: State, svc: Service, nTime: int)
    requires Coherent(env, st, {}, 0) && Known(st, svc) && !st.mapInfo[st.mapAddr[svc.addr]].fInTried
    ensures var st', id, s := Good(env, st, svc, nTime), st.mapAddr[svc.addr], TriedSlot(env, svc);
            && st'.triedTable == st.triedTable[s := id] && st'.nLastGood == nTime
            && id in st'.mapInfo && Succeeded(st.mapInfo[id], st'.mapInfo[id], nTime) && st'.mapInfo[id].nRefCount == 0
            && (forall t | t in st'.newTable :: st'.newTable[t] != id)
            && (s in st.triedTable ==>
                  var k := st.triedTable[s];
                  && k in st.mapInfo && k in st'.mapInfo
                  && var ns := NewSlot(env, st.mapInfo[k].addr.service, st.mapInfo[k].source);
                     && ns in st'.newTable && st'.newTable[ns] == k && st'.mapInfo[k].nRefCount == 1
                     && Untouched(st.mapInfo[k].(fInTried := false), st'.mapInfo[k]))
            && (forall j | j in st'.mapInfo && j != id && !(s in st.triedTable && st.triedTable[s] == j) ::
                  j in st.mapInfo && Untouched(st.mapInfo[j], st'.mapInfo[j]))
            && (forall t | t in st.newTable && st.newTable[t] != id
                           && !(s in st.triedTable && st.triedTable[s] in st.mapInfo
                                && t == NewSlot(env, st.mapInfo[st.triedTable[s]].addr.service,
                                                st.mapInfo[st.triedTable[s]].source)) ::
                  t in st'.newTable && st'.newTable[t] == st.newTable[t])
  {
    hide AddrIndex, RandomIndex, NewIndex, Counted, Good, NewSlot, TriedSlot;
    GoodMoves(env, st, svc, nTime);
    GoodClock(env, st, svc, nTime);
    KeysKept(env, Stamp(st.(nLastGood := nTime), st.mapAddr[svc.addr], nTime), st.mapAddr[svc.addr],
             Good(env, st, svc, nTime));
  }

  lemma KeysKept(env: Env, st: State, id: int, st': State)
    requires id in st.mapInfo && MovedToTried(env, st, id, st')
    ensures st'.mapInfo.Keys <= st.mapInfo.Keys
  {}

  lemma GoodClock(env: Env, st: State, svc: Service, nTime: int)
    requires Coherent(env, st, {}, 0) && Known(st, svc)
    ensures Good(env, st, svc, nTime).nLastGood == nTime
  {
    var id := st.mapAddr[svc.addr];
    var st1 := Stamp(st.(nLastGood := nTime), id, nTime);
    GoodPrepared(env, st, svc, nTime);
    if !st1.mapInfo[id].fInTried {
      MakeTriedClock(env, st1, id);
    }
  }

  lemma MakeTriedClock(env: Env, st: State, id: int)
    requires CanMakeTried(env, st, id)
    ensures MakeTried(env, st, id).nLastGood == st.nLastGood
  {}

  // ----- Attempt_, Connected_, SetServices_

  /** An attempt on a known address sets when it was last tried; a failure counts once between two successes anywhere. */
  lemma AttemptExact(st: State, svc: Service, fCountFailure: bool, nTime: int)
    ensures var st' := Attempt(st, svc, fCountFailure, nTime);
            if !Known(st, svc) then st' == st
            else
              var id := st.mapAddr[svc.addr];
              && id in st'.mapInfo && st' == st.(mapInfo := st.mapInfo[id := st'.mapInfo[id]])
              && var before, after := st.mapInfo[id], st'.mapInfo[id];
                 && after.nLastTry == nTime
                 && after == before.(nLastTry := nTime, nLastCountAttempt := after.nLastCountAttempt,
                                     nAttempts := after.nAttempts)
                 && (fCountFailure && before.nLastCountAttempt < st.nLastGood ==>
                       after.nAttempts == before.nAttempts + 1 && after.nLastCountAttempt == nTime)
                 && (!fCountFailure || before.nLastCountAttempt >= st.nLastGood ==>
                       after.nAttempts == before.nAttempts && after.nLastCountAttempt == before.nLastCountAttempt)
  {}

  /** A connection moves the time of a known address if it is more than twenty minutes behind, and nothing else. */
  lemma ConnectedExact(st: State, svc: Service, nTime: int)
    ensures var st' := Connected(st, svc, nTime);
            if !Known(st, svc) || nTime - st.mapInfo[st.mapAddr[svc.addr]].addr.nTime <= 1200 then st' == st
            else
              var id := st.mapAddr[svc.addr];
              && id in st'.mapInfo && st' == st.(mapInfo := st.mapInfo[id := st'.mapInfo[id]])
              && st'.mapInfo[id].addr.nTime == nTime % 0x1_0000_0000
              && st'.mapInfo[id] == st.mapInfo[id].(addr := st.mapInfo[id].addr.(nTime := st'.mapInfo[id].addr.nTime))
  {}

  /** The services of a known address become those given, and nothing else changes. */
  lemma SetServicesExact(st: State, svc: Service, nServices: set<nat>)
    ensures var st' := SetServices(st, svc, nServices);
            if !Known(st, svc) then st' == st
            else
              var id := st.mapAddr[svc.addr];
              && id in st'.mapInfo && st' == st.(mapInfo := st.mapInfo[id := st'.mapInfo[id]])
              && st'.mapInfo[id].addr.nServices == nServices
              && st'.mapInfo[id] == st.mapInfo[id].(addr := st.mapInfo[id].addr.(nServices := nServices))
  {}
}
