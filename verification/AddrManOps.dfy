/** The public operations of the address manager and what every run of them keeps. */
module AddrManOps {
  import Common
  import opened AddrManState

  // ----- what single steps change

  lemma DeleteEffect(st: State, id: int)
    requires CanDelete(st, id)
    ensures var st' := Delete(st, id);
            && st'.newTable == st.newTable && st'.triedTable == st.triedTable
            && st'.mapInfo.Keys == st.mapInfo.Keys - {id}
            && forall k | k in st'.mapInfo :: SameInfo(st'.mapInfo[k], st.mapInfo[k])
  {
    var q := |st.vRandom| - 1;
    hide SwapRandom, CanSwap;
    SwapShape(st, st.mapInfo[id].nRandomPos, q);
    forall k | k in st.mapInfo && k != id ensures SameInfo(Delete(st, id).mapInfo[k], st.mapInfo[k]) {
      SwapKeeps(st, st.mapInfo[id].nRandomPos, q, k);
    }
  }

  /** The whole effect of clearing a new slot. */
  lemma ClearNewEffect(st: State, s: Slot)
    requires CanClear(st, s)
    ensures var st' := ClearNew(st, s);
            && st'.newTable == st.newTable - {s} && st'.triedTable == st.triedTable
            && st'.mapInfo.Keys == st.mapInfo.Keys - Freed(st, s)
            && forall k | k in st'.mapInfo :: SameInfo(st'.mapInfo[k],
                 if s in st.newTable && k == st.newTable[s] then st.mapInfo[k].(nRefCount := st.mapInfo[k].nRefCount - 1)
                 else st.mapInfo[k])
  {
    if s in st.newTable {
      var st1, id := DropRef(st, s), st.newTable[s];
      assert st1.mapInfo.Keys == st.mapInfo.Keys;
      if st1.mapInfo[id].nRefCount == 0 {
        DeleteEffect(st1, id);
      }
    } else {
      assert st.newTable - {s} == st.newTable;
    }
  }

  /** The entry that clearing a slot deletes: the occupant, if this is its only reference. */
  ghost function Freed(st: State, s: Slot): set<int>
    requires CanClear(st, s)
  {
    if s in st.newTable && st.mapInfo[st.newTable[s]].nRefCount == 1 then {st.newTable[s]} else {}
  }

  // ----- Good_

  predicate Known(st: State, svc: Service) {
    && svc.addr in st.mapAddr && st.mapAddr[svc.addr] in st.mapInfo
    && st.mapInfo[st.mapAddr[svc.addr]].addr.service == svc
  }

  function Stamp(st: State, id: int, nTime: int): State
    requires id in st.mapInfo
  {
    st.(mapInfo := st.mapInfo[id := st.mapInfo[id].(nLastSuccess := nTime, nLastTry := nTime, nAttempts := 0)])
  }

  lemma TouchCoherent(env: Env, st: State, st': State)
    requires Coherent(env, st, {}, 0)
    requires SameService(st.mapInfo, st'.mapInfo) && SamePlace(st.mapInfo, st'.mapInfo)
    requires SameTable(st.mapInfo, st'.mapInfo) && SameRefs(st.mapInfo, st'.mapInfo)
    requires st' == st.(mapInfo := st'.mapInfo, nLastGood := st'.nLastGood)
    ensures Coherent(env, st', {}, 0)
  {
    hide IdsBelow, AddrIndex, RandomIndex, TriedIndex, NewIndex, Counted;
    AddrFrame(st, st');
    RandomFrame(st, st');
    TriedFrame(env, st, st');
    NewFrame(env, st, st', {});
    CountFrame(st, st', 0);
  }

  lemma GoodPrepared(env: Env, st: State, svc: Service, nTime: int)
    requires Coherent(env, st, {}, 0) && Known(st, svc)
    ensures var id := st.mapAddr[svc.addr];
            var st1 := Stamp(st.(nLastGood := nTime), id, nTime);
            Coherent(env, st1, {}, 0) && (!st1.mapInfo[id].fInTried ==> CanMakeTried(env, st1, id))
  {
    hide IdsBelow, AddrIndex, RandomIndex, TriedIndex, NewIndex, Counted;
    var id := st.mapAddr[svc.addr];
    var st1 := Stamp(st.(nLastGood := nTime), id, nTime);
    TouchCoherent(env, st, st1);
    if !st1.mapInfo[id].fInTried {
      MakeTriedCoherent(env, st1, id);
    }
  }

  ghost function Good(env: Env, st: State, svc: Service, nTime: int): State
    requires Coherent(env, st, {}, 0)
  {
    var st0 := st.(nLastGood := nTime);
    if !Known(st, svc) then st0
    else
      var id := st.mapAddr[svc.addr];
      GoodPrepared(env, st, svc, nTime);
      var st1 := Stamp(st0, id, nTime);
      if st1.mapInfo[id].fInTried then st1 else MakeTried(env, st1, id)
  }

  lemma GoodCoherent(env: Env, st: State, svc: Service, nTime: int)
    requires Coherent(env, st, {}, 0)
    ensures Coherent(env, Good(env, st, svc, nTime), {}, 0)
  {
    if Known(st, svc) {
      var id := st.mapAddr[svc.addr];
      GoodPrepared(env, st, svc, nTime);
      var st1 := Stamp(st.(nLastGood := nTime), id, nTime);
      if !st1.mapInfo[id].fInTried {
        MakeTriedCoherent(env, st1, id);
      }
    }
  }

  lemma EvictEffect(env: Env, st: State, s: Slot)
    requires CanEvict(env, st, s) && s in st.triedTable
    requires var ns := EvictSlot(env, st, s); ns in st.newTable ==> st.newTable[ns] != st.triedTable[s]
    ensures var st', k, ns := Evict(env, st, s), st.triedTable[s], EvictSlot(env, st, s);
            && st'.newTable == st.newTable[ns := k] && st'.triedTable == st.triedTable - {s}
            && st'.mapInfo.Keys == st.mapInfo.Keys - Freed(Untry(st, s), ns)
            && k in st'.mapInfo && SameInfo(st'.mapInfo[k], st.mapInfo[k].(nRefCount := 1, fInTried := false))
            && forall j | j in st'.mapInfo && j != k :: SameButRefs(st'.mapInfo[j], st.mapInfo[j])
  {
    var k, ns := st.triedTable[s], EvictSlot(env, st, s);
    ClearNewEffect(Untry(st, s), ns);
    assert Untry(st, s).mapInfo.Keys == st.mapInfo.Keys;
    assert (st.newTable - {ns})[ns := k] == st.newTable[ns := k];
  }

  predicate SameButRefs(a: Info, b: Info) {
    a == b.(nRandomPos := a.nRandomPos, nRefCount := a.nRefCount)
  }

  /** What moving `id` to the tried table does to the tables and to the set of entries. Entry `id` takes
      its tried slot; a previous occupant falls back to its new slot with one reference; the only entry
      that can disappear is the one whose last reference was in that new slot. */
  ghost predicate MovedToTried(env: Env, st: State, id: int, st': State)
    requires id in st.mapInfo
  {
    var s := TriedSlot(env, st.mapInfo[id].addr.service);
    var rest := map t | t in st.newTable && st.newTable[t] != id :: st.newTable[t];
    && st'.triedTable == st.triedTable[s := id]
    && id in st'.mapInfo && SameInfo(st'.mapInfo[id], st.mapInfo[id].(nRefCount := 0, fInTried := true))
    && (forall j | j in st'.mapInfo && j in st.mapInfo && j != id && !(s in st.triedTable && st.triedTable[s] == j) ::
          SameButRefs(st'.mapInfo[j], st.mapInfo[j]))
    && if s !in st.triedTable then
         st'.newTable == rest && st'.mapInfo.Keys == st.mapInfo.Keys
       else if st.triedTable[s] !in st.mapInfo then false
       else
         var k, ns := st.triedTable[s], EvictSlot(env, st, s);
         && st'.newTable == rest[ns := k]
         && k in st'.mapInfo && SameInfo(st'.mapInfo[k], st.mapInfo[k].(nRefCount := 1, fInTried := false))
         && (if ns in rest && rest[ns] in st.mapInfo && st.mapInfo[rest[ns]].nRefCount == 1
             then st'.mapInfo.Keys == st.mapInfo.Keys - {rest[ns]}
             else st'.mapInfo.Keys == st.mapInfo.Keys)
  }

  lemma DetachedSlots(env: Env, st: State, id: int, s: Slot)
    requires Coherent(env, st, {}, 0) && id in st.mapInfo && !st.mapInfo[id].fInTried
    requires s in st.triedTable
    ensures var d := Detach(st, id);
            var ns := EvictSlot(env, st, s);
            && st.triedTable[s] != id && ns == EvictSlot(env, d, s)
            && (ns in d.newTable ==> d.newTable[ns] != st.triedTable[s] && d.newTable[ns] != id)
  {
  }

  lemma MakeTriedEffect(env: Env, st: State, id: int)
    requires Coherent(env, st, {}, 0)
    requires id in st.mapInfo && !st.mapInfo[id].fInTried
    requires CanMakeTried(env, st, id)
    ensures MovedToTried(env, st, id, MakeTried(env, st, id))
  {
    var s := TriedSlot(env, st.mapInfo[id].addr.service);
    if s in st.triedTable {
      DetachedSlots(env, st, id, s);
      MakeTriedUnfold(env, st, id);
    } else {
      assert Detach(st, id).mapInfo.Keys == st.mapInfo.Keys;
    }
  }

  lemma MakeTriedUnfold(env: Env, st: State, id: int)
    requires CanMakeTried(env, st, id)
    requires var s, d := TriedSlot(env, st.mapInfo[id].addr.service), Detach(st, id);
             && s in st.triedTable && st.triedTable[s] != id && st.triedTable[s] in st.mapInfo
             && var ns := EvictSlot(env, d, s);
               && ns == EvictSlot(env, st, s)
               && (ns in d.newTable ==> d.newTable[ns] != st.triedTable[s] && d.newTable[ns] != id)
    ensures MovedToTried(env, st, id, MakeTried(env, st, id))
  {
    var s, d := TriedSlot(env, st.mapInfo[id].addr.service), Detach(st, id);
    var k, ns := d.triedTable[s], EvictSlot(env, d, s);
    EvictEffect(env, d, s);
    var e := Evict(env, d, s);
    assert d.mapInfo.Keys == st.mapInfo.Keys;
    assert SameInfo(e.mapInfo[id], d.mapInfo[id]) by {
      ClearNewEffect(Untry(d, s), ns);
    }
    assert (e.triedTable)[s := id] == st.triedTable[s := id];
    assert Enter(e, s, id).mapInfo.Keys == e.mapInfo.Keys;
  }

  lemma StampedAfterMove(env: Env, st: State, id: int, st': State)
    requires id in st.mapInfo && MovedToTried(env, st, id, st') && st'.mapInfo.Keys <= st.mapInfo.Keys
    requires forall j | j in st.mapInfo && j != id ::
               st.mapInfo[j].nLastTry >= 0 && st.mapInfo[j].nLastSuccess >= 0
               && (st.mapInfo[j].fInTried ==> st.mapInfo[j].nLastSuccess > 0)
    requires st.mapInfo[id].nLastTry == st.mapInfo[id].nLastSuccess
    ensures Stamped(st') <==> st.mapInfo[id].nLastSuccess > 0
  {}

  lemma StampedInPlace(st: State, id: int, nTime: int)
    requires Stamped(st) && id in st.mapInfo && st.mapInfo[id].fInTried
    ensures Stamped(Stamp(st.(nLastGood := nTime), id, nTime)) <==> nTime > 0
  {
    var st' := Stamp(st.(nLastGood := nTime), id, nTime);
    assert id in st'.mapInfo && st'.mapInfo[id].nLastSuccess == nTime;
  }

  /** A known, untried address marked good ends in its tried slot, with the effect MovedToTried. */
  lemma GoodMoves(env: Env, st: State, svc: Service, nTime: int)
    requires Coherent(env, st, {}, 0)
    requires Known(st, svc) && !st.mapInfo[st.mapAddr[svc.addr]].fInTried
    ensures MovedToTried(env, Stamp(st.(nLastGood := nTime), st.mapAddr[svc.addr], nTime), st.mapAddr[svc.addr],
                         Good(env, st, svc, nTime))
  {
    GoodPrepared(env, st, svc, nTime);
    MakeTriedEffect(env, Stamp(st.(nLastGood := nTime), st.mapAddr[svc.addr], nTime), st.mapAddr[svc.addr]);
  }

  lemma MovedStamped(env: Env, st: State, id: int, nTime: int, st': State)
    requires Stamped(st) && id in st.mapInfo
    requires MovedToTried(env, Stamp(st.(nLastGood := nTime), id, nTime), id, st')
    ensures Stamped(st') <==> nTime > 0
  {
    var st1 := Stamp(st.(nLastGood := nTime), id, nTime);
    StampedAfterMove(env, st1, id, st');
  }

  /** Marking an address good keeps the invariant exactly when the time is positive or the
      address, with this port, is not known. */
  lemma GoodConsistent(env: Env, st: State, svc: Service, nTime: int)
    requires Consistent(env, st)
    ensures Consistent(env, Good(env, st, svc, nTime)) <==> nTime > 0 || !Known(st, svc)
  {
    hide IdsBelow, AddrIndex, RandomIndex, TriedIndex, NewIndex, Counted;
    GoodCoherent(env, st, svc, nTime);
    if Known(st, svc) {
      var id := st.mapAddr[svc.addr];
      if st.mapInfo[id].fInTried {
        StampedInPlace(st, id, nTime);
      } else {
        GoodMoves(env, st, svc, nTime);
        MovedStamped(env, st, id, nTime, Good(env, st, svc, nTime));
      }
    }
  }

  // ----- Add_

  function Refresh(info: Info, addr: Address, penalty: int, now: int): Info {
    var interval := if now - addr.nTime < DAY then 3600 else DAY;
    var nTime :=
      if addr.nTime != 0 && (info.addr.nTime == 0 || info.addr.nTime < addr.nTime - interval - penalty)
      then ToUint32(Max(0, addr.nTime - penalty)) else info.addr.nTime;
    info.(addr := info.addr.(nTime := nTime, nServices := info.addr.nServices + addr.nServices))
  }

  /** Whether a further reference to a known entry may be stored: the announcement carries news, the
      entry is untried and below the reference limit, and a draw of odds 1 in 2^references succeeds. */
  predicate MayAddRef(info: Info, addr: Address, rnd: nat) {
    && addr.nTime != 0 && !(info.addr.nTime != 0 && addr.nTime <= info.addr.nTime)
    && !info.fInTried
    && 0 <= info.nRefCount && info.nRefCount != NEW_BUCKETS_PER_ADDRESS
    && rnd % Common.Pow2(info.nRefCount) == 0
  }

  /** Whether the new slot `s` can be given to entry `id`: it is free, or its occupant is terrible, or the
      occupant has other references while `id` has none. */
  predicate MayTake(st: State, s: Slot, id: int, now: int) {
    s in st.newTable && st.newTable[s] in st.mapInfo && id in st.mapInfo ==>
      var occ := st.mapInfo[st.newTable[s]];
      IsTerrible(occ, now) || (occ.nRefCount > 1 && st.mapInfo[id].nRefCount == 0)
  }

  ghost predicate CanPlace(env: Env, st: State, id: int, s: Slot, pending: set<int>) {
    && Coherent(env, st, pending, 0) && pending <= {id}
    && id in st.mapInfo && !st.mapInfo[id].fInTried && st.mapInfo[id].nRefCount < NEW_BUCKETS_PER_ADDRESS
    && s.bucket < NEW_BUCKET_COUNT && s == NewSlotIn(env, st.mapInfo[id].addr.service, s.bucket)
  }

  lemma TakeCoherent(env: Env, st: State, id: int, s: Slot, pending: set<int>)
    requires CanPlace(env, st, id, s, pending)
    requires s in st.newTable ==> st.newTable[s] != id
    ensures CanClear(st, s) && id in ClearNew(st, s).mapInfo
    ensures Coherent(env, PutRef(ClearNew(st, s), s, id), {}, 0)
  {
    ClearNewCoherent(env, st, s, pending, 0);
    ClearNewKeeps(st, s, id);
    PutRefCoherent(env, ClearNew(st, s), s, id, pending, 0);
    assert pending - {id} == {};
  }

  /** The last part of Add_: store the entry in the new slot, or drop it if it has no reference. */
  ghost function Place(env: Env, st: State, id: int, s: Slot, now: int, pending: set<int>): State
    requires CanPlace(env, st, id, s, pending)
  {
    if s in st.newTable && st.newTable[s] == id then st
    else if MayTake(st, s, id, now) then
      TakeCoherent(env, st, id, s, pending);
      PutRef(ClearNew(st, s), s, id)
    else if st.mapInfo[id].nRefCount == 0 then
      DeleteCoherent(env, st, id, pending, 0);
      Delete(st, id)
    else st
  }

  lemma PlaceCoherent(env: Env, st: State, id: int, s: Slot, now: int, pending: set<int>)
    requires CanPlace(env, st, id, s, pending)
    ensures Coherent(env, Place(env, st, id, s, now, pending), {}, 0)
  {
    assert pending - {id} == {};
    if s in st.newTable && st.newTable[s] == id {
      DropRefNewIndex(env, st, s, pending);
      ShrinkPending(env, st, id, pending, 0);
    } else if MayTake(st, s, id, now) {
      TakeCoherent(env, st, id, s, pending);
    } else if st.mapInfo[id].nRefCount == 0 {
      DeleteCoherent(env, st, id, pending, 0);
    } else {
      ShrinkPending(env, st, id, pending, 0);
    }
  }

  function Penalty(addr: Address, source: NetAddr, nTimePenalty: int): int {
    if addr.service.addr == source then 0 else nTimePenalty
  }

  /** A known entry with its time and services refreshed. */
  function Refreshed(st: State, addr: Address, penalty: int, now: int): State
    requires addr.service.addr in st.mapAddr && st.mapAddr[addr.service.addr] in st.mapInfo
  {
    var id := st.mapAddr[addr.service.addr];
    st.(mapInfo := st.mapInfo[id := Refresh(st.mapInfo[id], addr, penalty, now)])
  }

  /** A new entry, counted but not yet referenced. */
  function Registered(st: State, addr: Address, source: NetAddr, penalty: int): State {
    var st1, id := Create(st, addr, source), st.nIdCount;
    st1.(mapInfo := st1.mapInfo[id := st1.mapInfo[id].(addr := addr.(nTime := ToUint32(Max(0, addr.nTime - penalty))))],
         nNew := st1.nNew + 1)
  }

  lemma RefreshedCoherent(env: Env, st: State, addr: Address, penalty: int, now: int)
    requires Coherent(env, st, {}, 0) && addr.service.addr in st.mapAddr
    ensures Coherent(env, Refreshed(st, addr, penalty, now), {}, 0)
  {
    var st' := Refreshed(st, addr, penalty, now);
    assert st'.mapInfo.Keys == st.mapInfo.Keys;
    hide IdsBelow, RandomIndex, TriedIndex, NewIndex, Counted;
    TouchCoherent(env, st, st');
  }

  lemma RegisteredCoherent(env: Env, st: State, addr: Address, source: NetAddr, penalty: int)
    requires Coherent(env, st, {}, 0) && addr.service.addr !in st.mapAddr
    ensures Coherent(env, Registered(st, addr, source, penalty), {st.nIdCount}, 0)
  {
    hide IdsBelow, AddrIndex, RandomIndex, TriedIndex, NewIndex;
    CreateCoherent(env, st, addr, source);
    var st1, st' := Create(st, addr, source), Registered(st, addr, source, penalty);
    assert st'.mapInfo.Keys == st1.mapInfo.Keys;
    AddrFrame(st1, st');
    RandomFrame(st1, st');
    TriedFrame(env, st1, st');
    NewFrame(env, st1, st', {st.nIdCount});
    CountFrame(st1, st'.(nNew := st1.nNew), 1);
  }

  ghost function Add(env: Env, st: State, addr: Address, source: NetAddr, nTimePenalty: int, now: int, rnd: nat)
    : (State, bool)
    requires Coherent(env, st, {}, 0)
  {
    var penalty := Penalty(addr, source, nTimePenalty);
    if !env.isRoutable(addr.service) then (st, false)
    else if addr.service.addr in st.mapAddr then
      var id := st.mapAddr[addr.service.addr];
      var st1 := Refreshed(st, addr, penalty, now);
      var info := st1.mapInfo[id];
      RefreshedCoherent(env, st, addr, penalty, now);
      if MayAddRef(info, addr, rnd)
      then (Place(env, st1, id, NewSlot(env, info.addr.service, source), now, {}), false)
      else (st1, false)
    else
      var st1 := Registered(st, addr, source, penalty);
      RegisteredCoherent(env, st, addr, source, penalty);
      (Place(env, st1, st.nIdCount, NewSlot(env, addr.service, source), now, {st.nIdCount}), true)
  }

  lemma AddCoherent(env: Env, st: State, addr: Address, source: NetAddr, nTimePenalty: int, now: int, rnd: nat)
    requires Coherent(env, st, {}, 0)
    ensures Coherent(env, Add(env, st, addr, source, nTimePenalty, now, rnd).0, {}, 0)
  {
    var penalty := Penalty(addr, source, nTimePenalty);
    if env.isRoutable(addr.service) {
      if addr.service.addr in st.mapAddr {
        var id := st.mapAddr[addr.service.addr];
        RefreshedCoherent(env, st, addr, penalty, now);
        var st1 := Refreshed(st, addr, penalty, now);
        if MayAddRef(st1.mapInfo[id], addr, rnd) {
          PlaceCoherent(env, st1, id, NewSlot(env, st1.mapInfo[id].addr.service, source), now, {});
        }
      } else {
        RegisteredCoherent(env, st, addr, source, penalty);
        PlaceCoherent(env, Registered(st, addr, source, penalty), st.nIdCount,
                      NewSlot(env, addr.service, source), now, {st.nIdCount});
      }
    }
  }

  /** What storing an entry can change: no tried slot, no new slot but `s`, and of the other entries at
      most the displaced occupant of `s`, which disappears only if `s` held its last reference. */
  ghost predicate Placed(st: State, id: int, s: Slot, st': State) {
    && st'.triedTable == st.triedTable
    && (st'.newTable == st.newTable || st'.newTable == st.newTable[s := id])
    && st'.mapInfo.Keys <= st.mapInfo.Keys
    && (forall k | k in st.mapInfo && k != id && k !in st'.mapInfo ::
          && s in st.newTable && st.newTable[s] == k && st.mapInfo[k].nRefCount == 1
          && st'.newTable == st.newTable[s := id])
    && (forall k | k in st'.mapInfo :: SameButRefs(st'.mapInfo[k], st.mapInfo[k]))
    && (id !in st'.mapInfo ==> st'.newTable == st.newTable && s in st.newTable)
  }

  lemma TakeEffect(st: State, id: int, s: Slot)
    requires CanClear(st, s) && id in st.mapInfo && id in ClearNew(st, s).mapInfo
    ensures var st' := PutRef(ClearNew(st, s), s, id);
            Placed(st, id, s, st') && st'.newTable == st.newTable[s := id]
  {
    hide ClearNew, CanClear;
    ClearNewEffect(st, s);
    assert (st.newTable - {s})[s := id] == st.newTable[s := id];
  }

  lemma DropEffect(st: State, id: int, s: Slot)
    requires CanDelete(st, id) && s in st.newTable
    ensures Placed(st, id, s, Delete(st, id)) && Delete(st, id).newTable == st.newTable
  {
    DeleteEffect(st, id);
  }

  lemma PlaceEffect(env: Env, st: State, id: int, s: Slot, now: int, pending: set<int>)
    requires CanPlace(env, st, id, s, pending)
    ensures Placed(st, id, s, Place(env, st, id, s, now, pending))
    ensures Place(env, st, id, s, now, pending).newTable == st.newTable[s := id] <==>
            (s in st.newTable && st.newTable[s] == id) || MayTake(st, s, id, now)
  {
    if s in st.newTable && st.newTable[s] == id {
    } else if MayTake(st, s, id, now) {
      TakeCoherent(env, st, id, s, pending);
      TakeEffect(st, id, s);
    } else if st.mapInfo[id].nRefCount == 0 {
      DeleteCoherent(env, st, id, pending, 0);
      DropEffect(st, id, s);
    }
  }

  lemma PlacedSelf(st: State, id: int, s: Slot)
    requires id in st.mapInfo
    ensures Placed(st, id, s, st)
  {}

  /** The slot is free, or its occupant gives way to an entry without references: it is terrible or has another slot. */
  predicate Yields(st: State, s: Slot, now: int) {
    s in st.newTable ==>
      && st.newTable[s] in st.mapInfo
      && var occ := st.mapInfo[st.newTable[s]];
         IsTerrible(occ, now) || occ.nRefCount > 1
  }

  lemma NewcomerTakes(env: Env, st: State, addr: Address, source: NetAddr, penalty: int, s: Slot, now: int)
    requires Coherent(env, st, {}, 0)
    ensures var st1 := Registered(st, addr, source, penalty);
            && (s in st1.newTable ==> st1.newTable[s] != st.nIdCount)
            && (MayTake(st1, s, st.nIdCount, now) <==> Yields(st, s, now))
  {}

  /** What Add_ can change: no tried slot; of the known entries only the refreshed one and at most one displaced
      occupant of the target slot. A new address is stored exactly when its slot is free or the occupant yields; a known
      one gets the slot exactly when the draw allows another reference and the occupant can be displaced. */
  lemma AddEffect(env: Env, st: State, addr: Address, source: NetAddr, nTimePenalty: int, now: int, rnd: nat)
    requires Coherent(env, st, {}, 0)
    ensures var (st', fNew) := Add(env, st, addr, source, nTimePenalty, now, rnd);
            var penalty := Penalty(addr, source, nTimePenalty);
            var known := addr.service.addr in st.mapAddr;
            && fNew == (env.isRoutable(addr.service) && !known)
            && (!env.isRoutable(addr.service) ==> st' == st)
            && (env.isRoutable(addr.service) && known ==>
                  var id, st1 := st.mapAddr[addr.service.addr], Refreshed(st, addr, penalty, now);
                  var s := NewSlot(env, st1.mapInfo[id].addr.service, source);
                  && Placed(st1, id, s, st')
                  && (st'.newTable == st.newTable[s := id] <==>
                        || (s in st.newTable && st.newTable[s] == id)
                        || (MayAddRef(st1.mapInfo[id], addr, rnd) && MayTake(st1, s, id, now))))
            && (fNew ==>
                  var s, st1 := NewSlot(env, addr.service, source), Registered(st, addr, source, penalty);
                  && Placed(st1, st.nIdCount, s, st')
                  && (st'.newTable == st.newTable[s := st.nIdCount] <==> Yields(st, s, now)))
  {
    hide IdsBelow, RandomIndex, TriedIndex, Counted, Placed, MayTake, Yields;
    var penalty := Penalty(addr, source, nTimePenalty);
    if env.isRoutable(addr.service) {
      if addr.service.addr in st.mapAddr {
        var id := st.mapAddr[addr.service.addr];
        RefreshedCoherent(env, st, addr, penalty, now);
        var st1 := Refreshed(st, addr, penalty, now);
        var s := NewSlot(env, st1.mapInfo[id].addr.service, source);
        if MayAddRef(st1.mapInfo[id], addr, rnd) {
          PlaceEffect(env, st1, id, s, now, {});
        } else {
          PlacedSelf(st1, id, s);
        }
      } else {
        RegisteredCoherent(env, st, addr, source, penalty);
        NewcomerTakes(env, st, addr, source, penalty, NewSlot(env, addr.service, source), now);
        PlaceEffect(env, Registered(st, addr, source, penalty), st.nIdCount,
                    NewSlot(env, addr.service, source), now, {st.nIdCount});
      }
    }
  }

  lemma PlacedStamped(st: State, id: int, s: Slot, st': State)
    requires Stamped(st) && Placed(st, id, s, st')
    ensures Stamped(st')
  {}

  lemma RefreshedStamped(st: State, addr: Address, penalty: int, now: int)
    requires Stamped(st) && addr.service.addr in st.mapAddr && st.mapAddr[addr.service.addr] in st.mapInfo
    ensures Stamped(Refreshed(st, addr, penalty, now))
  {}

  lemma RegisteredStamped(st: State, addr: Address, source: NetAddr, penalty: int)
    requires Stamped(st)
    ensures Stamped(Registered(st, addr, source, penalty))
  {}

  /** Every Add_ keeps the invariant. */
  lemma AddConsistent(env: Env, st: State, addr: Address, source: NetAddr, nTimePenalty: int, now: int, rnd: nat)
    requires Consistent(env, st)
    ensures Consistent(env, Add(env, st, addr, source, nTimePenalty, now, rnd).0)
  {
    hide IdsBelow, RandomIndex, TriedIndex, NewIndex, Counted, Placed;
    AddCoherent(env, st, addr, source, nTimePenalty, now, rnd);
    AddEffect(env, st, addr, source, nTimePenalty, now, rnd);
    var st' := Add(env, st, addr, source, nTimePenalty, now, rnd).0;
    var penalty := Penalty(addr, source, nTimePenalty);
    if env.isRoutable(addr.service) {
      if addr.service.addr in st.mapAddr {
        var id, st1 := st.mapAddr[addr.service.addr], Refreshed(st, addr, penalty, now);
        RefreshedStamped(st, addr, penalty, now);
        PlacedStamped(st1, id, NewSlot(env, st1.mapInfo[id].addr.service, source), st');
      } else {
        RegisteredStamped(st, addr, source, penalty);
        PlacedStamped(Registered(st, addr, source, penalty), st.nIdCount, NewSlot(env, addr.service, source), st');
      }
    }
  }

  // ----- Attempt_, Connected_, SetServices_

  function Attempt(st: State, svc: Service, fCountFailure: bool, nTime: int): State {
    if !Known(st, svc) then st
    else
      var id := st.mapAddr[svc.addr];
      var info := st.mapInfo[id].(nLastTry := nTime);
      var counted := fCountFailure && info.nLastCountAttempt < st.nLastGood;
      st.(mapInfo := st.mapInfo[id :=
        if counted then info.(nLastCountAttempt := nTime, nAttempts := info.nAttempts + 1) else info])
  }

  function Connected(st: State, svc: Service, nTime: int): State {
    if !Known(st, svc) then st
    else
      var id := st.mapAddr[svc.addr];
      var info := st.mapInfo[id];
      if nTime - info.addr.nTime > 20 * 60
      then st.(mapInfo := st.mapInfo[id := info.(addr := info.addr.(nTime := ToUint32(nTime)))])
      else st
  }

  function SetServices(st: State, svc: Service, nServices: set<nat>): State {
    if !Known(st, svc) then st
    else
      var id := st.mapAddr[svc.addr];
      var info := st.mapInfo[id];
      st.(mapInfo := st.mapInfo[id := info.(addr := info.addr.(nServices := nServices))])
  }

  lemma AttemptCoherent(env: Env, st: State, svc: Service, fCountFailure: bool, nTime: int)
    requires Coherent(env, st, {}, 0)
    ensures Coherent(env, Attempt(st, svc, fCountFailure, nTime), {}, 0)
  {
    hide IdsBelow, AddrIndex, RandomIndex, TriedIndex, NewIndex, Counted;
    TouchCoherent(env, st, Attempt(st, svc, fCountFailure, nTime));
  }

  lemma ConnectedCoherent(env: Env, st: State, svc: Service, nTime: int)
    requires Coherent(env, st, {}, 0)
    ensures Coherent(env, Connected(st, svc, nTime), {}, 0)
  {
    hide IdsBelow, AddrIndex, RandomIndex, TriedIndex, NewIndex, Counted;
    TouchCoherent(env, st, Connected(st, svc, nTime));
  }

  lemma SetServicesCoherent(env: Env, st: State, svc: Service, nServices: set<nat>)
    requires Coherent(env, st, {}, 0)
    ensures Coherent(env, SetServices(st, svc, nServices), {}, 0)
  {
    hide IdsBelow, AddrIndex, RandomIndex, TriedIndex, NewIndex, Counted;
    TouchCoherent(env, st, SetServices(st, svc, nServices));
  }

  lemma AttemptStamped(st: State, svc: Service, fCountFailure: bool, nTime: int)
    requires Stamped(st) && Known(st, svc)
    ensures Stamped(Attempt(st, svc, fCountFailure, nTime)) <==> nTime >= 0
  {
    var id, st' := st.mapAddr[svc.addr], Attempt(st, svc, fCountFailure, nTime);
    assert id in st'.mapInfo && st'.mapInfo[id].nLastTry == nTime;
  }

  lemma AttemptConsistent(env: Env, st: State, svc: Service, fCountFailure: bool, nTime: int)
    requires Consistent(env, st)
    ensures Consistent(env, Attempt(st, svc, fCountFailure, nTime)) <==> nTime >= 0 || !Known(st, svc)
  {
    hide IdsBelow, AddrIndex, RandomIndex, TriedIndex, NewIndex, Counted;
    AttemptCoherent(env, st, svc, fCountFailure, nTime);
    if Known(st, svc) {
      AttemptStamped(st, svc, fCountFailure, nTime);
    }
  }

  lemma ConnectedConsistent(env: Env, st: State, svc: Service, nTime: int)
    requires Consistent(env, st)
    ensures Consistent(env, Connected(st, svc, nTime))
  {
    hide Coherent;
    ConnectedCoherent(env, st, svc, nTime);
  }

  lemma SetServicesConsistent(env: Env, st: State, svc: Service, nServices: set<nat>)
    requires Consistent(env, st)
    ensures Consistent(env, SetServices(st, svc, nServices))
  {
    hide Coherent;
    SetServicesCoherent(env, st, svc, nServices);
  }

  // ----- GetAddr_

  function GetAddrLimit(size: nat): nat {
    var n := GETADDR_MAX_PCT * size / 100;
    if n > GETADDR_MAX then GETADDR_MAX else n
  }

  function RandomInt(rnd: nat, max: nat): (r: nat)
    requires max > 0
    ensures r < max
  {
    rnd % max
  }

  /** Position `n` of vRandom swapped with one drawn from the rest. */
  ghost function Draw(st: State, n: nat, rnd: nat): (st': State)
    requires RandomIndex(st) && n < |st.vRandom|
    ensures RandomIndex(st') && |st'.vRandom| == |st.vRandom|
  {
    var q := RandomInt(rnd, |st.vRandom| - n) + n;
    SwapRandomIndex(st, n, q);
    SwapRandom(st, n, q)
  }

  ghost function Append(st: State, n: nat, now: int, acc: seq<Address>): seq<Address>
    requires RandomIndex(st) && n < |st.vRandom|
  {
    var info := st.mapInfo[st.vRandom[n]];
    if IsTerrible(info, now) then acc else acc + [info.addr]
  }

  /** The rest of the selection loop from position `n`; `rnd` supplies the random draws. */
  ghost function GetAddrFrom(st: State, n: nat, limit: nat, rnd: nat -> nat, now: int, acc: seq<Address>)
    : (State, seq<Address>)
    requires RandomIndex(st) && n <= |st.vRandom|
    decreases |st.vRandom| - n
  {
    if n == |st.vRandom| || |acc| >= limit then (st, acc)
    else
      var st1 := Draw(st, n, rnd(n));
      GetAddrFrom(st1, n + 1, limit, rnd, now, Append(st1, n, now, acc))
  }

  ghost function GetAddr(st: State, rnd: nat -> nat, now: int): (State, seq<Address>)
    requires RandomIndex(st)
  {
    GetAddrFrom(st, 0, GetAddrLimit(|st.vRandom|), rnd, now, [])
  }

  /** The usable addresses among the first `n` of vRandom, in order. */
  ghost function Picked(st: State, n: nat, now: int): seq<Address>
    requires RandomIndex(st) && n <= |st.vRandom|
  {
    if n == 0 then []
    else
      var info := st.mapInfo[st.vRandom[n - 1]];
      Picked(st, n - 1, now) + (if IsTerrible(info, now) then [] else [info.addr])
  }

  lemma {:induction false} PickedDraw(st: State, p: nat, rnd: nat, n: nat, now: int)
    requires RandomIndex(st) && n <= p < |st.vRandom|
    ensures Picked(Draw(st, p, rnd), n, now) == Picked(st, n, now)
  {
    if n > 0 {
      PickedDraw(st, p, rnd, n - 1, now);
      var q := RandomInt(rnd, |st.vRandom| - p) + p;
      SwapRandomIndex(st, p, q);
      SwapKeeps(st, p, q, st.vRandom[n - 1]);
    }
  }

  /** Only the order of vRandom differs. */
  ghost predicate Shuffled(st: State, st': State) {
    && st' == st.(mapInfo := st'.mapInfo, vRandom := st'.vRandom) && |st'.vRandom| == |st.vRandom|
    && st'.mapInfo.Keys == st.mapInfo.Keys
    && forall k | k in st.mapInfo :: SameInfo(st'.mapInfo[k], st.mapInfo[k])
  }

  lemma SwapShuffles(st: State, p: int, q: int)
    requires CanSwap(st, p, q)
    ensures Shuffled(st, SwapRandom(st, p, q))
  {
    var st' := SwapRandom(st, p, q);
    SwapShape(st, p, q);
    forall k | k in st.mapInfo ensures SameInfo(st'.mapInfo[k], st.mapInfo[k]) {
      SwapKeeps(st, p, q, k);
    }
  }

  lemma DrawShuffles(st: State, n: nat, rnd: nat)
    requires RandomIndex(st) && n < |st.vRandom|
    ensures Shuffled(st, Draw(st, n, rnd))
  {
    hide RandomIndex, Shuffled, SwapRandom, CanSwap;
    var q := RandomInt(rnd, |st.vRandom| - n) + n;
    SwapRandomIndex(st, n, q);
    SwapShuffles(st, n, q);
  }

  lemma ShuffledTrans(a: State, b: State, c: State)
    requires Shuffled(a, b) && Shuffled(b, c)
    ensures Shuffled(a, c)
  {
    forall k | k in a.mapInfo ensures SameInfo(c.mapInfo[k], a.mapInfo[k]) {
      assert k in b.mapInfo;
    }
  }

  lemma {:induction false} GetAddrShuffles(st: State, n: nat, limit: nat, rnd: nat -> nat, now: int, acc: seq<Address>)
    requires RandomIndex(st) && n <= |st.vRandom|
    ensures var st' := GetAddrFrom(st, n, limit, rnd, now, acc).0; RandomIndex(st') && Shuffled(st, st')
    decreases |st.vRandom| - n
  {
    hide RandomIndex, Draw, Append;
    if n == |st.vRandom| || |acc| >= limit {
    } else {
      DrawShuffles(st, n, rnd(n));
      var st1 := Draw(st, n, rnd(n));
      GetAddrShuffles(st1, n + 1, limit, rnd, now, Append(st1, n, now, acc));
      ShuffledTrans(st, st1, GetAddrFrom(st, n, limit, rnd, now, acc).0);
    }
  }

  lemma {:induction false} GetAddrPicks(st: State, n: nat, limit: nat, rnd: nat -> nat, now: int, acc: seq<Address>)
    returns (m: nat)
    requires RandomIndex(st) && n <= |st.vRandom|
    requires acc == Picked(st, n, now) && |acc| <= limit
    ensures var (st', out) := GetAddrFrom(st, n, limit, rnd, now, acc);
            && RandomIndex(st') && m <= |st'.vRandom|
            && out == Picked(st', m, now) && |out| <= limit && (m == |st'.vRandom| || |out| == limit)
    decreases |st.vRandom| - n
  {
    if n == |st.vRandom| || |acc| >= limit {
      m := n;
    } else {
      PickedDraw(st, n, rnd(n), n, now);
      var st1 := Draw(st, n, rnd(n));
      m := GetAddrPicks(st1, n + 1, limit, rnd, now, Append(st1, n, now, acc));
    }
  }

  lemma GetAddrCoherent(env: Env, st: State, rnd: nat -> nat, now: int)
    requires Coherent(env, st, {}, 0)
    ensures Coherent(env, GetAddr(st, rnd, now).0, {}, 0)
  {
    GetAddrShuffles(st, 0, GetAddrLimit(|st.vRandom|), rnd, now, []);
    ReorderFrame(env, st, GetAddr(st, rnd, now).0, {}, 0);
  }

  lemma ShuffledConsistent(env: Env, st: State, st': State)
    requires Consistent(env, st) && RandomIndex(st') && Shuffled(st, st')
    ensures Consistent(env, st')
  {
    ReorderFrame(env, st, st', {}, 0);
    assert forall k :: k in st'.mapInfo <==> k in st.mapInfo.Keys;
  }

  /** The addresses picked from a prefix: usable ones only, each address once, none of the prefix missed. */
  lemma {:induction false} PickedExact(st: State, n: nat, now: int)
    requires RandomIndex(st) && AddrIndex(st) && n <= |st.vRandom|
    ensures forall a | a in Picked(st, n, now) ::
              exists i | 0 <= i < n :: st.mapInfo[st.vRandom[i]].addr == a && !IsTerrible(st.mapInfo[st.vRandom[i]], now)
    ensures forall i | 0 <= i < n && !IsTerrible(st.mapInfo[st.vRandom[i]], now) ::
              st.mapInfo[st.vRandom[i]].addr in Picked(st, n, now)
    ensures forall i, j | 0 <= i < j < |Picked(st, n, now)| ::
              Picked(st, n, now)[i].service.addr != Picked(st, n, now)[j].service.addr
  {
    if n > 0 {
      PickedExact(st, n - 1, now);
      var info := st.mapInfo[st.vRandom[n - 1]];
      var prev := Picked(st, n - 1, now);
      if !IsTerrible(info, now) {
        forall i | 0 <= i < |prev| ensures prev[i].service.addr != info.addr.service.addr {
          assert prev[i] in prev;
          var k :| 0 <= k < n - 1 && st.mapInfo[st.vRandom[k]].addr == prev[i];
          assert st.vRandom[k] != st.vRandom[n - 1];
        }
      }
    }
  }

  /** GetAddr_ keeps the invariant for every sequence of draws, and returns at most the limit of distinct,
      usable addresses; when it returns fewer, it returns every usable one. */
  lemma GetAddrExact(env: Env, st: State, rnd: nat -> nat, now: int)
    requires Consistent(env, st)
    ensures var (st', out) := GetAddr(st, rnd, now);
            && Consistent(env, st') && Shuffled(st, st')
            && |out| <= GetAddrLimit(|st.vRandom|)
            && (forall a | a in out :: exists id | id in st.mapInfo :: st.mapInfo[id].addr == a && !IsTerrible(st.mapInfo[id], now))
            && (forall i, j | 0 <= i < j < |out| :: out[i].service.addr != out[j].service.addr)
            && (|out| < GetAddrLimit(|st.vRandom|) ==>
                  forall id | id in st.mapInfo && !IsTerrible(st.mapInfo[id], now) :: st.mapInfo[id].addr in out)
  {
    var limit := GetAddrLimit(|st.vRandom|);
    GetAddrShuffles(st, 0, limit, rnd, now, []);
    var m := GetAddrPicks(st, 0, limit, rnd, now, []);
    var (st', out) := GetAddr(st, rnd, now);
    ShuffledConsistent(env, st, st');
    PickedExact(st', m, now);
    ShuffledBack(st, st', m, now);
  }

  lemma ShuffledBack(st: State, st': State, m: nat, now: int)
    requires Shuffled(st, st') && RandomIndex(st') && AddrIndex(st') && m <= |st'.vRandom|
    ensures forall a | a in Picked(st', m, now) ::
              exists id | id in st.mapInfo :: st.mapInfo[id].addr == a && !IsTerrible(st.mapInfo[id], now)
    ensures m == |st'.vRandom| ==>
              forall id | id in st.mapInfo && !IsTerrible(st.mapInfo[id], now) :: st.mapInfo[id].addr in Picked(st', m, now)
  {
    PickedExact(st', m, now);
    forall a | a in Picked(st', m, now)
      ensures exists id | id in st.mapInfo :: st.mapInfo[id].addr == a && !IsTerrible(st.mapInfo[id], now)
    {
      var i :| 0 <= i < m && st'.mapInfo[st'.vRandom[i]].addr == a && !IsTerrible(st'.mapInfo[st'.vRandom[i]], now);
      var id := st'.vRandom[i];
      assert id in st'.mapInfo.Keys;
      assert SameInfo(st'.mapInfo[id], st.mapInfo[id]);
    }
    if m == |st'.vRandom| {
      forall id | id in st.mapInfo && !IsTerrible(st.mapInfo[id], now) ensures st.mapInfo[id].addr in Picked(st', m, now) {
        assert id in st'.mapInfo && SameInfo(st'.mapInfo[id], st.mapInfo[id]);
      }
    }
  }

  // ----- runs

  datatype Op =
    | OpAdd(addr: Address, source: NetAddr, penalty: int, now: int, rnd: nat)
    | OpGood(svc: Service, time: int)
    | OpAttempt(svc: Service, count: bool, time: int)
    | OpConnected(svc: Service, time: int)
    | OpSetServices(svc: Service, services: set<nat>)
    | OpGetAddr(draws: nat -> nat, now: int)

  /** Times come from the clock. */
  predicate ClockTime(op: Op) {
    match op
    case OpGood(_, t) => t > 0
    case OpAttempt(_, _, t) => t >= 0
    case _ => true
  }

  ghost function Step(env: Env, st: State, op: Op): State
    requires Consistent(env, st)
  {
    match op
    case OpAdd(addr, source, penalty, now, rnd) => Add(env, st, addr, source, penalty, now, rnd).0
    case OpGood(svc, t) => Good(env, st, svc, t)
    case OpAttempt(svc, count, t) => Attempt(st, svc, count, t)
    case OpConnected(svc, t) => Connected(st, svc, t)
    case OpSetServices(svc, services) => SetServices(st, svc, services)
    case OpGetAddr(draws, now) => GetAddr(st, draws, now).0
  }

  lemma StepConsistent(env: Env, st: State, op: Op)
    requires Consistent(env, st) && ClockTime(op)
    ensures Consistent(env, Step(env, st, op))
  {
    match op
    case OpAdd(addr, source, penalty, now, rnd) => AddConsistent(env, st, addr, source, penalty, now, rnd);
    case OpGood(svc, t) => GoodConsistent(env, st, svc, t);
    case OpAttempt(svc, count, t) => AttemptConsistent(env, st, svc, count, t);
    case OpConnected(svc, t) => ConnectedConsistent(env, st, svc, t);
    case OpSetServices(svc, services) => SetServicesConsistent(env, st, svc, services);
    case OpGetAddr(draws, now) => GetAddrExact(env, st, draws, now);
  }

  /** The states a run passes through, each step defined because the one before kept the invariant. */
  ghost predicate IsRun(env: Env, ops: seq<Op>, states: seq<State>) {
    && |states| == |ops| + 1 && states[0] == EmptyState
    && forall i | 0 <= i < |ops| ::
         ClockTime(ops[i]) && (Consistent(env, states[i]) ==> states[i + 1] == Step(env, states[i], ops[i]))
  }

  /** Every state of every run from the empty manager is consistent. */
  lemma {:induction false} RunConsistent(env: Env, ops: seq<Op>, states: seq<State>, n: nat)
    requires IsRun(env, ops, states) && n < |states|
    ensures Consistent(env, states[n])
  {
    if n == 0 {
      assert IdsWith(EmptyState.mapInfo, true) == {} && IdsWith(EmptyState.mapInfo, false) == {};
    } else {
      RunConsistent(env, ops, states, n - 1);
      StepConsistent(env, states[n - 1], ops[n - 1]);
    }
  }

  /** An address added to the empty manager is known. */
  lemma AddedKnown(env: Env, addr: Address, source: NetAddr, penalty: int, now: int, rnd: nat)
    requires env.isRoutable(addr.service) && Coherent(env, EmptyState, {}, 0)
    ensures Known(Add(env, EmptyState, addr, source, penalty, now, rnd).0, addr.service)
  {
    var st := Add(env, EmptyState, addr, source, penalty, now, rnd).0;
    AddCoherent(env, EmptyState, addr, source, penalty, now, rnd);
    AddEffect(env, EmptyState, addr, source, penalty, now, rnd);
    var s := NewSlot(env, addr.service, source);
    assert s in st.newTable && st.newTable[s] == 0;
  }

  /** Without the clock's times the invariant is lost: after one address has been added to the empty manager, Good_
      at time 0 leaves a tried entry that looks never successful, and Attempt_ at a negative time one last tried
      before any time. */
  lemma ClockNeeded(env: Env, addr: Address, source: NetAddr, penalty: int, now: int, rnd: nat, count: bool)
    requires env.isRoutable(addr.service)
    ensures var op := OpAdd(addr, source, penalty, now, rnd);
            && Consistent(env, EmptyState)
            && var st := Step(env, EmptyState, op);
               && IsRun(env, [op], [EmptyState, st]) && Consistent(env, st)
               && !Consistent(env, Step(env, st, OpGood(addr.service, 0)))
               && !Consistent(env, Step(env, st, OpAttempt(addr.service, count, -1)))
  {
    hide Coherent, Stamped, Good, Attempt, Add;
    RunConsistent(env, [], [EmptyState], 0);
    var st := Step(env, EmptyState, OpAdd(addr, source, penalty, now, rnd));
    AddConsistent(env, EmptyState, addr, source, penalty, now, rnd);
    AddedKnown(env, addr, source, penalty, now, rnd);
    GoodConsistent(env, st, addr.service, 0);
    AttemptConsistent(env, st, addr.service, count, -1);
  }
}
