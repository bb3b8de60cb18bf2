/** CAddrMan itself: the six structures updated in place. Every method computes the function of the
    same name on the abstract state; the internal asserts of the source are the preconditions and
    assertions here. */
module AddrMan {
  import Common
  import opened AddrManState
  import Ops = AddrManOps

  ghost function AllSlots(m: nat, n: nat): set<Slot> {
    set b, p | 0 <= b < m && 0 <= p < n :: Slot(b, p)
  }

  /** The occupied slots of a bucket array. */
  ghost function Table(a: array2<int>): map<Slot, int>
    reads a
  {
    map s | s in AllSlots(a.Length0, a.Length1) && a[s.bucket, s.pos] != -1 :: a[s.bucket, s.pos]
  }

  method Store(a: array2<int>, b: nat, p: nat, v: int)
    requires b < a.Length0 && p < a.Length1
    modifies a
    ensures Table(a) == if v == -1 then old(Table(a)) - {Slot(b, p)} else old(Table(a))[Slot(b, p) := v]
  {
    a[b, p] := v;
    assert forall s | s in AllSlots(a.Length0, a.Length1) && s != Slot(b, p) :: a[s.bucket, s.pos] == old(a[s.bucket, s.pos]);
    assert Slot(b, p) in AllSlots(a.Length0, a.Length1);
  }

  class Manager {
    const env: Env
    var nIdCount: nat
    var mapInfo: map<int, Info>
    var mapAddr: map<NetAddr, int>
    var vRandom: seq<int>
    var nTried: int
    const vvTried: array2<int>
    var nNew: int
    const vvNew: array2<int>
    var nLastGood: int

    ghost predicate Valid() {
      && vvTried.Length0 == TRIED_BUCKET_COUNT && vvTried.Length1 == BUCKET_SIZE
      && vvNew.Length0 == NEW_BUCKET_COUNT && vvNew.Length1 == BUCKET_SIZE
      && vvTried != vvNew
    }

    ghost function Abs(): State
      reads this, vvTried, vvNew
    {
      State(nIdCount, mapInfo, mapAddr, vRandom, nTried, Table(vvTried), nNew, Table(vvNew), nLastGood)
    }

    /** What holds between calls. */
    ghost predicate Ok()
      reads this, vvTried, vvNew
    {
      Valid() && Coherent(env, Abs(), {}, 0)
    }

    constructor (env: Env)
      ensures Ok() && Abs() == EmptyState && this.env == env
      ensures fresh(vvTried) && fresh(vvNew)
    {
      this.env := env;
      nIdCount, mapInfo, mapAddr, vRandom := 0, map[], map[], [];
      nTried, nNew, nLastGood := 0, 0, 1;
      vvTried := new int[TRIED_BUCKET_COUNT, BUCKET_SIZE]((_, _) => -1);
      vvNew := new int[NEW_BUCKET_COUNT, BUCKET_SIZE]((_, _) => -1);
      new;
      assert Table(vvTried) == map[] && Table(vvNew) == map[];
      assert IdsWith(mapInfo, true) == {} && IdsWith(mapInfo, false) == {};
    }

    method Create(addr: Address, source: NetAddr) returns (nId: int)
      modifies this
      ensures nId == old(nIdCount) && Abs() == AddrManState.Create(old(Abs()), addr, source)
    {
      nId := nIdCount;
      nIdCount := nIdCount + 1;
      mapInfo := mapInfo[nId := Info(addr, source, 0, 0, 0, 0, 0, false, -1)];
      mapAddr := mapAddr[addr.service.addr := nId];
      mapInfo := mapInfo[nId := mapInfo[nId].(nRandomPos := |vRandom|)];
      vRandom := vRandom + [nId];
    }

    method SwapRandom(nRndPos1: nat, nRndPos2: nat)
      requires CanSwap(Abs(), nRndPos1, nRndPos2)
      modifies this
      ensures Abs() == AddrManState.SwapRandom(old(Abs()), nRndPos1, nRndPos2)
    {
      if nRndPos1 == nRndPos2 {
        return;
      }
      var nId1, nId2 := vRandom[nRndPos1], vRandom[nRndPos2];
      mapInfo := mapInfo[nId1 := mapInfo[nId1].(nRandomPos := nRndPos2)];
      mapInfo := mapInfo[nId2 := mapInfo[nId2].(nRandomPos := nRndPos1)];
      vRandom := vRandom[nRndPos1 := nId2];
      vRandom := vRandom[nRndPos2 := nId1];
    }

    method Delete(nId: int)
      requires CanDelete(Abs(), nId)
      modifies this
      ensures Abs() == AddrManState.Delete(old(Abs()), nId)
    {
      SwapRandom(mapInfo[nId].nRandomPos, |vRandom| - 1);
      vRandom := vRandom[..|vRandom| - 1];
      mapAddr := mapAddr - {mapInfo[nId].addr.service.addr};
      mapInfo := mapInfo - {nId};
      nNew := nNew - 1;
    }

    method ClearNew(nUBucket: nat, nUBucketPos: nat)
      requires Valid() && nUBucket < NEW_BUCKET_COUNT && nUBucketPos < BUCKET_SIZE
      requires CanClear(Abs(), Slot(nUBucket, nUBucketPos))
      modifies this, vvNew
      ensures Abs() == AddrManState.ClearNew(old(Abs()), Slot(nUBucket, nUBucketPos))
    {
      assert Slot(nUBucket, nUBucketPos) in AllSlots(vvNew.Length0, vvNew.Length1);
      if vvNew[nUBucket, nUBucketPos] != -1 {
        var nIdDelete := vvNew[nUBucket, nUBucketPos];
        mapInfo := mapInfo[nIdDelete := mapInfo[nIdDelete].(nRefCount := mapInfo[nIdDelete].nRefCount - 1)];
        Store(vvNew, nUBucket, nUBucketPos, -1);
        if mapInfo[nIdDelete].nRefCount == 0 {
          Delete(nIdDelete);
        }
      }
    }

    /** One round of the loop that removes an entry from the new buckets. */
    method DetachFrom(nId: int, bucket: nat, s: Slot)
      requires Valid() && nId in mapInfo && nId != -1 && bucket < NEW_BUCKET_COUNT
      requires s == NewSlotIn(env, mapInfo[nId].addr.service, bucket)
      modifies this`mapInfo, vvNew
      ensures Table(vvNew) == Unref(old(Table(vvNew)), s, nId)
      ensures mapInfo == Uncount(old(Table(vvNew)), s, old(mapInfo), nId)
    {
      assert s in AllSlots(vvNew.Length0, vvNew.Length1);
      if vvNew[s.bucket, s.pos] == nId {
        Store(vvNew, s.bucket, s.pos, -1);
        mapInfo := WithRefs(mapInfo, nId, mapInfo[nId].nRefCount - 1);
      }
    }

    /** Remove the entry from all new buckets, looking only at its own position in each. */
    method Detach(nId: int)
      requires Valid() && NewIndex(env, Abs(), {}) && nId in mapInfo && nId != -1
      modifies this, vvNew
      ensures Abs() == AddrManState.Detach(old(Abs()), nId)
    {
      hide NewIndex, Unref, Uncount, Cut, Uncounted;
      ghost var was := Abs();
      DetachEnds(env, was, nId);
      var svc := mapInfo[nId].addr.service;
      var bucket := 0;
      while bucket < NEW_BUCKET_COUNT
        invariant 0 <= bucket <= NEW_BUCKET_COUNT
        invariant nId in was.mapInfo && was.mapInfo[nId].addr.service == svc
        invariant Abs() == was.(mapInfo := Uncounted(was, nId, bucket), newTable := Cut(was, nId, bucket))
        modifies this`mapInfo, vvNew
      {
        var s := NewSlotIn(env, svc, bucket);
        DetachStep(env, was, nId, bucket, s);
        DetachFrom(nId, bucket, s);
        bucket := bucket + 1;
      }
      nNew := nNew - 1;
    }

    /** Move whatever is in the tried slot back to the new table, deleting what is there. */
    method Evict(nKBucket: nat, nKBucketPos: nat)
      requires Valid() && nKBucket < TRIED_BUCKET_COUNT && nKBucketPos < BUCKET_SIZE
      requires CanEvict(env, Abs(), Slot(nKBucket, nKBucketPos))
      modifies this, vvNew, vvTried
      ensures Abs() == AddrManState.Evict(env, old(Abs()), Slot(nKBucket, nKBucketPos))
    {
      hide AddrManState.ClearNew, CanClear, NewSlot;
      assert Slot(nKBucket, nKBucketPos) in AllSlots(vvTried.Length0, vvTried.Length1);
      if vvTried[nKBucket, nKBucketPos] != -1 {
        var nIdEvict := vvTried[nKBucket, nKBucketPos];
        mapInfo := mapInfo[nIdEvict := mapInfo[nIdEvict].(fInTried := false)];
        Store(vvTried, nKBucket, nKBucketPos, -1);
        nTried := nTried - 1;
        var s := NewSlot(env, mapInfo[nIdEvict].addr.service, mapInfo[nIdEvict].source);
        NewSlotInRange(env, mapInfo[nIdEvict].addr.service, mapInfo[nIdEvict].source);
        ClearNew(s.bucket, s.pos);
        mapInfo := mapInfo[nIdEvict := mapInfo[nIdEvict].(nRefCount := 1)];
        Store(vvNew, s.bucket, s.pos, nIdEvict);
        nNew := nNew + 1;
      }
    }

    method MakeTried(nId: int)
      requires Valid() && NewIndex(env, Abs(), {}) && CanMakeTried(env, Abs(), nId) && nId != -1
      modifies this, vvNew, vvTried
      ensures Abs() == AddrManState.MakeTried(env, old(Abs()), nId)
    {
      var s := TriedSlot(env, mapInfo[nId].addr.service);
      Detach(nId);
      assert mapInfo[nId].nRefCount == 0;
      Evict(s.bucket, s.pos);
      Store(vvTried, s.bucket, s.pos, nId);
      nTried := nTried + 1;
      mapInfo := mapInfo[nId := mapInfo[nId].(fInTried := true)];
    }

    method Find(addr: NetAddr) returns (nId: int)
      requires AddrIndex(Abs()) && IdsBelow(Abs())
      ensures nId != -1 <==> addr in mapAddr
      ensures nId != -1 ==> nId == mapAddr[addr] && nId in mapInfo && mapInfo[nId].addr.service.addr == addr
    {
      if addr !in mapAddr || mapAddr[addr] !in mapInfo {
        return -1;
      }
      nId := mapAddr[addr];
    }

    /** The bucket search of Good_: from any starting bucket it finds a new bucket holding the entry. */
    method FindBucket(nId: int, nRnd: nat) returns (nUBucket: int)
      requires Ok() && nId in mapInfo && !mapInfo[nId].fInTried && nRnd < NEW_BUCKET_COUNT
      ensures 0 <= nUBucket < NEW_BUCKET_COUNT
      ensures var s := NewSlotIn(env, mapInfo[nId].addr.service, nUBucket); s in Table(vvNew) && Table(vvNew)[s] == nId
    {
      nUBucket := -1;
      ghost var s0 := SomeRef(env, Abs(), nId);
      ghost var k := if s0.bucket >= nRnd then s0.bucket - nRnd else s0.bucket + NEW_BUCKET_COUNT - nRnd;
      assert s0 in AllSlots(vvNew.Length0, vvNew.Length1);
      var n := 0;
      while n < NEW_BUCKET_COUNT
        invariant 0 <= n <= k
      {
        var nB := (n + nRnd) % NEW_BUCKET_COUNT;
        var nBpos := BucketPosition(env, true, nB, mapInfo[nId].addr.service);
        if vvNew[nB, nBpos] == nId {
          nUBucket := nB;
          assert Slot(nB, nBpos) in AllSlots(vvNew.Length0, vvNew.Length1);
          return;
        }
        n := n + 1;
      }
      assert false;
    }

    method Good_(addr: Service, nTime: int, nRnd: nat)
      requires Ok() && nRnd < NEW_BUCKET_COUNT
      modifies this, vvNew, vvTried
      ensures Ok() && Abs() == Ops.Good(env, old(Abs()), addr, nTime)
    {
      hide RandomIndex, TriedIndex, NewIndex, Counted, AddrManState.MakeTried, CanMakeTried;
      ghost var was := Abs();
      Ops.GoodCoherent(env, was, addr, nTime);
      nLastGood := nTime;
      var nId := Find(addr.addr);
      if nId == -1 || mapInfo[nId].addr.service != addr {
        return;
      }
      Ops.GoodPrepared(env, was, addr, nTime);
      StampGood(nId, nTime);
      if mapInfo[nId].fInTried {
        return;
      }
      var nUBucket := FindBucket(nId, nRnd);
      if nUBucket == -1 {
        assert false;
      }
      MakeTried(nId);
    }

    method StampGood(nId: int, nTime: int)
      requires nId in mapInfo
      modifies this`mapInfo
      ensures Abs() == Ops.Stamp(old(Abs()), nId, nTime)
    {
      mapInfo := mapInfo[nId := mapInfo[nId].(nLastSuccess := nTime)];
      mapInfo := mapInfo[nId := mapInfo[nId].(nLastTry := nTime)];
      mapInfo := mapInfo[nId := mapInfo[nId].(nAttempts := 0)];
    }

    /** The random test of Add_: an entry with N references passes once in 2^N draws. */
    method PassesDraw(nRefCount: nat, rnd: nat) returns (ok: bool)
      ensures ok == (rnd % Common.Pow2(nRefCount) == 0)
    {
      var nFactor, n := 1, 0;
      while n < nRefCount
        invariant 0 <= n <= nRefCount && nFactor == Common.Pow2(n)
      {
        nFactor := nFactor * 2;
        n := n + 1;
      }
      if nFactor > 1 && Ops.RandomInt(rnd, nFactor) != 0 {
        return false;
      }
      return true;
    }

    /** The part of Add_ that stores the entry in its new bucket. */
    method Place(nId: int, s: Slot, now: int, ghost pending: set<int>)
      requires Valid() && Ops.CanPlace(env, Abs(), nId, s, pending)
      modifies this, vvNew
      ensures Abs() == Ops.Place(env, old(Abs()), nId, s, now, pending)
    {
      assert s in AllSlots(vvNew.Length0, vvNew.Length1);
      if vvNew[s.bucket, s.pos] != nId {
        var fInsert := vvNew[s.bucket, s.pos] == -1;
        if !fInsert {
          var infoExisting := mapInfo[vvNew[s.bucket, s.pos]];
          if IsTerrible(infoExisting, now) || (infoExisting.nRefCount > 1 && mapInfo[nId].nRefCount == 0) {
            fInsert := true;
          }
        }
        if fInsert {
          Ops.TakeCoherent(env, Abs(), nId, s, pending);
          Take(nId, s);
        } else if mapInfo[nId].nRefCount == 0 {
          DeleteCoherent(env, Abs(), nId, pending, 0);
          Delete(nId);
        }
      }
    }

    method Take(nId: int, s: Slot)
      requires Valid() && s.bucket < NEW_BUCKET_COUNT && s.pos < BUCKET_SIZE && nId != -1
      requires CanClear(Abs(), s) && nId in AddrManState.ClearNew(Abs(), s).mapInfo
      modifies this, vvNew
      ensures Abs() == PutRef(AddrManState.ClearNew(old(Abs()), s), s, nId)
    {
      ClearNew(s.bucket, s.pos);
      mapInfo := mapInfo[nId := mapInfo[nId].(nRefCount := mapInfo[nId].nRefCount + 1)];
      Store(vvNew, s.bucket, s.pos, nId);
    }

    /** The entry with its time and services brought up to date. */
    method RefreshInfo(before: Info, addr: Address, penalty: int, now: int) returns (info: Info)
      ensures info == Ops.Refresh(before, addr, penalty, now)
    {
      var nTime := before.addr.nTime;
      var fCurrentlyOnline := now - addr.nTime < 24 * 60 * 60;
      var nUpdateInterval := if fCurrentlyOnline then 60 * 60 else 24 * 60 * 60;
      if addr.nTime != 0 && (nTime == 0 || nTime < addr.nTime - nUpdateInterval - penalty) {
        nTime := ToUint32(Max(0, addr.nTime - penalty));
      }
      var nServices := before.addr.nServices + addr.nServices;
      info := before.(addr := before.addr.(nTime := nTime, nServices := nServices));
    }

    /** Refresh a known entry; returns whether a further reference may be stored. */
    method Update(nId: int, addr: Address, penalty: int, now: int, rnd: nat) returns (more: bool)
      requires addr.service.addr in mapAddr && mapAddr[addr.service.addr] == nId && nId in mapInfo
      requires mapInfo[nId].nRefCount >= 0
      modifies this`mapInfo
      ensures Abs() == Ops.Refreshed(old(Abs()), addr, penalty, now)
      ensures more == Ops.MayAddRef(mapInfo[nId], addr, rnd)
    {
      var info := RefreshInfo(mapInfo[nId], addr, penalty, now);
      mapInfo := mapInfo[nId := info];
      more := MayAddRef(info, addr, rnd);
    }

    method MayAddRef(info: Info, addr: Address, rnd: nat) returns (more: bool)
      requires info.nRefCount >= 0
      ensures more == Ops.MayAddRef(info, addr, rnd)
    {
      if addr.nTime == 0 || (info.addr.nTime != 0 && addr.nTime <= info.addr.nTime) {
        return false;
      }
      if info.fInTried {
        return false;
      }
      if info.nRefCount == NEW_BUCKETS_PER_ADDRESS {
        return false;
      }
      more := PassesDraw(info.nRefCount, rnd);
    }

    method Register(addr: Address, source: NetAddr, penalty: int) returns (nId: int)
      modifies this
      ensures nId == old(nIdCount) && Abs() == Ops.Registered(old(Abs()), addr, source, penalty)
    {
      nId := Create(addr, source);
      mapInfo := mapInfo[nId := mapInfo[nId].(addr := addr.(nTime := ToUint32(Max(0, addr.nTime - penalty))))];
      nNew := nNew + 1;
    }

    method Add_(addr: Address, source: NetAddr, nTimePenalty: int, now: int, rnd: nat) returns (fNew: bool)
      requires Ok()
      modifies this, vvNew
      ensures Ok() && (Abs(), fNew) == Ops.Add(env, old(Abs()), addr, source, nTimePenalty, now, rnd)
    {
      hide RandomIndex, TriedIndex, Counted;
      ghost var was := Abs();
      Ops.AddCoherent(env, was, addr, source, nTimePenalty, now, rnd);
      if !env.isRoutable(addr.service) {
        return false;
      }
      fNew := false;
      var nId := Find(addr.service.addr);
      var penalty := nTimePenalty;
      if addr.service.addr == source {
        penalty := 0;
      }
      ghost var pending := {};
      if nId != -1 {
        Ops.RefreshedCoherent(env, was, addr, penalty, now);
        var more := Update(nId, addr, penalty, now, rnd);
        if !more {
          return false;
        }
      } else {
        Ops.RegisteredCoherent(env, was, addr, source, penalty);
        nId := Register(addr, source, penalty);
        pending := {nId};
        fNew := true;
      }
      Place(nId, NewSlot(env, mapInfo[nId].addr.service, source), now, pending);
    }

    method Attempt_(addr: Service, fCountFailure: bool, nTime: int)
      requires Ok()
      modifies this`mapInfo
      ensures Ok() && Abs() == Ops.Attempt(old(Abs()), addr, fCountFailure, nTime)
    {
      hide IdsBelow, AddrIndex, RandomIndex, TriedIndex, NewIndex, Counted;
      Ops.AttemptCoherent(env, Abs(), addr, fCountFailure, nTime);
      var nId := Find(addr.addr);
      if nId == -1 || mapInfo[nId].addr.service != addr {
        return;
      }
      var info := mapInfo[nId].(nLastTry := nTime);
      if fCountFailure && info.nLastCountAttempt < nLastGood {
        info := info.(nLastCountAttempt := nTime);
        info := info.(nAttempts := info.nAttempts + 1);
      }
      mapInfo := mapInfo[nId := info];
    }

    method Connected_(addr: Service, nTime: int)
      requires Ok()
      modifies this`mapInfo
      ensures Ok() && Abs() == Ops.Connected(old(Abs()), addr, nTime)
    {
      hide IdsBelow, AddrIndex, RandomIndex, TriedIndex, NewIndex, Counted;
      Ops.ConnectedCoherent(env, Abs(), addr, nTime);
      var nId := Find(addr.addr);
      if nId == -1 || mapInfo[nId].addr.service != addr {
        return;
      }
      var info := mapInfo[nId];
      var nUpdateInterval := 20 * 60;
      if nTime - info.addr.nTime > nUpdateInterval {
        mapInfo := mapInfo[nId := info.(addr := info.addr.(nTime := ToUint32(nTime)))];
      }
    }

    method SetServices_(addr: Service, nServices: set<nat>)
      requires Ok()
      modifies this`mapInfo
      ensures Ok() && Abs() == Ops.SetServices(old(Abs()), addr, nServices)
    {
      hide IdsBelow, AddrIndex, RandomIndex, TriedIndex, NewIndex, Counted;
      Ops.SetServicesCoherent(env, Abs(), addr, nServices);
      var nId := Find(addr.addr);
      if nId == -1 || mapInfo[nId].addr.service != addr {
        return;
      }
      var info := mapInfo[nId];
      mapInfo := mapInfo[nId := info.(addr := info.addr.(nServices := nServices))];
    }

    method DrawAt(n: nat, rnd: nat)
      requires RandomIndex(Abs()) && n < |vRandom|
      modifies this
      ensures Abs() == Ops.Draw(old(Abs()), n, rnd)
    {
      var nRndPos := Ops.RandomInt(rnd, |vRandom| - n) + n;
      SwapRandomIndex(Abs(), n, nRndPos);
      SwapRandom(n, nRndPos);
    }

    method GetAddr_(rnd: nat -> nat, now: int) returns (vAddr: seq<Address>)
      requires Ok()
      modifies this
      ensures Ok() && (Abs(), vAddr) == Ops.GetAddr(old(Abs()), rnd, now)
    {
      ghost var was := Abs();
      Ops.GetAddrCoherent(env, was, rnd, now);
      var nNodes := Ops.GetAddrLimit(|vRandom|);
      vAddr := [];
      var n := 0;
      while n < |vRandom|
        invariant RandomIndex(Abs()) && 0 <= n <= |vRandom|
        invariant Ops.GetAddrFrom(Abs(), n, nNodes, rnd, now, vAddr) == Ops.GetAddr(was, rnd, now)
      {
        if |vAddr| >= nNodes {
          break;
        }
        DrawAt(n, rnd(n));
        var ai := mapInfo[vRandom[n]];
        if !IsTerrible(ai, now) {
          vAddr := vAddr + [ai.addr];
        }
        n := n + 1;
      }
    }
  }

  /** A slot referring to an untried entry. */
  ghost function SomeRef(env: Env, st: State, id: int): (s: Slot)
    requires Coherent(env, st, {}, 0) && id in st.mapInfo && !st.mapInfo[id].fInTried
    ensures s in st.newTable && st.newTable[s] == id
    ensures s.bucket < NEW_BUCKET_COUNT && s == NewSlotIn(env, st.mapInfo[id].addr.service, s.bucket)
  {
    assert Refs(st.newTable, id) != {};
    var s :| s in Refs(st.newTable, id);
    s
  }

  ghost function Unref(t: map<Slot, int>, s: Slot, id: int): map<Slot, int> {
    if s in t && t[s] == id then t - {s} else t
  }

  ghost function Uncount(t: map<Slot, int>, s: Slot, m: map<int, Info>, id: int): map<int, Info>
    requires id in m
  {
    if s in t && t[s] == id then WithRefs(m, id, m[id].nRefCount - 1) else m
  }

  function WithRefs(m: map<int, Info>, id: int, n: int): map<int, Info>
    requires id in m
  {
    m[id := m[id].(nRefCount := n)]
  }

  /** The slots referring to `id` in the first `n` buckets. */
  ghost function Below(st: State, id: int, n: nat): set<Slot> {
    set s | s in Refs(st.newTable, id) && s.bucket < n
  }

  ghost function Cut(st: State, id: int, n: nat): map<Slot, int> {
    st.newTable - Below(st, id, n)
  }

  ghost function Uncounted(st: State, id: int, n: nat): map<int, Info>
    requires id in st.mapInfo
  {
    WithRefs(st.mapInfo, id, st.mapInfo[id].nRefCount - |Below(st, id, n)|)
  }

  lemma BelowStep(env: Env, st: State, id: int, b: nat)
    requires NewIndex(env, st, {}) && id in st.mapInfo
    ensures var s := NewSlotIn(env, st.mapInfo[id].addr.service, b);
            && s !in Below(st, id, b)
            && Below(st, id, b + 1) ==
                 if s in st.newTable && st.newTable[s] == id then Below(st, id, b) + {s} else Below(st, id, b)
  {}

  lemma CutStep(st: State, id: int, b: nat, s: Slot)
    requires id in st.mapInfo && s !in Below(st, id, b)
    requires Below(st, id, b + 1) ==
               if s in st.newTable && st.newTable[s] == id then Below(st, id, b) + {s} else Below(st, id, b)
    ensures Cut(st, id, b + 1) == Unref(Cut(st, id, b), s, id)
    ensures Uncounted(st, id, b + 1) == Uncount(Cut(st, id, b), s, Uncounted(st, id, b), id)
  {}

  lemma DetachStep(env: Env, st: State, id: int, b: nat, s: Slot)
    requires NewIndex(env, st, {}) && id in st.mapInfo
    requires s == NewSlotIn(env, st.mapInfo[id].addr.service, b)
    ensures id in Uncounted(st, id, b) && Uncounted(st, id, b)[id].addr.service == st.mapInfo[id].addr.service
    ensures Cut(st, id, b + 1) == Unref(Cut(st, id, b), s, id)
    ensures Uncounted(st, id, b + 1) == Uncount(Cut(st, id, b), s, Uncounted(st, id, b), id)
  {
    BelowStep(env, st, id, b);
    CutStep(st, id, b, s);
  }

  lemma DetachEnds(env: Env, st: State, id: int)
    requires NewIndex(env, st, {}) && id in st.mapInfo
    ensures Cut(st, id, 0) == st.newTable && Uncounted(st, id, 0) == st.mapInfo
    ensures Cut(st, id, NEW_BUCKET_COUNT) == AddrManState.Detach(st, id).newTable
    ensures Uncounted(st, id, NEW_BUCKET_COUNT) == AddrManState.Detach(st, id).mapInfo
  {
    assert Below(st, id, 0) == {};
    assert Below(st, id, NEW_BUCKET_COUNT) == Refs(st.newTable, id);
  }
}
