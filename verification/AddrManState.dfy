/** The address manager as a value: the state of CAddrMan and each of its internal
    operations as a function from state to state. The class in AddrMan.dfy performs the
    same operations in place and is proved to compute these functions. */
module AddrManState {

  const TRIED_BUCKET_COUNT: nat := 256
  const NEW_BUCKET_COUNT: nat := 1024
  const BUCKET_SIZE: nat := 64
  const TRIED_BUCKETS_PER_GROUP: nat := 8
  const NEW_BUCKETS_PER_SOURCE_GROUP: nat := 64
  const NEW_BUCKETS_PER_ADDRESS: nat := 8
  const HORIZON_DAYS: nat := 30
  const RETRIES: nat := 3
  const MAX_FAILURES: nat := 10
  const MIN_FAIL_DAYS: nat := 7
  const GETADDR_MAX_PCT: nat := 23
  const GETADDR_MAX: nat := 2500
  const DAY: nat := 86400

  datatype NetAddr = NetAddr(ip: nat)

  datatype Service = Service(addr: NetAddr, port: nat)

  /** Service flags are kept as the set of their bits. */
  datatype Address = Address(service: Service, nServices: set<nat>, nTime: nat)

  /** What is fed to the keyed hash, in the order the bucket computations feed it. */
  datatype Preimage =
    | TriedKey(key: nat, service: Service)
    | TriedGroup(key: nat, group: nat, spread: nat)
    | NewGroups(key: nat, group: nat, sourceGroup: nat)
    | NewSource(key: nat, sourceGroup: nat, spread: nat)
    | Position(key: nat, inNew: bool, bucket: nat, service: Service)

  /** The secret key and the functions that are uninterpreted here: the cheap 64-bit hash,
      the network group of an address and the routability test. */
  datatype Env = Env(nKey: nat, cheapHash: Preimage -> nat, group: NetAddr -> nat, isRoutable: Service -> bool)

  datatype Slot = Slot(bucket: nat, pos: nat)

  datatype Info = Info(
    addr: Address,
    source: NetAddr,
    nLastTry: int,
    nLastCountAttempt: int,
    nLastSuccess: int,
    nAttempts: int,
    nRefCount: int,
    fInTried: bool,
    nRandomPos: int
  )

  /** Empty table slots (-1 in the arrays) are absent keys here. */
  datatype State = State(
    nIdCount: nat,
    mapInfo: map<int, Info>,
    mapAddr: map<NetAddr, int>,
    vRandom: seq<int>,
    nTried: int,
    triedTable: map<Slot, int>,
    nNew: int,
    newTable: map<Slot, int>,
    nLastGood: int
  )

  // ----- bucket computations

  function TriedBucket(env: Env, svc: Service): (b: nat)
    ensures b < TRIED_BUCKET_COUNT
  {
    var hash1 := env.cheapHash(TriedKey(env.nKey, svc));
    env.cheapHash(TriedGroup(env.nKey, env.group(svc.addr), hash1 % TRIED_BUCKETS_PER_GROUP)) % TRIED_BUCKET_COUNT
  }

  function NewBucket(env: Env, svc: Service, src: NetAddr): (b: nat)
    ensures b < NEW_BUCKET_COUNT
  {
    var hash1 := env.cheapHash(NewGroups(env.nKey, env.group(svc.addr), env.group(src)));
    env.cheapHash(NewSource(env.nKey, env.group(src), hash1 % NEW_BUCKETS_PER_SOURCE_GROUP)) % NEW_BUCKET_COUNT
  }

  function BucketPosition(env: Env, inNew: bool, bucket: nat, svc: Service): (p: nat)
    ensures p < BUCKET_SIZE
  {
    env.cheapHash(Position(env.nKey, inNew, bucket, svc)) % BUCKET_SIZE
  }

  function TriedSlot(env: Env, svc: Service): Slot {
    var b := TriedBucket(env, svc);
    Slot(b, BucketPosition(env, false, b, svc))
  }

  /** The one slot of new bucket `b` an address can occupy. */
  function NewSlotIn(env: Env, svc: Service, b: nat): Slot {
    Slot(b, BucketPosition(env, true, b, svc))
  }

  function NewSlot(env: Env, svc: Service, src: NetAddr): Slot {
    NewSlotIn(env, svc, NewBucket(env, svc, src))
  }

  lemma NewSlotInRange(env: Env, svc: Service, source: NetAddr)
    ensures NewSlot(env, svc, source).bucket < NEW_BUCKET_COUNT && NewSlot(env, svc, source).pos < BUCKET_SIZE
  {}

  predicate IsTerrible(info: Info, nNow: int) {
    if info.nLastTry != 0 && info.nLastTry >= nNow - 60 then false
    else if info.addr.nTime > nNow + 10 * 60 then true
    else if info.addr.nTime == 0 || nNow - info.addr.nTime > HORIZON_DAYS * DAY then true
    else if info.nLastSuccess == 0 && info.nAttempts >= RETRIES then true
    else nNow - info.nLastSuccess > MIN_FAIL_DAYS * DAY && info.nAttempts >= MAX_FAILURES
  }

  function ToUint32(x: int): nat {
    x % 0x1_0000_0000
  }

  function Max(a: int, b: int): int {
    if a < b then b else a
  }

  // ----- the invariant

  ghost function Refs(t: map<Slot, int>, id: int): set<Slot> {
    set s | s in t && t[s] == id
  }

  ghost function IdsWith(info: map<int, Info>, inTried: bool): set<int> {
    set id | id in info && info[id].fInTried == inTried
  }

  ghost predicate IdsBelow(st: State) {
    forall id | id in st.mapInfo :: 0 <= id < st.nIdCount
  }

  /** mapAddr and mapInfo are inverse to each other. */
  ghost predicate AddrIndex(st: State) {
    && (forall id | id in st.mapInfo ::
          var a := st.mapInfo[id].addr.service.addr; a in st.mapAddr && st.mapAddr[a] == id)
    && (forall a | a in st.mapAddr ::
          st.mapAddr[a] in st.mapInfo && st.mapInfo[st.mapAddr[a]].addr.service.addr == a)
  }

  /** vRandom lists every id once, and each entry knows its place in it. */
  ghost predicate RandomIndex(st: State) {
    && (forall id | id in st.mapInfo ::
          var p := st.mapInfo[id].nRandomPos; 0 <= p < |st.vRandom| && st.vRandom[p] == id)
    && (forall i | 0 <= i < |st.vRandom| ::
          st.vRandom[i] in st.mapInfo && st.mapInfo[st.vRandom[i]].nRandomPos == i)
  }

  ghost predicate TriedIndex(env: Env, st: State) {
    && (forall s | s in st.triedTable ::
          var id := st.triedTable[s];
          id in st.mapInfo && st.mapInfo[id].fInTried && s == TriedSlot(env, st.mapInfo[id].addr.service))
    && (forall id | id in st.mapInfo && st.mapInfo[id].fInTried ::
          var s := TriedSlot(env, st.mapInfo[id].addr.service); s in st.triedTable && st.triedTable[s] == id)
  }

  /** Entries of `pending` may be waiting for their first reference. */
  ghost predicate NewIndex(env: Env, st: State, pending: set<int>) {
    && (forall s | s in st.newTable ::
          var id := st.newTable[s];
          && id in st.mapInfo && !st.mapInfo[id].fInTried
          && s.bucket < NEW_BUCKET_COUNT && s == NewSlotIn(env, st.mapInfo[id].addr.service, s.bucket))
    && (forall id | id in st.mapInfo ::
          && st.mapInfo[id].nRefCount == |Refs(st.newTable, id)| <= NEW_BUCKETS_PER_ADDRESS
          && (!st.mapInfo[id].fInTried && id !in pending ==> st.mapInfo[id].nRefCount >= 1))
  }

  ghost predicate Counted(st: State, skew: int) {
    && st.nTried == |IdsWith(st.mapInfo, true)|
    && st.nNew + skew == |IdsWith(st.mapInfo, false)|
  }

  ghost predicate Stamped(st: State) {
    forall id | id in st.mapInfo ::
      var info := st.mapInfo[id];
      info.nLastTry >= 0 && info.nLastSuccess >= 0 && (info.fInTried ==> info.nLastSuccess > 0)
  }

  /** The agreement of the six structures, relaxed by the entries still waiting for a reference and by how
      far nNew lags behind the number of entries outside the tried table. */
  ghost predicate Coherent(env: Env, st: State, pending: set<int>, skew: int) {
    && IdsBelow(st) && AddrIndex(st) && RandomIndex(st)
    && TriedIndex(env, st) && NewIndex(env, st, pending)
    && Counted(st, skew)
  }

  /** The conditions CAddrMan::Check_ tests, with both directions of the address and random indexes. */
  ghost predicate Consistent(env: Env, st: State) {
    Coherent(env, st, {}, 0) && Stamped(st)
  }

  // ----- operations

  const EmptyState := State(0, map[], map[], [], 0, map[], 0, map[], 1)

  function Create(st: State, addr: Address, source: NetAddr): State {
    var id := st.nIdCount;
    st.(nIdCount := id + 1,
        mapInfo := st.mapInfo[id := Info(addr, source, 0, 0, 0, 0, 0, false, |st.vRandom|)],
        mapAddr := st.mapAddr[addr.service.addr := id],
        vRandom := st.vRandom + [id])
  }

  predicate CanSwap(st: State, p: int, q: int) {
    0 <= p < |st.vRandom| && 0 <= q < |st.vRandom| && st.vRandom[p] in st.mapInfo && st.vRandom[q] in st.mapInfo
  }

  function SwapRandom(st: State, p: int, q: int): State
    requires CanSwap(st, p, q)
  {
    if p == q then st
    else
      var id1, id2 := st.vRandom[p], st.vRandom[q];
      var m := st.mapInfo[id1 := st.mapInfo[id1].(nRandomPos := q)];
      st.(mapInfo := m[id2 := m[id2].(nRandomPos := p)], vRandom := st.vRandom[p := id2][q := id1])
  }

  predicate CanDelete(st: State, id: int) {
    && id in st.mapInfo && !st.mapInfo[id].fInTried && st.mapInfo[id].nRefCount == 0
    && CanSwap(st, st.mapInfo[id].nRandomPos, |st.vRandom| - 1)
  }

  function Delete(st: State, id: int): State
    requires CanDelete(st, id)
  {
    var st1 := SwapRandom(st, st.mapInfo[id].nRandomPos, |st.vRandom| - 1);
    st1.(vRandom := st1.vRandom[..|st1.vRandom| - 1],
         mapAddr := st1.mapAddr - {st1.mapInfo[id].addr.service.addr},
         mapInfo := st1.mapInfo - {id},
         nNew := st1.nNew - 1)
  }

  /** The part of ClearNew before the possible deletion. */
  function DropRef(st: State, s: Slot): State
    requires s in st.newTable && st.newTable[s] in st.mapInfo
  {
    var id := st.newTable[s];
    st.(mapInfo := st.mapInfo[id := st.mapInfo[id].(nRefCount := st.mapInfo[id].nRefCount - 1)],
        newTable := st.newTable - {s})
  }

  predicate CanClear(st: State, s: Slot) {
    s in st.newTable ==>
      var id := st.newTable[s];
      && id in st.mapInfo && st.mapInfo[id].nRefCount > 0
      && (st.mapInfo[id].nRefCount == 1 ==> CanDelete(DropRef(st, s), id))
  }

  function ClearNew(st: State, s: Slot): State
    requires CanClear(st, s)
  {
    if s !in st.newTable then st
    else
      var id := st.newTable[s];
      var st1 := DropRef(st, s);
      if st1.mapInfo[id].nRefCount == 0 then Delete(st1, id) else st1
  }

  /** Put a further reference to `id` into the free new slot `s`. */
  function PutRef(st: State, s: Slot, id: int): State
    requires id in st.mapInfo
  {
    st.(mapInfo := st.mapInfo[id := st.mapInfo[id].(nRefCount := st.mapInfo[id].nRefCount + 1)],
        newTable := st.newTable[s := id])
  }

  /** Remove `id` from every new bucket; it is then counted in neither table. */
  function Detach(st: State, id: int): State
    requires id in st.mapInfo
  {
    st.(mapInfo := st.mapInfo[id := st.mapInfo[id].(nRefCount := 0)],
        newTable := map s | s in st.newTable && st.newTable[s] != id :: st.newTable[s],
        nNew := st.nNew - 1)
  }

  /** Take the occupant of a tried slot out of the tried table. */
  function Untry(st: State, s: Slot): State
    requires s in st.triedTable && st.triedTable[s] in st.mapInfo
  {
    var id := st.triedTable[s];
    st.(mapInfo := st.mapInfo[id := st.mapInfo[id].(fInTried := false)],
        triedTable := st.triedTable - {s},
        nTried := st.nTried - 1)
  }

  function EvictSlot(env: Env, st: State, s: Slot): Slot
    requires s in st.triedTable && st.triedTable[s] in st.mapInfo
  {
    var info := st.mapInfo[st.triedTable[s]];
    NewSlot(env, info.addr.service, info.source)
  }

  predicate CanEvict(env: Env, st: State, s: Slot) {
    s in st.triedTable ==>
      && st.triedTable[s] in st.mapInfo
      && CanClear(Untry(st, s), EvictSlot(env, st, s))
      && st.triedTable[s] in ClearNew(Untry(st, s), EvictSlot(env, st, s)).mapInfo
  }

  /** Move the occupant of tried slot `s`, if any, back to the new table. */
  function Evict(env: Env, st: State, s: Slot): State
    requires CanEvict(env, st, s)
  {
    if s !in st.triedTable then st
    else
      var id := st.triedTable[s];
      var st1 := ClearNew(Untry(st, s), EvictSlot(env, st, s));
      st1.(mapInfo := st1.mapInfo[id := st1.mapInfo[id].(nRefCount := 1)],
           newTable := st1.newTable[EvictSlot(env, st, s) := id],
           nNew := st1.nNew + 1)
  }

  /** Put `id` into the free tried slot `s`. */
  function Enter(st: State, s: Slot, id: int): State
    requires id in st.mapInfo
  {
    st.(mapInfo := st.mapInfo[id := st.mapInfo[id].(fInTried := true)],
        triedTable := st.triedTable[s := id],
        nTried := st.nTried + 1)
  }

  predicate CanMakeTried(env: Env, st: State, id: int) {
    && id in st.mapInfo
    && var s := TriedSlot(env, st.mapInfo[id].addr.service);
      CanEvict(env, Detach(st, id), s) && id in Evict(env, Detach(st, id), s).mapInfo
  }

  function MakeTried(env: Env, st: State, id: int): State
    requires CanMakeTried(env, st, id)
  {
    var s := TriedSlot(env, st.mapInfo[id].addr.service);
    Enter(Evict(env, Detach(st, id), s), s, id)
  }

  // ----- the steps keep the invariant

  lemma RefsInsert(t: map<Slot, int>, s: Slot, id: int)
    requires s !in t
    ensures Refs(t[s := id], id) == Refs(t, id) + {s} && |Refs(t[s := id], id)| == |Refs(t, id)| + 1
    ensures forall k | k != id :: Refs(t[s := id], k) == Refs(t, k)
  {
    assert Refs(t[s := id], id) == Refs(t, id) + {s};
  }

  lemma RefsRemove(t: map<Slot, int>, s: Slot)
    requires s in t
    ensures Refs(t - {s}, t[s]) == Refs(t, t[s]) - {s} && |Refs(t - {s}, t[s])| == |Refs(t, t[s])| - 1
    ensures forall k | k != t[s] :: Refs(t - {s}, k) == Refs(t, k)
  {
    assert Refs(t - {s}, t[s]) == Refs(t, t[s]) - {s};
  }

  lemma IdsAdd(m: map<int, Info>, id: int, info: Info)
    requires id !in m
    ensures |IdsWith(m[id := info], info.fInTried)| == |IdsWith(m, info.fInTried)| + 1
    ensures IdsWith(m[id := info], !info.fInTried) == IdsWith(m, !info.fInTried)
  {
    assert IdsWith(m[id := info], info.fInTried) == IdsWith(m, info.fInTried) + {id};
  }

  lemma IdsRemove(m: map<int, Info>, id: int)
    requires id in m
    ensures |IdsWith(m - {id}, m[id].fInTried)| == |IdsWith(m, m[id].fInTried)| - 1
    ensures IdsWith(m - {id}, !m[id].fInTried) == IdsWith(m, !m[id].fInTried)
  {
    assert IdsWith(m - {id}, m[id].fInTried) == IdsWith(m, m[id].fInTried) - {id};
  }

  lemma IdsFlip(m: map<int, Info>, id: int, info: Info)
    requires id in m && m[id].fInTried != info.fInTried
    ensures |IdsWith(m[id := info], info.fInTried)| == |IdsWith(m, info.fInTried)| + 1
    ensures |IdsWith(m[id := info], !info.fInTried)| == |IdsWith(m, !info.fInTried)| - 1
  {
    assert IdsWith(m[id := info], info.fInTried) == IdsWith(m, info.fInTried) + {id};
    assert IdsWith(m[id := info], !info.fInTried) == IdsWith(m, !info.fInTried) - {id};
  }

  // What two info maps share, in the terms of the invariant's parts.

  ghost predicate SameService(m: map<int, Info>, m': map<int, Info>) {
    m'.Keys == m.Keys && forall id | id in m :: m'[id].addr.service == m[id].addr.service
  }

  ghost predicate SamePlace(m: map<int, Info>, m': map<int, Info>) {
    m'.Keys == m.Keys && forall id | id in m :: m'[id].nRandomPos == m[id].nRandomPos
  }

  ghost predicate SameTable(m: map<int, Info>, m': map<int, Info>) {
    m'.Keys == m.Keys && forall id | id in m :: m'[id].fInTried == m[id].fInTried
  }

  ghost predicate SameRefs(m: map<int, Info>, m': map<int, Info>) {
    m'.Keys == m.Keys && forall id | id in m :: m'[id].nRefCount == m[id].nRefCount
  }

  lemma SameTableIds(m: map<int, Info>, m': map<int, Info>, b: bool)
    requires SameTable(m, m')
    ensures IdsWith(m', b) == IdsWith(m, b)
  {
    forall id ensures id in IdsWith(m', b) <==> id in IdsWith(m, b) {
      assert id in m' <==> id in m'.Keys;
      assert id in m <==> id in m.Keys;
    }
  }

  lemma AddrFrame(st: State, st': State)
    requires IdsBelow(st) && AddrIndex(st)
    requires SameService(st.mapInfo, st'.mapInfo)
    requires st'.nIdCount == st.nIdCount && st'.mapAddr == st.mapAddr
    ensures IdsBelow(st') && AddrIndex(st')
  {}

  lemma RandomFrame(st: State, st': State)
    requires RandomIndex(st)
    requires SamePlace(st.mapInfo, st'.mapInfo) && st'.vRandom == st.vRandom
    ensures RandomIndex(st')
  {}

  lemma TriedFrame(env: Env, st: State, st': State)
    requires TriedIndex(env, st)
    requires SameService(st.mapInfo, st'.mapInfo) && SameTable(st.mapInfo, st'.mapInfo)
    requires st'.triedTable == st.triedTable
    ensures TriedIndex(env, st')
  {}

  lemma NewFrame(env: Env, st: State, st': State, pending: set<int>)
    requires NewIndex(env, st, pending)
    requires SameService(st.mapInfo, st'.mapInfo) && SameTable(st.mapInfo, st'.mapInfo)
    requires SameRefs(st.mapInfo, st'.mapInfo) && st'.newTable == st.newTable
    ensures NewIndex(env, st', pending)
  {}

  lemma CountFrame(st: State, st': State, skew: int)
    requires Counted(st, skew) && SameTable(st.mapInfo, st'.mapInfo)
    requires st'.nTried == st.nTried && st'.nNew == st.nNew
    ensures Counted(st', skew)
  {
    SameTableIds(st.mapInfo, st'.mapInfo, true);
    SameTableIds(st.mapInfo, st'.mapInfo, false);
  }

  // Create

  lemma CreateIndexes(st: State, addr: Address, source: NetAddr)
    requires IdsBelow(st) && AddrIndex(st) && RandomIndex(st)
    requires addr.service.addr !in st.mapAddr
    ensures var st' := Create(st, addr, source); IdsBelow(st') && AddrIndex(st') && RandomIndex(st')
  {
    hide RandomIndex;
    CreateRandom(st, addr, source);
  }

  lemma CreateRandom(st: State, addr: Address, source: NetAddr)
    requires IdsBelow(st) && RandomIndex(st)
    ensures RandomIndex(Create(st, addr, source))
  {}

  lemma CreateTables(env: Env, st: State, addr: Address, source: NetAddr)
    requires IdsBelow(st) && TriedIndex(env, st) && NewIndex(env, st, {})
    ensures var st' := Create(st, addr, source); TriedIndex(env, st') && NewIndex(env, st', {st.nIdCount})
  {
    assert Refs(st.newTable, st.nIdCount) == {};
  }

  lemma CreateCoherent(env: Env, st: State, addr: Address, source: NetAddr)
    requires Coherent(env, st, {}, 0)
    requires addr.service.addr !in st.mapAddr
    ensures Coherent(env, Create(st, addr, source), {st.nIdCount}, 1)
  {
    var st' := Create(st, addr, source);
    hide AddrIndex, RandomIndex, TriedIndex, NewIndex;
    CreateIndexes(st, addr, source);
    CreateTables(env, st, addr, source);
    IdsAdd(st.mapInfo, st.nIdCount, st'.mapInfo[st.nIdCount]);
  }

  // SwapRandom

  lemma SwapShape(st: State, p: int, q: int)
    requires CanSwap(st, p, q)
    ensures var m, m' := st.mapInfo, SwapRandom(st, p, q).mapInfo;
            SameService(m, m') && SameTable(m, m') && SameRefs(m, m')
    ensures var st' := SwapRandom(st, p, q); st' == st.(mapInfo := st'.mapInfo, vRandom := st'.vRandom)
  {
    if p != q {
      var m, m' := st.mapInfo, SwapRandom(st, p, q).mapInfo;
      assert m'.Keys == m.Keys;
      forall id | id in m ensures m'[id].(nRandomPos := 0) == m[id].(nRandomPos := 0) {}
    }
  }

  lemma SwapRandomIndex(st: State, p: int, q: int)
    requires RandomIndex(st)
    requires 0 <= p < |st.vRandom| && 0 <= q < |st.vRandom|
    ensures CanSwap(st, p, q) && RandomIndex(SwapRandom(st, p, q))
  {
    if p != q {
      var st' := SwapRandom(st, p, q);
      var id1, id2 := st.vRandom[p], st.vRandom[q];
      assert id1 != id2;
      forall id | id in st'.mapInfo
        ensures var r := st'.mapInfo[id].nRandomPos; 0 <= r < |st'.vRandom| && st'.vRandom[r] == id
      {
        assert id in st.mapInfo;
      }
    }
  }

  lemma ReorderFrame(env: Env, st: State, st': State, pending: set<int>, skew: int)
    requires Coherent(env, st, pending, skew) && RandomIndex(st')
    requires SameService(st.mapInfo, st'.mapInfo) && SameTable(st.mapInfo, st'.mapInfo)
    requires SameRefs(st.mapInfo, st'.mapInfo)
    requires st' == st.(mapInfo := st'.mapInfo, vRandom := st'.vRandom)
    ensures Coherent(env, st', pending, skew)
  {
    hide IdsBelow, AddrIndex, RandomIndex, TriedIndex, NewIndex, Counted;
    AddrFrame(st, st');
    TriedFrame(env, st, st');
    NewFrame(env, st, st', pending);
    CountFrame(st, st', skew);
  }

  lemma SwapCoherent(env: Env, st: State, p: int, q: int, pending: set<int>, skew: int)
    requires Coherent(env, st, pending, skew)
    requires 0 <= p < |st.vRandom| && 0 <= q < |st.vRandom|
    ensures CanSwap(st, p, q) && Coherent(env, SwapRandom(st, p, q), pending, skew)
  {
    hide IdsBelow, AddrIndex, RandomIndex, TriedIndex, NewIndex, Counted;
    SwapRandomIndex(st, p, q);
    SwapShape(st, p, q);
    ReorderFrame(env, st, SwapRandom(st, p, q), pending, skew);
  }

  // Delete

  lemma PopIndexes(st: State, st': State, id: int)
    requires IdsBelow(st) && AddrIndex(st) && RandomIndex(st)
    requires id in st.mapInfo && st.mapInfo[id].nRandomPos == |st.vRandom| - 1
    requires st'.nIdCount == st.nIdCount && st'.vRandom == st.vRandom[..|st.vRandom| - 1]
    requires st'.mapInfo == st.mapInfo - {id} && st'.mapAddr == st.mapAddr - {st.mapInfo[id].addr.service.addr}
    ensures IdsBelow(st') && AddrIndex(st') && RandomIndex(st')
  {}

  lemma PopTables(env: Env, st: State, st': State, id: int, pending: set<int>)
    requires TriedIndex(env, st) && NewIndex(env, st, pending)
    requires id in st.mapInfo && !st.mapInfo[id].fInTried && st.mapInfo[id].nRefCount == 0
    requires st'.mapInfo == st.mapInfo - {id} && st'.triedTable == st.triedTable && st'.newTable == st.newTable
    ensures TriedIndex(env, st') && NewIndex(env, st', pending - {id})
  {
    assert Refs(st.newTable, id) == {};
    forall s | s in st.newTable ensures st.newTable[s] != id {
      assert st.newTable[s] == id ==> s in Refs(st.newTable, id);
    }
  }

  lemma DeleteCoherent(env: Env, st: State, id: int, pending: set<int>, skew: int)
    requires Coherent(env, st, pending, skew)
    requires id in st.mapInfo && !st.mapInfo[id].fInTried && st.mapInfo[id].nRefCount == 0
    ensures CanDelete(st, id)
    ensures Coherent(env, Delete(st, id), pending - {id}, skew)
  {
    SwapCoherent(env, st, st.mapInfo[id].nRandomPos, |st.vRandom| - 1, pending, skew);
    var st1 := SwapRandom(st, st.mapInfo[id].nRandomPos, |st.vRandom| - 1);
    var st' := Delete(st, id);
    PopIndexes(st1, st', id);
    PopTables(env, st1, st', id, pending);
    IdsRemove(st1.mapInfo, id);
  }

  // ClearNew

  lemma DropRefNewIndex(env: Env, st: State, s: Slot, pending: set<int>)
    requires NewIndex(env, st, pending) && s in st.newTable
    ensures NewIndex(env, DropRef(st, s), pending + {st.newTable[s]})
    ensures st.mapInfo[st.newTable[s]].nRefCount > 0
  {
    assert s in Refs(st.newTable, st.newTable[s]);
    RefsRemove(st.newTable, s);
  }

  lemma DropRefCoherent(env: Env, st: State, s: Slot, pending: set<int>, skew: int)
    requires Coherent(env, st, pending, skew)
    requires s in st.newTable
    ensures Coherent(env, DropRef(st, s), pending + {st.newTable[s]}, skew)
    ensures st.mapInfo[st.newTable[s]].nRefCount > 0
  {
    var st' := DropRef(st, s);
    hide IdsBelow, AddrIndex, RandomIndex, TriedIndex, NewIndex, Counted;
    AddrFrame(st, st');
    RandomFrame(st, st');
    TriedFrame(env, st, st');
    DropRefNewIndex(env, st, s, pending);
    CountFrame(st, st', skew);
  }

  lemma ShrinkPending(env: Env, st: State, id: int, pending: set<int>, skew: int)
    requires Coherent(env, st, pending, skew)
    requires id in st.mapInfo && st.mapInfo[id].nRefCount >= 1
    ensures Coherent(env, st, pending - {id}, skew)
  {}

  lemma ClearNewCoherent(env: Env, st: State, s: Slot, pending: set<int>, skew: int)
    requires Coherent(env, st, pending, skew)
    requires s in st.newTable ==> st.newTable[s] !in pending
    ensures CanClear(st, s)
    ensures Coherent(env, ClearNew(st, s), pending, skew)
    ensures s !in ClearNew(st, s).newTable
  {
    hide IdsBelow, AddrIndex, RandomIndex, TriedIndex, Counted;
    if s in st.newTable {
      var id := st.newTable[s];
      DropRefCoherent(env, st, s, pending, skew);
      var st1 := DropRef(st, s);
      assert pending + {id} - {id} == pending;
      if st1.mapInfo[id].nRefCount == 0 {
        DeleteCoherent(env, st1, id, pending + {id}, skew);
      } else {
        ShrinkPending(env, st1, id, pending + {id}, skew);
      }
    }
  }

  /** Equal except for the place in vRandom. */
  predicate SameInfo(a: Info, b: Info) {
    a == b.(nRandomPos := a.nRandomPos)
  }

  lemma SwapKeeps(st: State, p: int, q: int, k: int)
    requires CanSwap(st, p, q) && k in st.mapInfo
    ensures k in SwapRandom(st, p, q).mapInfo && SameInfo(SwapRandom(st, p, q).mapInfo[k], st.mapInfo[k])
  {}

  /** Clearing a slot disturbs no entry but its occupant. */
  lemma ClearNewKeeps(st: State, s: Slot, k: int)
    requires CanClear(st, s) && k in st.mapInfo
    requires s in st.newTable ==> st.newTable[s] != k
    ensures k in ClearNew(st, s).mapInfo && SameInfo(ClearNew(st, s).mapInfo[k], st.mapInfo[k])
  {
    if s in st.newTable {
      var id := st.newTable[s];
      var st1 := DropRef(st, s);
      if st1.mapInfo[id].nRefCount == 0 {
        SwapKeeps(st1, st1.mapInfo[id].nRandomPos, |st1.vRandom| - 1, k);
      }
    }
  }

  lemma NotReferenced(env: Env, st: State, id: int, pending: set<int>, s: Slot)
    requires NewIndex(env, st, pending)
    requires id in st.mapInfo && st.mapInfo[id].nRefCount == 0
    requires s in st.newTable
    ensures st.newTable[s] != id
  {
    assert Refs(st.newTable, id) == {};
    assert st.newTable[s] == id ==> s in Refs(st.newTable, id);
  }

  // PutRef

  lemma PutRefNewIndex(env: Env, st: State, s: Slot, id: int, pending: set<int>)
    requires NewIndex(env, st, pending)
    requires id in st.mapInfo && !st.mapInfo[id].fInTried && st.mapInfo[id].nRefCount < NEW_BUCKETS_PER_ADDRESS
    requires s !in st.newTable && s.bucket < NEW_BUCKET_COUNT
    requires s == NewSlotIn(env, st.mapInfo[id].addr.service, s.bucket)
    ensures NewIndex(env, PutRef(st, s, id), pending - {id})
  {
    RefsInsert(st.newTable, s, id);
    var st' := PutRef(st, s, id);
    forall k | k in st'.mapInfo
      ensures st'.mapInfo[k].nRefCount == |Refs(st'.newTable, k)| <= NEW_BUCKETS_PER_ADDRESS
    {
      assert k != id ==> Refs(st'.newTable, k) == Refs(st.newTable, k);
    }
  }

  lemma PutRefCoherent(env: Env, st: State, s: Slot, id: int, pending: set<int>, skew: int)
    requires Coherent(env, st, pending, skew)
    requires id in st.mapInfo && !st.mapInfo[id].fInTried && st.mapInfo[id].nRefCount < NEW_BUCKETS_PER_ADDRESS
    requires s !in st.newTable && s.bucket < NEW_BUCKET_COUNT
    requires s == NewSlotIn(env, st.mapInfo[id].addr.service, s.bucket)
    ensures Coherent(env, PutRef(st, s, id), pending - {id}, skew)
  {
    hide IdsBelow, AddrIndex, RandomIndex, TriedIndex, NewIndex, Counted;
    var st' := PutRef(st, s, id);
    AddrFrame(st, st');
    RandomFrame(st, st');
    TriedFrame(env, st, st');
    PutRefNewIndex(env, st, s, id, pending);
    CountFrame(st, st', skew);
  }

  // MakeTried

  lemma DetachNewIndex(env: Env, st: State, id: int)
    requires NewIndex(env, st, {}) && id in st.mapInfo
    ensures NewIndex(env, Detach(st, id), {id})
  {
    var t := Detach(st, id).newTable;
    assert Refs(t, id) == {};
    forall k | k != id ensures Refs(t, k) == Refs(st.newTable, k) {}
  }

  lemma DetachCoherent(env: Env, st: State, id: int)
    requires Coherent(env, st, {}, 0) && id in st.mapInfo
    ensures Coherent(env, Detach(st, id), {id}, 1)
  {
    hide IdsBelow, AddrIndex, RandomIndex, TriedIndex, NewIndex;
    var st' := Detach(st, id);
    AddrFrame(st, st');
    RandomFrame(st, st');
    TriedFrame(env, st, st');
    DetachNewIndex(env, st, id);
    CountFrame(st, st'.(nNew := st.nNew), 0);
  }

  lemma UntryTables(env: Env, st: State, s: Slot, pending: set<int>)
    requires TriedIndex(env, st) && NewIndex(env, st, pending)
    requires s in st.triedTable
    ensures TriedIndex(env, Untry(st, s)) && NewIndex(env, Untry(st, s), pending + {st.triedTable[s]})
    ensures st.mapInfo[st.triedTable[s]].nRefCount == 0
  {
    var id := st.triedTable[s];
    assert Refs(st.newTable, id) == {};
  }

  lemma UntryCoherent(env: Env, st: State, s: Slot, pending: set<int>, skew: int)
    requires Coherent(env, st, pending, skew)
    requires s in st.triedTable
    ensures Coherent(env, Untry(st, s), pending + {st.triedTable[s]}, skew + 1)
    ensures st.mapInfo[st.triedTable[s]].nRefCount == 0
  {
    var id := st.triedTable[s];
    var st' := Untry(st, s);
    hide IdsBelow, AddrIndex, RandomIndex, TriedIndex, NewIndex;
    AddrFrame(st, st');
    RandomFrame(st, st');
    UntryTables(env, st, s, pending);
    IdsFlip(st.mapInfo, id, st'.mapInfo[id]);
  }

  lemma EvictFinish(env: Env, st: State, id: int, k: int)
    requires Coherent(env, st, {id} + {k} - {k}, 2) && id != k
    ensures Coherent(env, st.(nNew := st.nNew + 1), {id}, 1)
  {
    assert {id} + {k} - {k} == {id};
  }

  /** Clearing the new slot of a waiting entry `k` and giving it to `k`. */
  lemma Resettle(env: Env, st: State, ns: Slot, id: int, k: int)
    requires Coherent(env, st, {id} + {k}, 2) && id != k
    requires forall j | j in {id, k} :: j in st.mapInfo && !st.mapInfo[j].fInTried && st.mapInfo[j].nRefCount == 0
    requires ns.bucket < NEW_BUCKET_COUNT && ns == NewSlotIn(env, st.mapInfo[k].addr.service, ns.bucket)
    ensures CanClear(st, ns)
    ensures var st' := ClearNew(st, ns);
            && k in st'.mapInfo && st'.mapInfo[k].nRefCount == 0
            && id in st'.mapInfo && SameInfo(st'.mapInfo[id], st.mapInfo[id])
            && Coherent(env, PutRef(st', ns, k), {id} + {k} - {k}, 2)
  {
    if ns in st.newTable {
      NotReferenced(env, st, id, {id} + {k}, ns);
      NotReferenced(env, st, k, {id} + {k}, ns);
    }
    ClearNewCoherent(env, st, ns, {id} + {k}, 2);
    ClearNewKeeps(st, ns, k);
    ClearNewKeeps(st, ns, id);
    PutRefCoherent(env, ClearNew(st, ns), ns, k, {id} + {k}, 2);
  }

  lemma EvictUnfold(env: Env, st: State, s: Slot, id: int)
    requires CanEvict(env, st, s) && s in st.triedTable && st.triedTable[s] != id
    requires var st1 := ClearNew(Untry(st, s), EvictSlot(env, st, s));
             st1.mapInfo[st.triedTable[s]].nRefCount == 0 && id in st1.mapInfo
    ensures var st1 := ClearNew(Untry(st, s), EvictSlot(env, st, s));
            var st2 := PutRef(st1, EvictSlot(env, st, s), st.triedTable[s]);
            && Evict(env, st, s) == st2.(nNew := st2.nNew + 1)
            && st2.mapInfo[id] == st1.mapInfo[id]
            && st2.triedTable == st.triedTable - {s}
  {}

  lemma EvictCoherent(env: Env, st: State, s: Slot, id: int)
    requires Coherent(env, st, {id}, 1)
    requires id in st.mapInfo && !st.mapInfo[id].fInTried && st.mapInfo[id].nRefCount == 0
    ensures CanEvict(env, st, s)
    ensures Coherent(env, Evict(env, st, s), {id}, 1)
    ensures s !in Evict(env, st, s).triedTable
    ensures id in Evict(env, st, s).mapInfo && SameInfo(Evict(env, st, s).mapInfo[id], st.mapInfo[id])
  {
    hide IdsBelow, AddrIndex, RandomIndex, NewIndex, Counted;
    if s in st.triedTable {
      var k := st.triedTable[s];
      var ns := EvictSlot(env, st, s);
      UntryCoherent(env, st, s, {id}, 1);
      var st1 := Untry(st, s);
      Resettle(env, st1, ns, id, k);
      EvictUnfold(env, st, s, id);
      EvictFinish(env, PutRef(ClearNew(st1, ns), ns, k), id, k);
    }
  }

  lemma EnterTables(env: Env, st: State, s: Slot, id: int)
    requires TriedIndex(env, st) && NewIndex(env, st, {id})
    requires id in st.mapInfo && !st.mapInfo[id].fInTried && st.mapInfo[id].nRefCount == 0
    requires s !in st.triedTable && s == TriedSlot(env, st.mapInfo[id].addr.service)
    ensures TriedIndex(env, Enter(st, s, id)) && NewIndex(env, Enter(st, s, id), {})
  {
    forall t | t in st.newTable ensures st.newTable[t] != id {
      NotReferenced(env, st, id, {id}, t);
    }
  }

  lemma EnterCoherent(env: Env, st: State, s: Slot, id: int)
    requires Coherent(env, st, {id}, 1)
    requires id in st.mapInfo && !st.mapInfo[id].fInTried && st.mapInfo[id].nRefCount == 0
    requires s !in st.triedTable && s == TriedSlot(env, st.mapInfo[id].addr.service)
    ensures Coherent(env, Enter(st, s, id), {}, 0)
  {
    hide IdsBelow, AddrIndex, RandomIndex, TriedIndex, NewIndex;
    var st' := Enter(st, s, id);
    AddrFrame(st, st');
    RandomFrame(st, st');
    EnterTables(env, st, s, id);
    IdsFlip(st.mapInfo, id, st'.mapInfo[id]);
  }

  lemma MakeTriedCoherent(env: Env, st: State, id: int)
    requires Coherent(env, st, {}, 0)
    requires id in st.mapInfo && !st.mapInfo[id].fInTried
    ensures CanMakeTried(env, st, id)
    ensures Coherent(env, MakeTried(env, st, id), {}, 0)
  {
    var s := TriedSlot(env, st.mapInfo[id].addr.service);
    DetachCoherent(env, st, id);
    EvictCoherent(env, Detach(st, id), s, id);
    EnterCoherent(env, Evict(env, Detach(st, id), s), s, id);
  }
}
