/** The address manager's own consistency check, and what it establishes. */
module AddrManCheck {
  import Common
  import opened AddrManState
  import opened AddrManImage
  import opened AddrMan
  import Ops = AddrManOps

  /** A lookup in the address map; an absent address reads as id 0. */
  function Lookup(m: map<NetAddr, int>, a: NetAddr): int {
    if a in m then m[a] else 0
  }

  /** What the check asks of one entry. */
  predicate EntryPasses(st: State, id: int)
    requires id in st.mapInfo
  {
    var info := st.mapInfo[id];
    && (if info.fInTried then info.nLastSuccess != 0 && info.nRefCount == 0
        else 1 <= info.nRefCount <= NEW_BUCKETS_PER_ADDRESS)
    && Lookup(st.mapAddr, info.addr.service.addr) == id
    && 0 <= info.nRandomPos < |st.vRandom| && st.vRandom[info.nRandomPos] == id
    && info.nLastTry >= 0 && info.nLastSuccess >= 0
  }

  /** Every slot of the new table holds an entry that belongs there, and every new entry has its references. */
  ghost predicate NewPasses(env: Env, st: State) {
    && (forall s | s in st.newTable :: NewSlotPasses(env, st, s))
    && forall id | id in st.mapInfo && !st.mapInfo[id].fInTried ::
         |Refs(st.newTable, id)| == st.mapInfo[id].nRefCount
  }

  predicate NewSlotPasses(env: Env, st: State, s: Slot)
    requires s in st.newTable
  {
    var id := st.newTable[s];
    id in st.mapInfo && !st.mapInfo[id].fInTried && s == NewSlotIn(env, st.mapInfo[id].addr.service, s.bucket)
  }

  predicate TriedSlotPasses(env: Env, st: State, s: Slot)
    requires s in st.triedTable
  {
    var id := st.triedTable[s];
    id in st.mapInfo && st.mapInfo[id].fInTried && s == TriedSlot(env, st.mapInfo[id].addr.service)
  }

  ghost predicate Passes(env: Env, st: State) {
    && |st.vRandom| == st.nTried + st.nNew
    && (forall id | id in st.mapInfo :: EntryPasses(st, id))
    && Counted(st, 0)
    && TriedIndex(env, st) && NewPasses(env, st)
    && env.nKey != 0
  }

  // What passing means

  lemma ConsistentNew(env: Env, st: State)
    requires NewIndex(env, st, {})
    ensures NewPasses(env, st)
    ensures forall id | id in st.mapInfo :: st.mapInfo[id].nRefCount <= NEW_BUCKETS_PER_ADDRESS
    ensures forall id | id in st.mapInfo ::
              if st.mapInfo[id].fInTried then st.mapInfo[id].nRefCount == 0 else st.mapInfo[id].nRefCount >= 1
  {
    hide NewSlotIn;
    NewHaveRefs(env, st);
  }

  /** As many places in the random order as entries. */
  lemma RandomCount(st: State)
    requires RandomIndex(st) && Counted(st, 0)
    ensures |st.vRandom| == st.nTried + st.nNew
  {
    var a, b := IdsWith(st.mapInfo, true), IdsWith(st.mapInfo, false);
    var all := set id | id in st.vRandom;
    forall id | id in all
      ensures id in a + b
    {
    }
    forall id | id in a + b
      ensures id in all
    {
      assert st.vRandom[st.mapInfo[id].nRandomPos] == id;
    }
    assert all == a + b && a !! b;
    forall i, j | 0 <= i < j < |st.vRandom|
      ensures st.vRandom[i] != st.vRandom[j]
    {
    }
    CountDifferent(st.vRandom);
  }

  /** A consistent manager passes its own check. */
  lemma ConsistentPasses(env: Env, st: State)
    requires Consistent(env, st) && env.nKey != 0
    ensures Passes(env, st)
  {
    hide TriedIndex, NewIndex, NewPasses, Counted;
    RandomCount(st);
    ConsistentNew(env, st);
  }

  /** The check passes in every state that a run of the public operations can reach. */
  lemma RunPasses(env: Env, ops: seq<Ops.Op>, states: seq<State>, n: nat)
    requires Ops.IsRun(env, ops, states) && n < |states| && env.nKey != 0
    ensures Passes(env, states[n])
  {
    hide Consistent, Passes;
    Ops.RunConsistent(env, ops, states, n);
    ConsistentPasses(env, states[n]);
  }

  lemma PassesNew(env: Env, st: State)
    requires NewPasses(env, st) && forall id | id in st.mapInfo :: EntryPasses(st, id)
    requires forall s | s in st.newTable :: s.bucket < NEW_BUCKET_COUNT
    ensures NewIndex(env, st, {})
  {
    hide NewSlotIn, Lookup;
    forall id | id in st.mapInfo && st.mapInfo[id].fInTried
      ensures |Refs(st.newTable, id)| == 0
    {
      forall s | s in st.newTable
        ensures st.newTable[s] != id
      {
        assert NewSlotPasses(env, st, s);
      }
      assert Refs(st.newTable, id) == {};
    }
    forall s | s in st.newTable
      ensures st.newTable[s] in st.mapInfo && !st.mapInfo[st.newTable[s]].fInTried
              && s == NewSlotIn(env, st.mapInfo[st.newTable[s]].addr.service, s.bucket)
    {
      assert NewSlotPasses(env, st, s);
    }
  }

  /** Entries that each know a place of their own in an order no longer than their number fill it. */
  lemma PassesRandom(st: State)
    requires Counted(st, 0) && |st.vRandom| == st.nTried + st.nNew
    requires forall id | id in st.mapInfo :: EntryPasses(st, id)
    ensures RandomIndex(st)
  {
    hide Lookup;
    var a, b := IdsWith(st.mapInfo, true), IdsWith(st.mapInfo, false);
    assert a !! b;
    PlacesCount(st, a + b);
    FillsRange(PlacesOf(st, a + b), Range(0, |st.vRandom|));
    forall i | 0 <= i < |st.vRandom|
      ensures st.vRandom[i] in st.mapInfo && st.mapInfo[st.vRandom[i]].nRandomPos == i
    {
      assert i in PlacesOf(st, a + b);
    }
  }

  /** The places of the given entries in the random order. */
  ghost function PlacesOf(st: State, ids: set<int>): set<int>
    requires ids <= st.mapInfo.Keys
  {
    set i | 0 <= i < |st.vRandom| && st.vRandom[i] in ids && st.mapInfo[st.vRandom[i]].nRandomPos == i
  }

  lemma {:induction false} PlacesCount(st: State, ids: set<int>)
    requires ids <= st.mapInfo.Keys && forall id | id in st.mapInfo :: EntryPasses(st, id)
    ensures |PlacesOf(st, ids)| == |ids|
  {
    hide Lookup;
    if ids != {} {
      var id := SomeId(ids);
      PlacesCount(st, ids - {id});
      assert EntryPasses(st, id);
      assert PlacesOf(st, ids) == PlacesOf(st, ids - {id}) + {st.mapInfo[id].nRandomPos};
    }
  }

  lemma SomeId<T>(ids: set<T>) returns (id: T)
    requires ids != {}
    ensures id in ids
  {
    id :| id in ids;
  }

  lemma FillsRange(places: set<int>, all: set<int>)
    requires places <= all && |places| == |all|
    ensures places == all
  {
    if places < all {
      assert |all - places| == |all| - |places|;
    }
  }

  /** Passing the check is consistency, once ids stay below the counter and the address map has no stray entries. */
  lemma PassesConsistent(env: Env, st: State)
    requires Passes(env, st) && IdsBelow(st)
    requires forall s | s in st.newTable :: s.bucket < NEW_BUCKET_COUNT
    requires forall id | id in st.mapInfo :: st.mapInfo[id].addr.service.addr in st.mapAddr
    requires forall a | a in st.mapAddr ::
               st.mapAddr[a] in st.mapInfo && st.mapInfo[st.mapAddr[a]].addr.service.addr == a
    ensures Consistent(env, st)
  {
    hide TriedIndex, NewIndex, NewPasses, Counted, RandomIndex;
    PassesNew(env, st);
    PassesRandom(st);
    forall id | id in st.mapInfo
      ensures EntryPasses(st, id)
    {
    }
  }

  // The check itself

  /** The table slots before position i of bucket n pass, and the tried ids not among them are left over. */
  ghost predicate TriedSeen(env: Env, st: State, left: set<int>, n: nat, i: nat) {
    && (forall s | s in st.triedTable && Before(s, n, i) :: TriedSlotPasses(env, st, s))
    && forall id :: id in left <==> id in st.mapInfo && st.mapInfo[id].fInTried
                                    && forall s | s in st.triedTable && Before(s, n, i) :: st.triedTable[s] != id
  }

  lemma TriedNext(env: Env, st: State, left: set<int>, n: nat, i: nat)
    requires TriedSeen(env, st, left, n, i)
    ensures Slot(n, i) !in st.triedTable ==> TriedSeen(env, st, left, n, i + 1)
    ensures Slot(n, i) in st.triedTable && TriedSlotPasses(env, st, Slot(n, i)) ==>
              TriedSeen(env, st, left - {st.triedTable[Slot(n, i)]}, n, i + 1)
  {
    hide TriedSlotPasses;
    forall s
      ensures Before(s, n, i + 1) <==> Before(s, n, i) || s == Slot(n, i)
    {
    }
  }

  /** A slot whose entry is not left over spoils the table, whether the entry is no tried one or was seen before. */
  lemma TriedNotLeft(env: Env, st: State, left: set<int>, n: nat, i: nat)
    requires TriedSeen(env, st, left, n, i) && Slot(n, i) in st.triedTable && st.triedTable[Slot(n, i)] !in left
    ensures !TriedIndex(env, st)
  {
    hide TriedSlot;
    var s := Slot(n, i);
    var id := st.triedTable[s];
    if id in st.mapInfo && st.mapInfo[id].fInTried {
      var s' :| s' in st.triedTable && Before(s', n, i) && st.triedTable[s'] == id;
      assert TriedSlotPasses(env, st, s');
    }
  }

  lemma TriedFails(env: Env, st: State, s: Slot)
    requires s in st.triedTable && !TriedSlotPasses(env, st, s)
    ensures !TriedIndex(env, st)
  {
    hide TriedSlot;
  }

  lemma TriedAll(env: Env, st: State, left: set<int>)
    requires TriedSeen(env, st, left, TRIED_BUCKET_COUNT, 0)
    requires forall s | s in st.triedTable :: s.bucket < TRIED_BUCKET_COUNT
    ensures left == {} <==> TriedIndex(env, st)
  {
    hide TriedSlot;
    if left == {} {
      forall id | id in st.mapInfo && st.mapInfo[id].fInTried
        ensures var s := TriedSlot(env, st.mapInfo[id].addr.service); s in st.triedTable && st.triedTable[s] == id
      {
        assert id !in left;
        var s :| s in st.triedTable && Before(s, TRIED_BUCKET_COUNT, 0) && st.triedTable[s] == id;
        assert TriedSlotPasses(env, st, s);
      }
      forall s | s in st.triedTable
        ensures TriedSlotPasses(env, st, s)
      {
      }
    } else {
      var id := SomeId(left);
      assert id in st.mapInfo && st.mapInfo[id].fInTried;
    }
  }

  /** The references to an entry in the slots before position i of bucket n. */
  ghost function SeenRefs(t: map<Slot, int>, id: int, n: nat, i: nat): set<Slot> {
    set s | s in t && t[s] == id && Before(s, n, i)
  }

  ghost predicate NewSeen(env: Env, st: State, left: map<int, int>, n: nat, i: nat) {
    && (forall s | s in st.newTable && Before(s, n, i) :: NewSlotPasses(env, st, s))
    && (forall id :: id in left <==> id in st.mapInfo && !st.mapInfo[id].fInTried
                                     && st.mapInfo[id].nRefCount != |SeenRefs(st.newTable, id, n, i)|)
    && forall id | id in left ::
         left[id] == st.mapInfo[id].nRefCount - |SeenRefs(st.newTable, id, n, i)| && left[id] > 0
  }

  lemma SeenNext(t: map<Slot, int>, id: int, n: nat, i: nat)
    ensures SeenRefs(t, id, n, i + 1)
         == if Slot(n, i) in t && t[Slot(n, i)] == id then SeenRefs(t, id, n, i) + {Slot(n, i)}
            else SeenRefs(t, id, n, i)
    ensures Slot(n, i) !in SeenRefs(t, id, n, i)
    ensures SeenRefs(t, id, n, i) <= Refs(t, id)
  {
  }

  /** What is left after one more slot. */
  function OneLess(left: map<int, int>, id: int): map<int, int>
    requires id in left
  {
    if left[id] == 1 then left - {id} else left[id := left[id] - 1]
  }

  lemma NewNext(env: Env, st: State, left: map<int, int>, n: nat, i: nat)
    requires NewSeen(env, st, left, n, i)
    ensures Slot(n, i) !in st.newTable ==> NewSeen(env, st, left, n, i + 1)
    ensures Slot(n, i) in st.newTable && NewSlotPasses(env, st, Slot(n, i)) && st.newTable[Slot(n, i)] in left ==>
              NewSeen(env, st, OneLess(left, st.newTable[Slot(n, i)]), n, i + 1)
  {
    hide NewSlotPasses, SeenRefs;
    forall s
      ensures Before(s, n, i + 1) <==> Before(s, n, i) || s == Slot(n, i)
    {
    }
    forall id
      ensures |SeenRefs(st.newTable, id, n, i + 1)| == |SeenRefs(st.newTable, id, n, i)|
              + if Slot(n, i) in st.newTable && st.newTable[Slot(n, i)] == id then 1 else 0
    {
      SeenNext(st.newTable, id, n, i);
    }
  }

  lemma NewNotLeft(env: Env, st: State, left: map<int, int>, n: nat, i: nat)
    requires NewSeen(env, st, left, n, i) && Slot(n, i) in st.newTable && st.newTable[Slot(n, i)] !in left
    ensures !NewPasses(env, st)
  {
    var s := Slot(n, i);
    var id := st.newTable[s];
    if NewPasses(env, st) {
      assert NewSlotPasses(env, st, s);
      SeenNext(st.newTable, id, n, i);
      Common.SubsetSize(SeenRefs(st.newTable, id, n, i) + {s}, Refs(st.newTable, id));
    }
  }

  lemma NewAll(env: Env, st: State, left: map<int, int>)
    requires NewSeen(env, st, left, NEW_BUCKET_COUNT, 0)
    requires forall s | s in st.newTable :: s.bucket < NEW_BUCKET_COUNT
    ensures |left| == 0 <==> NewPasses(env, st)
  {
    hide NewSlotPasses;
    forall id
      ensures SeenRefs(st.newTable, id, NEW_BUCKET_COUNT, 0) == Refs(st.newTable, id)
    {
    }
    if |left| == 0 {
      assert left == map[];
      forall id | id in st.mapInfo && !st.mapInfo[id].fInTried
        ensures |Refs(st.newTable, id)| == st.mapInfo[id].nRefCount
      {
        assert id !in left;
      }
    } else {
      var id := SomeId(left.Keys);
      assert id in left;
    }
  }

  /** Checks one entry. Reading an absent address enters it with id 0. */
  method CheckEntry(m: Manager, n: int) returns (code: int)
    requires n in m.mapInfo
    modifies m`mapAddr
    ensures code == 0 <==> EntryPasses(old(m.Abs()), n)
    ensures forall a :: Lookup(m.mapAddr, a) == Lookup(old(m.mapAddr), a)
    ensures m.mapInfo[n].addr.service.addr in old(m.mapAddr) ==> m.mapAddr == old(m.mapAddr)
  {
    var info := m.mapInfo[n];
    if info.fInTried {
      if info.nLastSuccess == 0 {
        return -1;
      }
      if info.nRefCount != 0 {
        return -2;
      }
    } else {
      if info.nRefCount < 0 || info.nRefCount > NEW_BUCKETS_PER_ADDRESS {
        return -3;
      }
      if info.nRefCount == 0 {
        return -4;
      }
    }
    if info.addr.service.addr !in m.mapAddr {
      m.mapAddr := m.mapAddr[info.addr.service.addr := 0];
    }
    if m.mapAddr[info.addr.service.addr] != n {
      return -5;
    }
    if info.nRandomPos < 0 || info.nRandomPos >= |m.vRandom| || m.vRandom[info.nRandomPos] != n {
      return -14;
    }
    if info.nLastTry < 0 {
      return -6;
    }
    if info.nLastSuccess < 0 {
      return -8;
    }
    return 0;
  }

  ghost function TriedIn(info: map<int, Info>, done: set<int>): set<int> {
    set id | id in info && id in done && info[id].fInTried
  }

  ghost function NewIn(info: map<int, Info>, done: set<int>): map<int, int> {
    map id | id in info && id in done && !info[id].fInTried :: info[id].nRefCount
  }

  /** The tried entries, and the new ones with their reference counts. */
  ghost predicate Tally(info: map<int, Info>, done: set<int>, setTried: set<int>, mapNew: map<int, int>) {
    setTried == TriedIn(info, done) && mapNew == NewIn(info, done)
  }

  lemma SameEntry(st: State, st': State, id: int)
    requires id in st.mapInfo && st' == st.(mapAddr := st'.mapAddr)
    requires forall a :: Lookup(st.mapAddr, a) == Lookup(st'.mapAddr, a)
    ensures EntryPasses(st, id) == EntryPasses(st', id)
  {
    hide Lookup;
  }

  lemma NoTally(info: map<int, Info>)
    ensures Tally(info, {}, {}, map[])
  {
  }

  lemma TallyNext(info: map<int, Info>, done: set<int>, setTried: set<int>, mapNew: map<int, int>, n: int)
    requires Tally(info, done, setTried, mapNew) && n in info && n !in done
    ensures if info[n].fInTried then Tally(info, done + {n}, setTried + {n}, mapNew)
            else Tally(info, done + {n}, setTried, mapNew[n := info[n].nRefCount])
  {
  }

  lemma Known(st: State, id: int)
    requires id in st.mapInfo
    ensures AddrIndex(st) ==> st.mapInfo[id].addr.service.addr in st.mapAddr
  {
  }

  method CheckEntries(m: Manager) returns (code: int, setTried: set<int>, mapNew: map<int, int>)
    requires m.Valid()
    modifies m`mapAddr
    ensures code == 0 <==> forall id | id in m.mapInfo :: EntryPasses(old(m.Abs()), id)
    ensures code == 0 ==> Tally(m.mapInfo, m.mapInfo.Keys, setTried, mapNew)
    ensures AddrIndex(old(m.Abs())) ==> m.mapAddr == old(m.mapAddr)
  {
    hide EntryPasses, Lookup, Tally, AddrIndex;
    ghost var was := m.Abs();
    NoTally(m.mapInfo);
    setTried, mapNew := {}, map[];
    var todo := m.mapInfo.Keys;
    ghost var done: set<int> := {};
    while todo != {}
      invariant done + todo == m.mapInfo.Keys && done !! todo
      invariant forall a :: Lookup(m.mapAddr, a) == Lookup(was.mapAddr, a)
      invariant AddrIndex(was) ==> m.mapAddr == was.mapAddr
      invariant forall id | id in done :: id in m.mapInfo && EntryPasses(was, id)
      invariant Tally(m.mapInfo, done, setTried, mapNew)
      decreases |todo|
    {
      ghost var some := SomeId(todo);
      var n: int :| n in todo;
      SameEntry(was, m.Abs(), n);
      TallyNext(m.mapInfo, done, setTried, mapNew, n);
      Known(was, n);
      code := CheckEntry(m, n);
      if code != 0 {
        return;
      }
      if m.mapInfo[n].fInTried {
        setTried := setTried + {n};
      } else {
        mapNew := mapNew[n := m.mapInfo[n].nRefCount];
      }
      todo, done := todo - {n}, done + {n};
    }
    assert done == m.mapInfo.Keys;
    code := 0;
  }

  method CheckTriedTable(m: Manager, setTried: set<int>) returns (code: int, left: set<int>)
    requires m.Valid() && forall id :: id in setTried <==> id in m.mapInfo && m.mapInfo[id].fInTried
    ensures code == 0 && left == {} <==> TriedIndex(m.env, m.Abs())
  {
    hide TriedSlotPasses, TriedIndex, TriedSeen, BucketPosition, TriedBucket;
    ghost var st := m.Abs();
    left := setTried;
    TriedStart(m.env, st, left);
    var n := 0;
    while n < TRIED_BUCKET_COUNT
      invariant 0 <= n <= TRIED_BUCKET_COUNT && TriedSeen(m.env, st, left, n, 0)
    {
      var i := 0;
      while i < BUCKET_SIZE
        invariant 0 <= i <= BUCKET_SIZE && TriedSeen(m.env, st, left, n, i)
      {
        var s := Slot(n, i);
        assert s in AllSlots(m.vvTried.Length0, m.vvTried.Length1);
        TriedNext(m.env, st, left, n, i);
        if m.vvTried[n, i] != -1 {
          code := CheckTriedSlot(m, left, n, i);
          if code != 0 {
            return code, left;
          }
          left := left - {m.vvTried[n, i]};
        }
        i := i + 1;
      }
      TriedBucketDone(m.env, st, left, n);
      n := n + 1;
    }
    TriedAll(m.env, st, left);
    code := 0;
  }

  lemma TriedStart(env: Env, st: State, left: set<int>)
    requires forall id :: id in left <==> id in st.mapInfo && st.mapInfo[id].fInTried
    ensures TriedSeen(env, st, left, 0, 0)
  {
  }

  lemma TriedBucketDone(env: Env, st: State, left: set<int>, n: nat)
    requires TriedSeen(env, st, left, n, BUCKET_SIZE) && forall s | s in st.triedTable :: s.pos < BUCKET_SIZE
    ensures TriedSeen(env, st, left, n + 1, 0)
  {
    hide TriedSlotPasses;
    assert forall s | s in st.triedTable :: Before(s, n, BUCKET_SIZE) <==> Before(s, n + 1, 0);
  }

  method CheckTriedSlot(m: Manager, left: set<int>, n: nat, i: nat) returns (code: int)
    requires m.Valid() && n < TRIED_BUCKET_COUNT && i < BUCKET_SIZE && Slot(n, i) in Table(m.vvTried)
    requires TriedSeen(m.env, m.Abs(), left, n, i)
    ensures code == 0 ==> m.vvTried[n, i] in left && TriedSlotPasses(m.env, m.Abs(), Slot(n, i))
    ensures code != 0 ==> !TriedIndex(m.env, m.Abs())
  {
    hide TriedIndex, BucketPosition, TriedBucket;
    ghost var st, s := m.Abs(), Slot(n, i);
    var id := m.vvTried[n, i];
    if id !in left {
      TriedNotLeft(m.env, st, left, n, i);
      return -11;
    }
    if TriedBucket(m.env, m.mapInfo[id].addr.service) != n {
      TriedFails(m.env, st, s);
      return -17;
    }
    if BucketPosition(m.env, false, n, m.mapInfo[id].addr.service) != i {
      TriedFails(m.env, st, s);
      return -18;
    }
    return 0;
  }

  method CheckNewTable(m: Manager, mapNew: map<int, int>) returns (code: int, left: map<int, int>)
    requires m.Valid()
    requires forall id :: id in mapNew <==> id in m.mapInfo && !m.mapInfo[id].fInTried
    requires forall id | id in mapNew :: mapNew[id] == m.mapInfo[id].nRefCount && mapNew[id] > 0
    ensures code == 0 && |left| == 0 <==> NewPasses(m.env, m.Abs())
  {
    hide NewSlotPasses, NewPasses, NewSeen, BucketPosition;
    ghost var st := m.Abs();
    left := mapNew;
    NewStart(m.env, st, left);
    var n := 0;
    while n < NEW_BUCKET_COUNT
      invariant 0 <= n <= NEW_BUCKET_COUNT && NewSeen(m.env, st, left, n, 0)
    {
      var i := 0;
      while i < BUCKET_SIZE
        invariant 0 <= i <= BUCKET_SIZE && NewSeen(m.env, st, left, n, i)
      {
        var s := Slot(n, i);
        assert s in AllSlots(m.vvNew.Length0, m.vvNew.Length1);
        NewNext(m.env, st, left, n, i);
        if m.vvNew[n, i] != -1 {
          code := CheckNewSlot(m, left, n, i);
          if code != 0 {
            return code, left;
          }
          left := OneLess(left, m.vvNew[n, i]);
        }
        i := i + 1;
      }
      NewBucketDone(m.env, st, left, n);
      n := n + 1;
    }
    NewAll(m.env, st, left);
    code := 0;
  }

  lemma NewStart(env: Env, st: State, left: map<int, int>)
    requires forall id :: id in left <==> id in st.mapInfo && !st.mapInfo[id].fInTried
    requires forall id | id in left :: left[id] == st.mapInfo[id].nRefCount && left[id] > 0
    ensures NewSeen(env, st, left, 0, 0)
  {
    forall id
      ensures SeenRefs(st.newTable, id, 0, 0) == {}
    {
    }
  }

  lemma NewBucketDone(env: Env, st: State, left: map<int, int>, n: nat)
    requires NewSeen(env, st, left, n, BUCKET_SIZE) && forall s | s in st.newTable :: s.pos < BUCKET_SIZE
    ensures NewSeen(env, st, left, n + 1, 0)
  {
    hide NewSlotPasses;
    assert forall s | s in st.newTable :: Before(s, n, BUCKET_SIZE) <==> Before(s, n + 1, 0);
    forall id
      ensures SeenRefs(st.newTable, id, n + 1, 0) == SeenRefs(st.newTable, id, n, BUCKET_SIZE)
    {
    }
  }

  method CheckNewSlot(m: Manager, left: map<int, int>, n: nat, i: nat) returns (code: int)
    requires m.Valid() && n < NEW_BUCKET_COUNT && i < BUCKET_SIZE && Slot(n, i) in Table(m.vvNew)
    requires NewSeen(m.env, m.Abs(), left, n, i)
    ensures code == 0 ==> m.vvNew[n, i] in left && NewSlotPasses(m.env, m.Abs(), Slot(n, i))
    ensures code != 0 ==> !NewPasses(m.env, m.Abs())
  {
    hide BucketPosition;
    ghost var st, s := m.Abs(), Slot(n, i);
    var id := m.vvNew[n, i];
    if id !in left {
      NewNotLeft(m.env, st, left, n, i);
      return -12;
    }
    if BucketPosition(m.env, true, n, m.mapInfo[id].addr.service) != i {
      assert !NewSlotPasses(m.env, st, s);
      return -19;
    }
    return 0;
  }

  lemma TallyCounts(st: State, setTried: set<int>, mapNew: map<int, int>)
    requires Tally(st.mapInfo, st.mapInfo.Keys, setTried, mapNew)
    ensures |setTried| == st.nTried && |mapNew| == st.nNew <==> Counted(st, 0)
  {
    assert TriedIn(st.mapInfo, st.mapInfo.Keys) == IdsWith(st.mapInfo, true);
    assert NewIn(st.mapInfo, st.mapInfo.Keys).Keys == IdsWith(st.mapInfo, false);
    assert |mapNew| == |mapNew.Keys|;
  }

  lemma TallyRefs(st: State, setTried: set<int>, mapNew: map<int, int>)
    requires Tally(st.mapInfo, st.mapInfo.Keys, setTried, mapNew)
    requires forall id | id in st.mapInfo :: EntryPasses(st, id)
    ensures forall id :: id in setTried <==> id in st.mapInfo && st.mapInfo[id].fInTried
    ensures forall id :: id in mapNew <==> id in st.mapInfo && !st.mapInfo[id].fInTried
    ensures forall id | id in mapNew :: mapNew[id] == st.mapInfo[id].nRefCount && mapNew[id] > 0
  {
    forall id | id in mapNew
      ensures mapNew[id] == st.mapInfo[id].nRefCount && mapNew[id] > 0
    {
      assert EntryPasses(st, id);
    }
  }

  /** The manager's consistency check: zero exactly when everything it looks at agrees. */
  method Check_(m: Manager) returns (code: int)
    requires m.Valid()
    modifies m`mapAddr
    ensures code == 0 <==> Passes(m.env, old(m.Abs()))
    ensures AddrIndex(old(m.Abs())) ==> m.mapAddr == old(m.mapAddr)
  {
    hide EntryPasses, TriedIndex, NewPasses, Counted, Tally, AddrIndex;
    ghost var was := m.Abs();
    if |m.vRandom| != m.nTried + m.nNew {
      return -7;
    }
    var setTried, mapNew;
    code, setTried, mapNew := CheckEntries(m);
    if code != 0 {
      return;
    }
    TallyCounts(was, setTried, mapNew);
    TallyRefs(was, setTried, mapNew);
    if |setTried| != m.nTried {
      return -9;
    }
    if |mapNew| != m.nNew {
      return -10;
    }
    ghost var now := m.Abs();
    SameTables(m.env, was, now);
    var leftTried, leftNew;
    code, leftTried := CheckTriedTable(m, setTried);
    if code != 0 {
      return;
    }
    code, leftNew := CheckNewTable(m, mapNew);
    if code != 0 {
      return;
    }
    if leftTried != {} {
      return -13;
    }
    if |leftNew| != 0 {
      return -15;
    }
    if m.env.nKey == 0 {
      return -16;
    }
    return 0;
  }

  lemma SameTables(env: Env, st: State, st': State)
    requires st' == st.(mapAddr := st'.mapAddr)
    ensures TriedIndex(env, st) == TriedIndex(env, st') && NewPasses(env, st) == NewPasses(env, st')
  {
    hide NewSlotIn, TriedSlot;
    if NewPasses(env, st) {
      forall s | s in st'.newTable
        ensures NewSlotPasses(env, st', s)
      {
        assert NewSlotPasses(env, st, s);
      }
    }
    if NewPasses(env, st') {
      forall s | s in st.newTable
        ensures NewSlotPasses(env, st, s)
      {
        assert NewSlotPasses(env, st', s);
      }
    }
  }
}
