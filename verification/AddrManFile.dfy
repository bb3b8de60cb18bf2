/** Saving and loading an address manager in place: the loops of Serialize and Unserialize. */
module AddrManFile {
  import opened AddrManState
  import opened AddrManImage
  import opened AddrMan
  import Ops = AddrManOps

  // Saving

  /** The numbers given to the new ids below k. */
  ghost predicate NumbersFor(numbers: map<int, int>, info: map<int, Info>, k: nat) {
    forall id | id in info && 0 <= id < k && info[id].nRefCount != 0 ::
      id in numbers && numbers[id] == Rank(IdsOf(info, k, false), id)
  }

  lemma RankGrows(ids: seq<int>, x: int, id: int)
    requires id in ids
    ensures Rank(ids + [x], id) == Rank(ids, id) < |ids|
  {
    if ids[0] != id {
      assert (ids + [x])[1..] == ids[1..] + [x];
      RankGrows(ids[1..], x, id);
    } else {
      assert (ids + [x])[0] == id;
    }
  }

  lemma RankLast(ids: seq<int>, x: int)
    requires x !in ids
    ensures Rank(ids + [x], x) == |ids|
  {
    var more := ids + [x];
    assert more[|ids|] == x;
    assert forall i | 0 <= i < |ids| :: more[i] == ids[i];
  }

  predicate Counts(info: map<int, Info>, k: nat, inTried: bool) {
    k in info && if inTried then info[k].fInTried else info[k].nRefCount != 0
  }

  lemma IdsNext(info: map<int, Info>, k: nat, inTried: bool)
    ensures IdsOf(info, k + 1, inTried)
         == if Counts(info, k, inTried) then IdsOf(info, k, inTried) + [k] else IdsOf(info, k, inTried)
    ensures k !in IdsOf(info, k, inTried)
  {
    IdsOfIn(info, k, inTried);
  }

  lemma RankNext(info: map<int, Info>, k: nat, id: int)
    requires id in info && 0 <= id <= k && info[id].nRefCount != 0
    ensures Rank(IdsOf(info, k + 1, false), id)
         == if id == k then |IdsOf(info, k, false)| else Rank(IdsOf(info, k, false), id)
  {
    hide Rank, IdsOf;
    IdsNext(info, k, false);
    if id == k {
      RankLast(IdsOf(info, k, false), k);
    } else {
      var i := IdsOfHas(info, k, false, id);
      RankGrows(IdsOf(info, k, false), k, id);
    }
  }

  lemma NumberNext(numbers: map<int, int>, info: map<int, Info>, k: nat)
    requires NumbersFor(numbers, info, k)
    ensures var n := |IdsOf(info, k, false)|;
            NumbersFor(if k in info then numbers[k := n] else numbers, info, k + 1)
  {
    hide Rank, IdsOf;
    var more := if k in info then numbers[k := |IdsOf(info, k, false)|] else numbers;
    forall id | id in info && 0 <= id < k + 1 && info[id].nRefCount != 0
      ensures id in more && more[id] == Rank(IdsOf(info, k + 1, false), id)
    {
      RankNext(info, k, id);
    }
  }

  lemma SavedNext(info: map<int, Info>, ids: seq<int>, id: int)
    requires (forall i | 0 <= i < |ids| :: ids[i] in info) && id in info
    ensures forall i | 0 <= i < |ids| + 1 :: (ids + [id])[i] in info
    ensures SavedAll(info, ids + [id]) == SavedAll(info, ids) + [Saved(info[id])]
  {
    hide Saved;
    var more := ids + [id];
    forall i | 0 <= i < |more|
      ensures more[i] in info
    {
      assert i < |ids| ==> more[i] == ids[i];
    }
  }

  /** The entries of one table in the order of their ids. */
  ghost function SavedBelow(info: map<int, Info>, k: nat, inTried: bool): (s: seq<Info>)
    ensures |s| == |IdsOf(info, k, inTried)|
  {
    IdsOfIn(info, k, inTried);
    SavedAll(info, IdsOf(info, k, inTried))
  }

  lemma SavedBelowNext(info: map<int, Info>, k: nat, inTried: bool)
    ensures SavedBelow(info, 0, inTried) == []
    ensures SavedBelow(info, k + 1, inTried)
         == if Counts(info, k, inTried) then SavedBelow(info, k, inTried) + [Saved(info[k])]
            else SavedBelow(info, k, inTried)
  {
    hide Saved, SavedAll, IdsOf;
    IdsNext(info, k, inTried);
    IdsOfIn(info, k, inTried);
    SavedNone(info, inTried);
    if k in info {
      SavedNext(info, IdsOf(info, k, inTried), k);
    }
  }

  lemma SavedNone(info: map<int, Info>, inTried: bool)
    ensures SavedBelow(info, 0, inTried) == []
  {
  }

  /** A count that has not reached its total while entries are left. */
  lemma {:induction false} IdsLeft(info: map<int, Info>, k: nat, n: nat, inTried: bool)
    requires k < n && Counts(info, k, inTried)
    ensures |IdsOf(info, k, inTried)| < |IdsOf(info, n, inTried)|
  {
    if n > k + 1 {
      IdsLeft(info, k, n - 1, inTried);
    }
  }

  /** Writes the new entries and numbers them. */
  method SaveNews(m: Manager) returns (news: seq<Info>, numbers: map<int, int>)
    requires m.Ok()
    ensures news == SavedBelow(m.mapInfo, m.nIdCount, false)
    ensures NumbersFor(numbers, m.mapInfo, m.nIdCount)
  {
    hide Saved, SavedBelow, Rank, IdsOf;
    ghost var info := m.mapInfo;
    Totals(m.env, m.Abs());
    news, numbers := [], map[];
    SavedBelowNext(info, 0, false);
    var nIds := 0;
    var id := 0;
    while id < m.nIdCount
      invariant 0 <= id <= m.nIdCount && nIds == |news| == |IdsOf(info, id, false)|
      invariant news == SavedBelow(info, id, false) && NumbersFor(numbers, info, id)
    {
      SavedBelowNext(info, id, false);
      NumberNext(numbers, info, id);
      IdsNext(info, id, false);
      if id in m.mapInfo {
        numbers := numbers[id := nIds];
        if m.mapInfo[id].nRefCount != 0 {
          IdsLeft(info, id, m.nIdCount, false);
          assert nIds != m.nNew;
          news := news + [Saved(m.mapInfo[id])];
          nIds := nIds + 1;
        }
      }
      id := id + 1;
    }
  }

  method SaveTried(m: Manager) returns (trieds: seq<Info>)
    requires m.Ok()
    ensures trieds == SavedBelow(m.mapInfo, m.nIdCount, true)
  {
    hide Saved, SavedBelow, IdsOf;
    ghost var info := m.mapInfo;
    Totals(m.env, m.Abs());
    trieds := [];
    SavedBelowNext(info, 0, true);
    var nIds := 0;
    var id := 0;
    while id < m.nIdCount
      invariant 0 <= id <= m.nIdCount && nIds == |trieds| == |IdsOf(info, id, true)|
      invariant trieds == SavedBelow(info, id, true)
    {
      SavedBelowNext(info, id, true);
      IdsNext(info, id, true);
      if id in m.mapInfo && m.mapInfo[id].fInTried {
        IdsLeft(info, id, m.nIdCount, true);
        assert nIds != m.nTried;
        trieds := trieds + [Saved(m.mapInfo[id])];
        nIds := nIds + 1;
      }
      id := id + 1;
    }
  }

  /** The counters are the numbers of entries to write. */
  lemma Totals(env: Env, st: State)
    requires Coherent(env, st, {}, 0)
    ensures |IdsOf(st.mapInfo, st.nIdCount, false)| == st.nNew
    ensures |IdsOf(st.mapInfo, st.nIdCount, true)| == st.nTried
  {
    hide NewIndex, TriedIndex, AddrIndex, RandomIndex, Lists, IdsOf;
    IdsListed(env, st, false);
    IdsListed(env, st, true);
    ListCounts(st, IdsOf(st.mapInfo, st.nIdCount, false), false);
    ListCounts(st, IdsOf(st.mapInfo, st.nIdCount, true), true);
  }

  method SaveRow(m: Manager, b: nat, numbers: map<int, int>) returns (row: seq<int>)
    requires m.Ok() && b < NEW_BUCKET_COUNT && NumbersFor(numbers, m.mapInfo, m.nIdCount)
    ensures row == Row(Table(m.vvNew), IdsOf(m.mapInfo, m.nIdCount, false), b, BUCKET_SIZE)
  {
    hide Rank, IdsOf, AddrIndex, RandomIndex, TriedIndex, Counted;
    ghost var ids := IdsOf(m.mapInfo, m.nIdCount, false);
    NewHaveRefs(m.env, m.Abs());
    row := [];
    var p := 0;
    while p < BUCKET_SIZE
      invariant 0 <= p <= BUCKET_SIZE && row == Row(Table(m.vvNew), ids, b, p)
    {
      assert Slot(b, p) in AllSlots(m.vvNew.Length0, m.vvNew.Length1);
      if m.vvNew[b, p] != -1 {
        assert Table(m.vvNew)[Slot(b, p)] == m.vvNew[b, p];
        row := row + [numbers[m.vvNew[b, p]]];
      }
      p := p + 1;
    }
  }

  method Serialize(m: Manager) returns (img: Image)
    requires m.Ok()
    ensures img == AddrManImage.Serialize(m.env, m.Abs())
  {
    hide Rank, IdsOf, AddrIndex, RandomIndex, TriedIndex, NewIndex, Counted, SavedAll, Row, NumbersFor;
    var news, numbers := SaveNews(m);
    var trieds := SaveTried(m);
    var buckets: seq<seq<int>> := [];
    var b := 0;
    while b < NEW_BUCKET_COUNT
      invariant 0 <= b <= NEW_BUCKET_COUNT
      invariant buckets == Rows(Table(m.vvNew), IdsOf(m.mapInfo, m.nIdCount, false), b)
    {
      var row := SaveRow(m, b, numbers);
      buckets := buckets + [row];
      b := b + 1;
    }
    img := Image(VERSION, KEY_SIZE, m.env.nKey, Flip(NEW_BUCKET_COUNT), news, trieds, buckets);
  }

  // Loading

  ghost predicate Indexed(st: State) {
    IdsBelow(st) && RandomIndex(st)
  }

  lemma AddNewIndexed(env: Env, st: State, layout: bool, id: int, entry: Info)
    requires RandomIndex(st) && id !in st.mapInfo
    ensures RandomIndex(AddNew(env, st, layout, id, entry))
    ensures AddNew(env, st, layout, id, entry).mapInfo.Keys == st.mapInfo.Keys + {id}
  {
    hide Saved, NewSlot;
  }

  /** Reading any image whatever keeps the random order in step with the entries. */
  lemma {:induction false} NewsIndexed(env: Env, img: Image, k: nat)
    requires k <= |img.news|
    ensures RandomIndex(ReadNews(env, img, k))
    ensures forall i :: i in ReadNews(env, img, k).mapInfo <==> 0 <= i < k
  {
    hide AddNew, RandomIndex;
    if k == 0 {
      NoneIndexed(env, img);
    } else {
      NewsIndexed(env, img, k - 1);
      AddNewIndexed(env, ReadNews(env, img, k - 1), SameLayout(img), k - 1, img.news[k - 1]);
    }
  }

  lemma NoneIndexed(env: Env, img: Image)
    ensures RandomIndex(ReadNews(env, img, 0))
  {
  }

  lemma AddTriedIndexed(env: Env, st: State, entry: Info)
    requires Indexed(st)
    ensures Indexed(AddTried(env, st, entry))
  {
    hide Saved, TriedSlot;
  }

  lemma {:induction false} TriedIndexed(env: Env, st: State, trieds: seq<Info>, k: nat)
    requires Indexed(st) && k <= |trieds|
    ensures Indexed(ReadTried(env, st, trieds, k))
  {
    hide Indexed, AddTried;
    if k > 0 {
      TriedIndexed(env, st, trieds, k - 1);
      AddTriedIndexed(env, ReadTried(env, st, trieds, k - 1), trieds[k - 1]);
    }
  }

  lemma IndexIndexed(env: Env, st: State, n: int, b: nat, layout: bool, index: int)
    requires Indexed(st)
    ensures Indexed(ReadIndex(env, st, n, b, layout, index))
  {
    hide NewSlotIn;
  }

  lemma {:induction false} RowIndexed(env: Env, st: State, n: int, b: nat, layout: bool, row: seq<int>)
    requires Indexed(st)
    ensures Indexed(ReadRow(env, st, n, b, layout, row))
  {
    hide Indexed, ReadIndex;
    if row != [] {
      var k := |row| - 1;
      RowIndexed(env, st, n, b, layout, row[..k]);
      IndexIndexed(env, ReadRow(env, st, n, b, layout, row[..k]), n, b, layout, row[k]);
    }
  }

  lemma {:induction false} RowsIndexed(env: Env, st: State, n: int, layout: bool, rows: seq<seq<int>>, k: nat)
    requires Indexed(st) && k <= |rows|
    ensures Indexed(ReadRows(env, st, n, layout, rows, k))
  {
    hide Indexed, ReadRow;
    if k > 0 {
      RowsIndexed(env, st, n, layout, rows, k - 1);
      RowIndexed(env, ReadRows(env, st, n, layout, rows, k - 1), n, k - 1, layout, rows[k - 1]);
    }
  }

  lemma DeleteIndexed(st: State, id: int)
    requires Indexed(st) && Unreferenced(st, id)
    ensures CanDelete(st, id) && Indexed(Delete(st, id)) && Delete(st, id).nIdCount == st.nIdCount
  {
    var last := |st.vRandom| - 1;
    SwapRandomIndex(st, st.mapInfo[id].nRandomPos, last);
    SwapShape(st, st.mapInfo[id].nRandomPos, last);
    var st1 := SwapRandom(st, st.mapInfo[id].nRandomPos, last);
    MovedLast(st, id);
    PopLast(st1, Delete(st, id), id);
  }

  lemma MovedLast(st: State, id: int)
    requires RandomIndex(st) && id in st.mapInfo
    ensures CanSwap(st, st.mapInfo[id].nRandomPos, |st.vRandom| - 1)
    ensures var st1 := SwapRandom(st, st.mapInfo[id].nRandomPos, |st.vRandom| - 1);
            id in st1.mapInfo && st1.mapInfo[id].nRandomPos == |st.vRandom| - 1 == |st1.vRandom| - 1
  {
  }

  lemma PopLast(st: State, st': State, id: int)
    requires Indexed(st) && id in st.mapInfo && st.mapInfo[id].nRandomPos == |st.vRandom| - 1
    requires st'.nIdCount == st.nIdCount && st'.vRandom == st.vRandom[..|st.vRandom| - 1]
    requires st'.mapInfo == st.mapInfo - {id}
    ensures Indexed(st')
  {
  }

  lemma {:induction false} PruneIndexed(st: State, k: nat)
    requires Indexed(st)
    ensures Indexed(Prune(st, k)) && Prune(st, k).nIdCount == st.nIdCount
  {
    hide Indexed, Delete, CanDelete, Unreferenced;
    if k > 0 {
      PruneIndexed(st, k - 1);
      if Unreferenced(Prune(st, k - 1), k - 1) {
        DeleteIndexed(Prune(st, k - 1), k - 1);
      }
    }
  }

  /** Pruning removes exactly the untried entries without references; slots and the other entries stay. */
  lemma {:induction false} PruneExact(st: State, k: nat)
    requires Indexed(st)
    ensures var st' := Prune(st, k);
            && st'.newTable == st.newTable && st'.triedTable == st.triedTable
            && (forall id :: id in st'.mapInfo <==>
                  id in st.mapInfo && !(0 <= id < k && !st.mapInfo[id].fInTried && st.mapInfo[id].nRefCount == 0))
            && forall id | id in st'.mapInfo :: SameInfo(st'.mapInfo[id], st.mapInfo[id])
  {
    hide Indexed, Delete, CanDelete;
    if k > 0 {
      PruneExact(st, k - 1);
      PruneIndexed(st, k - 1);
      var st1 := Prune(st, k - 1);
      assert forall id | id in st1.mapInfo :: SameInfo(st1.mapInfo[id], st.mapInfo[id]);
      if Unreferenced(st1, k - 1) {
        DeleteIndexed(st1, k - 1);
        Ops.DeleteEffect(st1, k - 1);
        var st' := Prune(st, k);
        assert forall id :: id in st'.mapInfo <==> id in st'.mapInfo.Keys;
      }
    }
  }

  /** Reads the new entries into an empty manager. */
  method LoadNews(m: Manager, img: Image)
    requires m.Valid() && m.Abs() == EmptyState
    modifies m, m.vvNew
    ensures m.Abs() == ReadNews(m.env, img, |img.news|).(nIdCount := |img.news|)
  {
    hide Saved, NewSlot, AddrManState.PutRef, AddNew;
    m.nNew, m.nTried := |img.news|, |img.trieds|;
    var n := 0;
    while n < |img.news|
      invariant 0 <= n <= |img.news| && m.Abs() == ReadNews(m.env, img, n)
    {
      LoadNew(m, SameLayout(img), n, img.news[n]);
      n := n + 1;
    }
    m.nIdCount := |img.news|;
  }

  /** Puts one more reference to an entry into a new slot. */
  method Refer(m: Manager, s: Slot, id: int)
    requires m.Valid() && s.bucket < NEW_BUCKET_COUNT && s.pos < BUCKET_SIZE && id in m.mapInfo && id != -1
    modifies m`mapInfo, m.vvNew
    ensures m.Abs() == PutRef(old(m.Abs()), s, id)
  {
    m.mapInfo := m.mapInfo[id := m.mapInfo[id].(nRefCount := m.mapInfo[id].nRefCount + 1)];
    Store(m.vvNew, s.bucket, s.pos, id);
  }

  method LoadNew(m: Manager, layout: bool, n: nat, entry: Info)
    requires m.Valid()
    modifies m, m.vvNew
    ensures m.Abs() == AddNew(m.env, old(m.Abs()), layout, n, entry)
  {
    hide Saved, PutRef, BucketPosition, NewBucket;
    var info := Saved(entry);
    m.mapInfo := m.mapInfo[n := info];
    m.mapAddr := m.mapAddr[info.addr.service.addr := n];
    m.mapInfo := m.mapInfo[n := m.mapInfo[n].(nRandomPos := |m.vRandom|)];
    m.vRandom := m.vRandom + [n];
    assert m.mapInfo == old(m.mapInfo)[n := info.(nRandomPos := |old(m.vRandom)|)];
    if !layout {
      var s := NewSlot(m.env, info.addr.service, info.source);
      assert s in AllSlots(m.vvNew.Length0, m.vvNew.Length1);
      if m.vvNew[s.bucket, s.pos] == -1 {
        Refer(m, s, n);
      }
    }
  }

  /** Reads a tried entry, or counts it as lost. */
  method LoadTriedEntry(m: Manager, entry: Info)
    requires m.Valid()
    modifies m, m.vvTried
    ensures m.Abs() == AddTried(m.env, old(m.Abs()), entry)
  {
    hide Saved;
    var info := Saved(entry);
    var s := TriedSlot(m.env, info.addr.service);
    assert s in AllSlots(m.vvTried.Length0, m.vvTried.Length1);
    if m.vvTried[s.bucket, s.pos] == -1 {
      info := info.(nRandomPos := |m.vRandom|, fInTried := true);
      m.vRandom := m.vRandom + [m.nIdCount];
      m.mapInfo := m.mapInfo[m.nIdCount := info];
      m.mapAddr := m.mapAddr[info.addr.service.addr := m.nIdCount];
      Store(m.vvTried, s.bucket, s.pos, m.nIdCount);
      m.nIdCount := m.nIdCount + 1;
    } else {
      m.nTried := m.nTried - 1;
    }
  }

  method LoadTried(m: Manager, trieds: seq<Info>)
    requires m.Valid()
    modifies m, m.vvTried
    ensures m.Abs() == ReadTried(m.env, old(m.Abs()), trieds, |trieds|)
  {
    hide AddTried;
    ghost var was := m.Abs();
    var n := 0;
    while n < |trieds|
      invariant 0 <= n <= |trieds| && m.Abs() == ReadTried(m.env, was, trieds, n)
    {
      LoadTriedEntry(m, trieds[n]);
      n := n + 1;
    }
  }

  method LoadIndex(m: Manager, n: int, b: nat, layout: bool, index: int)
    requires m.Valid() && (layout ==> b < NEW_BUCKET_COUNT) && forall i | 0 <= i < n :: i in m.mapInfo
    modifies m, m.vvNew
    ensures m.Abs() == ReadIndex(m.env, old(m.Abs()), n, b, layout, index)
  {
    hide BucketPosition, PutRef;
    if 0 <= index < n {
      var s := NewSlotIn(m.env, m.mapInfo[index].addr.service, b);
      if layout {
        assert s in AllSlots(m.vvNew.Length0, m.vvNew.Length1);
        if m.vvNew[s.bucket, s.pos] == -1 && m.mapInfo[index].nRefCount < NEW_BUCKETS_PER_ADDRESS {
          Refer(m, s, index);
        }
      }
    }
  }

  method LoadRow(m: Manager, n: int, b: nat, layout: bool, row: seq<int>)
    requires m.Valid() && (layout ==> b < NEW_BUCKET_COUNT) && forall i | 0 <= i < n :: i in m.mapInfo
    modifies m, m.vvNew
    ensures m.Abs() == ReadRow(m.env, old(m.Abs()), n, b, layout, row)
    ensures forall i | 0 <= i < n :: i in m.mapInfo
  {
    hide ReadIndex;
    ghost var was := m.Abs();
    var k := 0;
    while k < |row|
      invariant 0 <= k <= |row| && m.Abs() == ReadRow(m.env, was, n, b, layout, row[..k])
      invariant forall i | 0 <= i < n :: i in m.mapInfo
    {
      assert row[..k + 1][..k] == row[..k];
      KeepsKeys(m.env, m.Abs(), n, b, layout, row[k]);
      LoadIndex(m, n, b, layout, row[k]);
      k := k + 1;
    }
    assert row[..k] == row;
  }

  lemma KeepsKeys(env: Env, st: State, n: int, b: nat, layout: bool, index: int)
    ensures ReadIndex(env, st, n, b, layout, index).mapInfo.Keys == st.mapInfo.Keys
    ensures forall i | i in st.mapInfo :: i in ReadIndex(env, st, n, b, layout, index).mapInfo
  {
  }

  method LoadRows(m: Manager, n: int, layout: bool, rows: seq<seq<int>>, count: nat)
    requires m.Valid() && count <= |rows| && (layout ==> count == NEW_BUCKET_COUNT)
    requires forall i | 0 <= i < n :: i in m.mapInfo
    modifies m, m.vvNew
    ensures m.Abs() == ReadRows(m.env, old(m.Abs()), n, layout, rows, count)
  {
    hide ReadRow;
    ghost var was := m.Abs();
    var b := 0;
    while b < count
      invariant 0 <= b <= count && m.Abs() == ReadRows(m.env, was, n, layout, rows, b)
      invariant forall i | 0 <= i < n :: i in m.mapInfo
    {
      LoadRow(m, n, b, layout, rows[b]);
      b := b + 1;
    }
  }

  /** Deletes what no slot refers to, in the order of the ids. */
  method PruneUnreferenced(m: Manager)
    requires m.Valid() && Indexed(m.Abs())
    modifies m
    ensures m.Abs() == Prune(old(m.Abs()), old(m.nIdCount))
  {
    hide Indexed, AddrManState.Delete, CanDelete;
    ghost var was := m.Abs();
    var id := 0;
    while id < m.nIdCount
      invariant 0 <= id <= m.nIdCount == was.nIdCount && m.Abs() == Prune(was, id)
    {
      PruneIndexed(was, id);
      PruneIndexed(was, id + 1);
      if id in m.mapInfo && !m.mapInfo[id].fInTried && m.mapInfo[id].nRefCount == 0 {
        DeleteIndexed(m.Abs(), id);
        m.Delete(id);
      }
      id := id + 1;
    }
  }

  datatype Status = Ok | WrongKeySize | NewExceeds | TriedExceeds

  /** Reads an image into a newly made manager. */
  method Unserialize(env: Env, img: Image) returns (m: Manager, status: Status)
    requires BucketsIn(img) <= |img.buckets|
    ensures match AddrManImage.Unserialize(env, img)
            case Loaded(st) => status == Ok && m.Valid() && m.env == env.(nKey := img.nKey) && m.Abs() == st
            case BadKeySize => status == WrongKeySize
            case TooManyNew => status == NewExceeds
            case TooManyTried => status == TriedExceeds
  {
    hide ReadNews, ReadTried, ReadRows, Prune, Indexed, RandomIndex;
    m := new Manager(env.(nKey := img.nKey));
    if img.keySize != KEY_SIZE {
      return m, WrongKeySize;
    }
    if |img.news| > NEW_BUCKET_COUNT * BUCKET_SIZE {
      return m, NewExceeds;
    }
    if |img.trieds| > TRIED_BUCKET_COUNT * BUCKET_SIZE {
      return m, TriedExceeds;
    }
    NewsIndexed(m.env, img, |img.news|);
    StartIndexed(ReadNews(m.env, img, |img.news|), |img.news|);
    LoadNews(m, img);
    ghost var a := m.Abs();
    TriedIndexed(m.env, a, img.trieds, |img.trieds|);
    TriedKeeps(m.env, a, img.trieds, |img.trieds|);
    LoadTried(m, img.trieds);
    RowsIndexed(m.env, m.Abs(), |img.news|, SameLayout(img), img.buckets, BucketsIn(img));
    LoadRows(m, |img.news|, SameLayout(img), img.buckets, BucketsIn(img));
    PruneUnreferenced(m);
    status := Ok;
  }

  lemma StartIndexed(st: State, n: nat)
    requires RandomIndex(st) && forall i :: i in st.mapInfo <==> 0 <= i < n
    ensures Indexed(st.(nIdCount := n))
  {
  }

  lemma {:induction false} TriedKeeps(env: Env, st: State, trieds: seq<Info>, k: nat)
    requires k <= |trieds|
    ensures forall i | i in st.mapInfo :: i in ReadTried(env, st, trieds, k).mapInfo
  {
    hide TriedSlot, Saved;
    if k > 0 {
      TriedKeeps(env, st, trieds, k - 1);
    }
  }
}
