/** Saving and loading an address manager: what is written, what reading it into a new manager builds, and that
    nothing is lost on the way. */
module AddrManImage {
  import Common
  import opened AddrManState

  const VERSION: nat := 1
  const KEY_SIZE: nat := 32
  const FLAG: nat := 0x4000_0000

  /** The values of the stream in their order: the counts of the entry lists are the lengths of the lists. */
  datatype Image = Image(version: nat, keySize: nat, nKey: nat, nUBuckets: nat, news: seq<Info>, trieds: seq<Info>,
                         buckets: seq<seq<int>>)

  /** The bucket count with bit 30 flipped. */
  function Flip(n: nat): nat {
    if (n / FLAG) % 2 == 1 then n - FLAG else n + FLAG
  }

  /** What is stored of an entry; the rest is in memory only and starts out as in a new one. */
  function Saved(info: Info): Info {
    info.(nLastTry := 0, nLastCountAttempt := 0, nRefCount := 0, fInTried := false, nRandomPos := -1)
  }

  /** The ids below k of one table, in increasing order. */
  function IdsOf(info: map<int, Info>, k: nat, inTried: bool): seq<int> {
    if k == 0 then [] else
      IdsOf(info, k - 1, inTried)
      + if (k - 1) in info && (if inTried then info[k - 1].fInTried else info[k - 1].nRefCount != 0) then [k - 1] else []
  }

  function SavedAll(info: map<int, Info>, ids: seq<int>): (s: seq<Info>)
    requires forall i | 0 <= i < |ids| :: ids[i] in info
    ensures |s| == |ids| && forall i | 0 <= i < |ids| :: s[i] == Saved(info[ids[i]])
  {
    if ids == [] then [] else [Saved(info[ids[0]])] + SavedAll(info, ids[1..])
  }

  lemma {:induction false} IdsOfIn(info: map<int, Info>, k: nat, inTried: bool)
    ensures forall i | 0 <= i < |IdsOf(info, k, inTried)| ::
              var id := IdsOf(info, k, inTried)[i];
              0 <= id < k && id in info && if inTried then info[id].fInTried else info[id].nRefCount != 0
    ensures forall i, j | 0 <= i < j < |IdsOf(info, k, inTried)| ::
              IdsOf(info, k, inTried)[i] < IdsOf(info, k, inTried)[j]
  {
    if k > 0 {
      IdsOfIn(info, k - 1, inTried);
    }
  }

  lemma {:induction false} IdsOfHas(info: map<int, Info>, k: nat, inTried: bool, id: int) returns (i: nat)
    requires 0 <= id < k && id in info && if inTried then info[id].fInTried else info[id].nRefCount != 0
    ensures i < |IdsOf(info, k, inTried)| && IdsOf(info, k, inTried)[i] == id
  {
    if id == k - 1 {
      i := |IdsOf(info, k - 1, inTried)|;
    } else {
      i := IdsOfHas(info, k - 1, inTried, id);
    }
  }

  /** The place of an id in a list of different ids. */
  function Rank(ids: seq<int>, id: int): (i: nat)
    ensures i <= |ids| && (i < |ids| ==> ids[i] == id) && forall j | 0 <= j < i :: ids[j] != id
  {
    if ids == [] then 0 else if ids[0] == id then 0 else 1 + Rank(ids[1..], id)
  }

  /** The entries of bucket b before position p, by their place among the saved new entries. */
  function Row(table: map<Slot, int>, ids: seq<int>, b: nat, p: nat): seq<int> {
    if p == 0 then [] else
      var s := Slot(b, p - 1);
      Row(table, ids, b, p - 1) + if s in table then [Rank(ids, table[s])] else []
  }

  function Rows(table: map<Slot, int>, ids: seq<int>, k: nat): (r: seq<seq<int>>)
    ensures |r| == k && forall b | 0 <= b < k :: r[b] == Row(table, ids, b, BUCKET_SIZE)
  {
    if k == 0 then [] else Rows(table, ids, k - 1) + [Row(table, ids, k - 1, BUCKET_SIZE)]
  }

  ghost function Serialize(env: Env, st: State): Image {
    var news, trieds := IdsOf(st.mapInfo, st.nIdCount, false), IdsOf(st.mapInfo, st.nIdCount, true);
    IdsOfIn(st.mapInfo, st.nIdCount, false);
    IdsOfIn(st.mapInfo, st.nIdCount, true);
    Image(VERSION, KEY_SIZE, env.nKey, Flip(NEW_BUCKET_COUNT), SavedAll(st.mapInfo, news),
          SavedAll(st.mapInfo, trieds), Rows(st.newTable, news, NEW_BUCKET_COUNT))
  }

  // Reading

  function BucketsIn(img: Image): nat {
    if img.version != 0 then Flip(img.nUBuckets) else img.nUBuckets
  }

  /** The positions of the new table are read only from an image with the same layout. */
  predicate SameLayout(img: Image) {
    img.version == VERSION && BucketsIn(img) == NEW_BUCKET_COUNT
  }

  /** A new entry under the given id; without usable positions it tries its primary slot at once. */
  function AddNew(env: Env, st: State, layout: bool, id: int, entry: Info): State {
    var info := Saved(entry);
    var st1 := st.(mapInfo := st.mapInfo[id := info.(nRandomPos := |st.vRandom|)],
                   mapAddr := st.mapAddr[info.addr.service.addr := id],
                   vRandom := st.vRandom + [id]);
    var s := NewSlot(env, info.addr.service, info.source);
    if !layout && s !in st1.newTable then PutRef(st1, s, id) else st1
  }

  /** The first k new entries take the ids 0 to k - 1. */
  function ReadNews(env: Env, img: Image, k: nat): (st: State)
    requires k <= |img.news|
  {
    if k == 0 then EmptyState.(nNew := |img.news|, nTried := |img.trieds|)
    else AddNew(env, ReadNews(env, img, k - 1), SameLayout(img), k - 1, img.news[k - 1])
  }

  /** A tried entry goes into its own slot, unless another is there: then it is lost. */
  function AddTried(env: Env, st: State, entry: Info): State {
    var info := Saved(entry);
    var s, id := TriedSlot(env, info.addr.service), st.nIdCount;
    if s in st.triedTable then st.(nTried := st.nTried - 1)
    else st.(nIdCount := id + 1,
             mapInfo := st.mapInfo[id := info.(nRandomPos := |st.vRandom|, fInTried := true)],
             mapAddr := st.mapAddr[info.addr.service.addr := id],
             vRandom := st.vRandom + [id],
             triedTable := st.triedTable[s := id])
  }

  function ReadTried(env: Env, st: State, trieds: seq<Info>, k: nat): State
    requires k <= |trieds|
  {
    if k == 0 then st else AddTried(env, ReadTried(env, st, trieds, k - 1), trieds[k - 1])
  }

  /** One saved position: taken if the slot is free and the entry has references left. */
  function ReadIndex(env: Env, st: State, n: int, b: nat, layout: bool, index: int): State {
    if !(0 <= index < n) || index !in st.mapInfo then st else
      var info := st.mapInfo[index];
      var s := NewSlotIn(env, info.addr.service, b);
      if layout && s !in st.newTable && info.nRefCount < NEW_BUCKETS_PER_ADDRESS then PutRef(st, s, index) else st
  }

  function ReadRow(env: Env, st: State, n: int, b: nat, layout: bool, row: seq<int>): State {
    if row == [] then st else
      var k := |row| - 1;
      ReadIndex(env, ReadRow(env, st, n, b, layout, row[..k]), n, b, layout, row[k])
  }

  function ReadRows(env: Env, st: State, n: int, layout: bool, rows: seq<seq<int>>, k: nat): State
    requires k <= |rows|
  {
    if k == 0 then st else ReadRow(env, ReadRows(env, st, n, layout, rows, k - 1), n, k - 1, layout, rows[k - 1])
  }

  predicate Unreferenced(st: State, id: int) {
    id in st.mapInfo && !st.mapInfo[id].fInTried && st.mapInfo[id].nRefCount == 0
  }

  /** Deletes the entries below k that no slot refers to. */
  function Prune(st: State, k: nat): State {
    if k == 0 then st else
      var st1 := Prune(st, k - 1);
      if Unreferenced(st1, k - 1) && CanDelete(st1, k - 1) then Delete(st1, k - 1) else st1
  }

  datatype Result = Loaded(st: State) | BadKeySize | TooManyNew | TooManyTried

  /** The entries and tables read from an image into a new manager, before pruning. */
  function Read(env: Env, img: Image): State
    requires BucketsIn(img) <= |img.buckets|
  {
    var n := |img.news|;
    var st := ReadTried(env, ReadNews(env, img, n).(nIdCount := n), img.trieds, |img.trieds|);
    ReadRows(env, st, n, SameLayout(img), img.buckets, BucketsIn(img))
  }

  function Unserialize(env: Env, img: Image): Result
    requires BucketsIn(img) <= |img.buckets|
  {
    if img.keySize != KEY_SIZE then BadKeySize
    else if |img.news| > NEW_BUCKET_COUNT * BUCKET_SIZE then TooManyNew
    else if |img.trieds| > TRIED_BUCKET_COUNT * BUCKET_SIZE then TooManyTried
    else
      var st := Read(env.(nKey := img.nKey), img);
      Loaded(Prune(st, st.nIdCount))
  }

  // The saved entries list the manager's entries

  ghost predicate Different(ids: seq<int>) {
    forall i, j | 0 <= i < j < |ids| :: ids[i] != ids[j]
  }

  ghost predicate Lists(st: State, ids: seq<int>, inTried: bool) {
    && Different(ids)
    && (forall i | 0 <= i < |ids| :: ids[i] in st.mapInfo && st.mapInfo[ids[i]].fInTried == inTried)
    && forall id | id in st.mapInfo && st.mapInfo[id].fInTried == inTried :: Rank(ids, id) < |ids|
  }

  lemma {:induction false} CountDifferent(ids: seq<int>)
    requires Different(ids)
    ensures |set id | id in ids| == |ids|
  {
    if ids != [] {
      var n := |ids| - 1;
      var rest := set id | id in ids[..n];
      CountDifferent(ids[..n]);
      assert ids == ids[..n] + [ids[n]];
      assert (set id | id in ids) == rest + {ids[n]};
    }
  }

  lemma NewHaveRefs(env: Env, st: State)
    requires NewIndex(env, st, {})
    ensures forall id | id in st.mapInfo :: st.mapInfo[id].nRefCount != 0 <==> !st.mapInfo[id].fInTried
  {
    forall id | id in st.mapInfo && st.mapInfo[id].fInTried
      ensures st.mapInfo[id].nRefCount == 0
    {
      assert Refs(st.newTable, id) == {};
    }
  }

  lemma RankFound(ids: seq<int>, i: nat)
    requires i < |ids|
    ensures Rank(ids, ids[i]) <= i
    ensures Different(ids) ==> Rank(ids, ids[i]) == i
  {
  }

  lemma IdsListed(env: Env, st: State, inTried: bool)
    requires NewIndex(env, st, {}) && IdsBelow(st)
    ensures Lists(st, IdsOf(st.mapInfo, st.nIdCount, inTried), inTried)
  {
    hide NewIndex, IdsOf, Rank;
    var ids := IdsOf(st.mapInfo, st.nIdCount, inTried);
    NewHaveRefs(env, st);
    IdsOfIn(st.mapInfo, st.nIdCount, inTried);
    forall id | id in st.mapInfo && st.mapInfo[id].fInTried == inTried
      ensures Rank(ids, id) < |ids|
    {
      var i := IdsOfHas(st.mapInfo, st.nIdCount, inTried, id);
      RankFound(ids, i);
    }
  }

  lemma ListCounts(st: State, ids: seq<int>, inTried: bool)
    requires Lists(st, ids, inTried)
    ensures |ids| == |IdsWith(st.mapInfo, inTried)|
  {
    var all := IdsWith(st.mapInfo, inTried);
    forall id | id in all
      ensures id in ids
    {
      assert ids[Rank(ids, id)] == id;
    }
    assert all == set id | id in ids;
    CountDifferent(ids);
  }

  /** New and tried ids in saving order. */
  datatype Order = Order(news: seq<int>, trieds: seq<int>) {
    function Size(): nat {
      |news| + |trieds|
    }

    function At(i: nat): int
      requires i < Size()
    {
      if i < |news| then news[i] else trieds[i - |news|]
    }
  }

  ghost predicate Ordered(env: Env, st: State, ord: Order) {
    && Consistent(env, st)
    && Lists(st, ord.news, false) && Lists(st, ord.trieds, true)
    && |ord.news| == st.nNew && |ord.trieds| == st.nTried
  }

  ghost function OrderOf(st: State): Order {
    Order(IdsOf(st.mapInfo, st.nIdCount, false), IdsOf(st.mapInfo, st.nIdCount, true))
  }

  lemma OrderHolds(env: Env, st: State)
    requires Consistent(env, st)
    ensures Ordered(env, st, OrderOf(st))
  {
    hide NewIndex, TriedIndex, AddrIndex, RandomIndex, Stamped, Lists;
    IdsListed(env, st, false);
    IdsListed(env, st, true);
    ListCounts(st, OrderOf(st).news, false);
    ListCounts(st, OrderOf(st).trieds, true);
  }

  /** The id an entry gets when the image is read. */
  ghost function Renumber(st: State, ord: Order, id: int): nat
    requires id in st.mapInfo
  {
    if st.mapInfo[id].fInTried then |ord.news| + Rank(ord.trieds, id) else Rank(ord.news, id)
  }

  lemma RenumberIs(env: Env, st: State, ord: Order, id: int, i: nat)
    requires Ordered(env, st, ord) && id in st.mapInfo
    ensures Renumber(st, ord, id) < ord.Size() && ord.At(Renumber(st, ord, id)) == id
    ensures i < ord.Size() ==> ord.At(i) in st.mapInfo && (Renumber(st, ord, id) == i <==> ord.At(i) == id)
    ensures i < ord.Size() ==> (st.mapInfo[ord.At(i)].fInTried <==> i >= |ord.news|)
  {
    hide Consistent, Rank;
    if i < ord.Size() {
      if i < |ord.news| {
        RankFound(ord.news, i);
      } else {
        RankFound(ord.trieds, i - |ord.news|);
      }
    }
  }

  /** An entry as reading its image leaves it, with the number of references it has by then. */
  ghost function Restored(st: State, ord: Order, i: nat, refs: int): Info
    requires i < ord.Size() && ord.At(i) in st.mapInfo
  {
    Saved(st.mapInfo[ord.At(i)]).(nRandomPos := i, fInTried := i >= |ord.news|, nRefCount := refs)
  }

  ghost predicate InfosDone(st: State, ord: Order, r: State, k: nat)
    requires k <= ord.Size() && forall i | 0 <= i < ord.Size() :: ord.At(i) in st.mapInfo
  {
    && (forall i :: i in r.mapInfo <==> 0 <= i < k)
    && (forall i | 0 <= i < k :: r.mapInfo[i] == Restored(st, ord, i, r.mapInfo[i].nRefCount))
    && |r.vRandom| == k && forall i | 0 <= i < k :: r.vRandom[i] == i
  }

  ghost predicate AddrsDone(st: State, ord: Order, r: State, k: nat)
    requires AddrIndex(st)
  {
    forall a :: (a in r.mapAddr <==> a in st.mapAddr && Renumber(st, ord, st.mapAddr[a]) < k)
                && (a in r.mapAddr ==> r.mapAddr[a] == Renumber(st, ord, st.mapAddr[a]))
  }

  ghost predicate TriedDone(env: Env, st: State, ord: Order, r: State, k: nat)
    requires TriedIndex(env, st)
  {
    forall s :: (s in r.triedTable <==> s in st.triedTable && Renumber(st, ord, st.triedTable[s]) < k)
                && (s in r.triedTable ==> r.triedTable[s] == Renumber(st, ord, st.triedTable[s]))
  }

  ghost predicate Matches(st: State, ord: Order, img: Image)
    requires forall i | 0 <= i < ord.Size() :: ord.At(i) in st.mapInfo
  {
    && |img.news| == |ord.news| && |img.trieds| == |ord.trieds|
    && (forall i | 0 <= i < |ord.news| :: img.news[i] == Saved(st.mapInfo[ord.At(i)]))
    && forall i | 0 <= i < |ord.trieds| :: img.trieds[i] == Saved(st.mapInfo[ord.At(|ord.news| + i)])
  }

  lemma OrderIn(env: Env, st: State, ord: Order)
    requires Ordered(env, st, ord)
    ensures forall i | 0 <= i < ord.Size() :: ord.At(i) in st.mapInfo
  {
  }

  /** Entry k of the saving order is added under id k. */
  ghost predicate Appended(st: State, ord: Order, r: State, q: State, k: nat)
    requires k < ord.Size() && ord.At(k) in st.mapInfo
  {
    && q.mapInfo == r.mapInfo[k := Restored(st, ord, k, 0)]
    && q.mapAddr == r.mapAddr[st.mapInfo[ord.At(k)].addr.service.addr := k]
    && q.vRandom == r.vRandom + [k]
  }

  lemma AppendInfos(st: State, ord: Order, r: State, q: State, k: nat)
    requires k < ord.Size() && forall i | 0 <= i < ord.Size() :: ord.At(i) in st.mapInfo
    requires InfosDone(st, ord, r, k) && Appended(st, ord, r, q, k)
    ensures InfosDone(st, ord, q, k + 1)
  {
    hide Saved;
  }

  lemma AppendAddrs(env: Env, st: State, ord: Order, r: State, q: State, k: nat)
    requires Ordered(env, st, ord) && k < ord.Size() && ord.At(k) in st.mapInfo
    requires AddrsDone(st, ord, r, k) && Appended(st, ord, r, q, k)
    ensures AddrsDone(st, ord, q, k + 1)
  {
    hide Lists, TriedIndex, NewIndex, RandomIndex, Counted, Stamped, Renumber, Restored;
    var id := ord.At(k);
    forall a
      ensures (a in q.mapAddr <==> a in st.mapAddr && Renumber(st, ord, st.mapAddr[a]) < k + 1)
              && (a in q.mapAddr ==> q.mapAddr[a] == Renumber(st, ord, st.mapAddr[a]))
    {
      if a in st.mapAddr {
        RenumberIs(env, st, ord, st.mapAddr[a], k);
      }
    }
  }

  ghost predicate NoRefs(r: State) {
    r.newTable == map[] && forall i | i in r.mapInfo :: r.mapInfo[i].nRefCount == 0
  }

  ghost predicate NewsDone(st: State, ord: Order, r: State, k: nat)
    requires AddrIndex(st)
    requires k <= ord.Size() && forall i | 0 <= i < ord.Size() :: ord.At(i) in st.mapInfo
  {
    && InfosDone(st, ord, r, k) && AddrsDone(st, ord, r, k) && NoRefs(r)
    && r.triedTable == map[] && r.nNew == st.nNew && r.nTried == st.nTried && r.nLastGood == 1
  }

  lemma AddNewsStep(env: Env, st: State, ord: Order, img: Image, k: nat)
    requires Ordered(env, st, ord) && (forall i | 0 <= i < ord.Size() :: ord.At(i) in st.mapInfo)
    requires Matches(st, ord, img) && SameLayout(img) && k < |img.news|
    requires NewsDone(st, ord, ReadNews(env, img, k), k)
    ensures NewsDone(st, ord, ReadNews(env, img, k + 1), k + 1)
  {
    hide Lists, TriedIndex, NewIndex, RandomIndex, Counted, Stamped, AddrIndex, SameLayout, AddrsDone;
    var r, q := ReadNews(env, img, k), ReadNews(env, img, k + 1);
    assert Appended(st, ord, r, q, k);
    AppendInfos(st, ord, r, q, k);
    AppendAddrs(env, st, ord, r, q, k);
  }

  /** The new entries take their places in saving order. */
  lemma {:induction false} NewsRead(env: Env, st: State, ord: Order, img: Image, k: nat)
    requires Ordered(env, st, ord) && (forall i | 0 <= i < ord.Size() :: ord.At(i) in st.mapInfo)
    requires Matches(st, ord, img) && SameLayout(img) && k <= |img.news|
    ensures NewsDone(st, ord, ReadNews(env, img, k), k)
  {
    hide Lists, TriedIndex, NewIndex, RandomIndex, Counted, Stamped, AddrIndex, SameLayout, ReadNews, NewsDone;
    if k == 0 {
      NoneRead(env, st, ord, img);
    } else {
      NewsRead(env, st, ord, img, k - 1);
      AddNewsStep(env, st, ord, img, k - 1);
    }
  }

  lemma NoneRead(env: Env, st: State, ord: Order, img: Image)
    requires Ordered(env, st, ord) && (forall i | 0 <= i < ord.Size() :: ord.At(i) in st.mapInfo)
    requires Matches(st, ord, img)
    ensures NewsDone(st, ord, ReadNews(env, img, 0), 0)
  {
    hide Lists, TriedIndex, NewIndex, RandomIndex, Counted, Stamped;
  }

  lemma AppendTried(env: Env, st: State, ord: Order, r: State, q: State, k: nat)
    requires Ordered(env, st, ord) && |ord.news| <= k < ord.Size() && ord.At(k) in st.mapInfo
    requires TriedDone(env, st, ord, r, k)
    ensures var s := TriedSlot(env, st.mapInfo[ord.At(k)].addr.service);
            && s !in r.triedTable
            && (q.triedTable == r.triedTable[s := k] ==> TriedDone(env, st, ord, q, k + 1))
  {
    hide Lists, AddrIndex, NewIndex, RandomIndex, Counted, Stamped, Renumber, TriedSlot;
    var id := ord.At(k);
    var s := TriedSlot(env, st.mapInfo[id].addr.service);
    RenumberIs(env, st, ord, id, k);
    assert s in st.triedTable && st.triedTable[s] == id;
    if q.triedTable == r.triedTable[s := k] {
      forall s'
        ensures (s' in q.triedTable <==> s' in st.triedTable && Renumber(st, ord, st.triedTable[s']) < k + 1)
                && (s' in q.triedTable ==> q.triedTable[s'] == Renumber(st, ord, st.triedTable[s']))
      {
        if s' in st.triedTable {
          RenumberIs(env, st, ord, st.triedTable[s'], k);
        }
      }
    }
  }

  /** What holds once the first k entries of the saving order have been read, new ones before tried ones. */
  ghost predicate EntriesRead(env: Env, st: State, ord: Order, r: State, k: nat)
    requires AddrIndex(st) && TriedIndex(env, st)
    requires k <= ord.Size() && forall i | 0 <= i < ord.Size() :: ord.At(i) in st.mapInfo
  {
    && r.nIdCount == k && InfosDone(st, ord, r, k) && AddrsDone(st, ord, r, k) && NoRefs(r)
    && TriedDone(env, st, ord, r, k) && r.nNew == st.nNew && r.nTried == st.nTried && r.nLastGood == 1
  }

  lemma AddTriedStep(env: Env, st: State, ord: Order, r: State, k: nat)
    requires Ordered(env, st, ord) && (forall i | 0 <= i < ord.Size() :: ord.At(i) in st.mapInfo)
    requires |ord.news| <= k < ord.Size() && EntriesRead(env, st, ord, r, k)
    ensures EntriesRead(env, st, ord, AddTried(env, r, Saved(st.mapInfo[ord.At(k)])), k + 1)
  {
    hide Lists, TriedIndex, NewIndex, RandomIndex, Counted, Stamped, Renumber, AddrIndex, AddrsDone,
         TriedSlot, TriedDone;
    var q := AddTried(env, r, Saved(st.mapInfo[ord.At(k)]));
    AppendTried(env, st, ord, r, q, k);
    assert Appended(st, ord, r, q, k);
    AppendInfos(st, ord, r, q, k);
    AppendAddrs(env, st, ord, r, q, k);
  }

  /** Every tried entry finds its slot free. */
  lemma {:induction false} TriedRead(env: Env, st: State, ord: Order, r0: State, trieds: seq<Info>, k: nat)
    requires Ordered(env, st, ord) && (forall i | 0 <= i < ord.Size() :: ord.At(i) in st.mapInfo)
    requires |trieds| == |ord.trieds| && k <= |trieds|
    requires forall i | 0 <= i < |trieds| :: trieds[i] == Saved(st.mapInfo[ord.At(|ord.news| + i)])
    requires EntriesRead(env, st, ord, r0, |ord.news|)
    ensures EntriesRead(env, st, ord, ReadTried(env, r0, trieds, k), |ord.news| + k)
  {
    hide Lists, TriedIndex, NewIndex, RandomIndex, Counted, Stamped, AddrIndex, EntriesRead, AddTried, Saved;
    if k > 0 {
      TriedRead(env, st, ord, r0, trieds, k - 1);
      AddTriedStep(env, st, ord, ReadTried(env, r0, trieds, k - 1), |ord.news| + k - 1);
    }
  }

  lemma NoTried(env: Env, st: State, ord: Order, r: State)
    requires Ordered(env, st, ord) && r.triedTable == map[]
    ensures TriedDone(env, st, ord, r, |ord.news|)
  {
    hide Lists, NewIndex, RandomIndex, Counted, Stamped, AddrIndex;
  }

  // The positions of the new table

  predicate Before(s: Slot, b: nat, p: nat) {
    s.bucket < b || (s.bucket == b && s.pos < p)
  }

  ghost predicate SlotsDone(env: Env, st: State, ord: Order, r: State, b: nat, p: nat) {
    forall s :: (s in r.newTable <==> s in st.newTable && Before(s, b, p))
                && (s in r.newTable ==> r.newTable[s] == Rank(ord.news, st.newTable[s]))
  }

  ghost predicate RefsCounted(r: State) {
    forall i | i in r.mapInfo :: r.mapInfo[i].nRefCount == |Refs(r.newTable, i)|
  }

  /** All entries are in, and the new slots before position p of bucket b. */
  ghost predicate PositionsRead(env: Env, st: State, ord: Order, r: State, b: nat, p: nat)
    requires AddrIndex(st) && TriedIndex(env, st)
    requires forall i | 0 <= i < ord.Size() :: ord.At(i) in st.mapInfo
  {
    && r.nIdCount == ord.Size() && InfosDone(st, ord, r, ord.Size()) && AddrsDone(st, ord, r, ord.Size())
    && TriedDone(env, st, ord, r, ord.Size()) && r.nNew == st.nNew && r.nTried == st.nTried && r.nLastGood == 1
    && SlotsDone(env, st, ord, r, b, p) && RefsCounted(r)
  }

  /** The slots seen so far that hold entry idx are slots of the entry it was saved from. */
  lemma RefsWithin(env: Env, st: State, ord: Order, r: State, b: nat, p: nat, id: int)
    requires Ordered(env, st, ord) && SlotsDone(env, st, ord, r, b, p)
    requires id in st.mapInfo && !st.mapInfo[id].fInTried
    ensures Refs(r.newTable, Rank(ord.news, id)) <= Refs(st.newTable, id)
  {
    hide TriedIndex, AddrIndex, RandomIndex, Counted, Stamped, Rank;
    forall s | s in Refs(r.newTable, Rank(ord.news, id))
      ensures s in Refs(st.newTable, id)
    {
      var id' := st.newTable[s];
      assert Rank(ord.news, id') < |ord.news|;
    }
  }

  lemma RoomLeft(env: Env, st: State, ord: Order, r: State, b: nat, p: nat, s: Slot)
    requires Ordered(env, st, ord) && SlotsDone(env, st, ord, r, b, p)
    requires s in st.newTable && !Before(s, b, p) && st.newTable[s] in st.mapInfo
    ensures |Refs(r.newTable, Rank(ord.news, st.newTable[s]))| < NEW_BUCKETS_PER_ADDRESS
  {
    hide TriedIndex, AddrIndex, RandomIndex, Counted, Stamped, Rank, Lists;
    var id := st.newTable[s];
    RefsWithin(env, st, ord, r, b, p, id);
    var seen := Refs(r.newTable, Rank(ord.news, id));
    assert s !in seen && s in Refs(st.newTable, id);
    Common.SubsetSize(seen + {s}, Refs(st.newTable, id));
  }

  lemma PutCounts(r: State, s: Slot, idx: int)
    requires RefsCounted(r) && idx in r.mapInfo && s !in r.newTable
    ensures RefsCounted(PutRef(r, s, idx))
  {
    var q := PutRef(r, s, idx);
    forall i | i in q.mapInfo
      ensures q.mapInfo[i].nRefCount == |Refs(q.newTable, i)|
    {
      if i == idx {
        assert Refs(q.newTable, i) == Refs(r.newTable, i) + {s};
      } else {
        assert Refs(q.newTable, i) == Refs(r.newTable, i);
      }
    }
  }

  lemma PutSlots(env: Env, st: State, ord: Order, r: State, b: nat, p: nat)
    requires SlotsDone(env, st, ord, r, b, p)
    ensures Slot(b, p) !in st.newTable ==> SlotsDone(env, st, ord, r, b, p + 1)
    ensures Slot(b, p) in st.newTable ==>
              forall q: State ::
                q.newTable == r.newTable[Slot(b, p) := Rank(ord.news, st.newTable[Slot(b, p)])] ==>
                  SlotsDone(env, st, ord, q, b, p + 1)
  {
    hide Rank;
    forall s
      ensures Before(s, b, p + 1) <==> Before(s, b, p) || s == Slot(b, p)
    {
    }
  }

  lemma PutInfos(st: State, ord: Order, r: State, s: Slot, idx: int)
    requires (forall i | 0 <= i < ord.Size() :: ord.At(i) in st.mapInfo) && InfosDone(st, ord, r, ord.Size())
    requires idx in r.mapInfo
    ensures InfosDone(st, ord, PutRef(r, s, idx), ord.Size())
  {
    hide Saved;
  }

  /** A saved position is read back into the slot it came from. */
  lemma IndexRead(env: Env, st: State, ord: Order, r: State, b: nat, p: nat)
    requires Ordered(env, st, ord) && (forall i | 0 <= i < ord.Size() :: ord.At(i) in st.mapInfo)
    requires PositionsRead(env, st, ord, r, b, p) && Slot(b, p) in st.newTable
    ensures PositionsRead(env, st, ord,
                          ReadIndex(env, r, |ord.news|, b, true, Rank(ord.news, st.newTable[Slot(b, p)])), b, p + 1)
  {
    hide TriedIndex, AddrIndex, RandomIndex, Counted, Stamped, Rank, InfosDone, AddrsDone, TriedDone, SlotsDone,
         RefsCounted, NewSlotIn;
    var s := Slot(b, p);
    var id := st.newTable[s];
    var idx := Rank(ord.news, id);
    Referred(env, st, ord, r, s);
    RoomLeft(env, st, ord, r, b, p, s);
    NotYet(env, st, ord, r, b, p);
    Counts(r, idx);
    PutCounts(r, s, idx);
    PutSlots(env, st, ord, r, b, p);
    PutInfos(st, ord, r, s, idx);
    var q := PutRef(r, s, idx);
    assert ReadIndex(env, r, |ord.news|, b, true, idx) == q;
    SameRest(env, st, ord, r, q);
  }

  lemma Counts(r: State, i: int)
    requires RefsCounted(r) && i in r.mapInfo
    ensures r.mapInfo[i].nRefCount == |Refs(r.newTable, i)|
  {
  }

  lemma NotYet(env: Env, st: State, ord: Order, r: State, b: nat, p: nat)
    requires SlotsDone(env, st, ord, r, b, p)
    ensures Slot(b, p) !in r.newTable
  {
  }

  lemma SameRest(env: Env, st: State, ord: Order, r: State, q: State)
    requires AddrIndex(st) && TriedIndex(env, st)
    requires q.mapAddr == r.mapAddr && q.triedTable == r.triedTable
    ensures AddrsDone(st, ord, r, ord.Size()) ==> AddrsDone(st, ord, q, ord.Size())
    ensures TriedDone(env, st, ord, r, ord.Size()) ==> TriedDone(env, st, ord, q, ord.Size())
  {
  }

  lemma Referred(env: Env, st: State, ord: Order, r: State, s: Slot)
    requires Ordered(env, st, ord) && (forall i | 0 <= i < ord.Size() :: ord.At(i) in st.mapInfo)
    requires InfosDone(st, ord, r, ord.Size()) && s in st.newTable
    ensures var id := st.newTable[s];
            var idx := Rank(ord.news, id);
            && id in st.mapInfo && !st.mapInfo[id].fInTried
            && idx < |ord.news| && idx in r.mapInfo
            && NewSlotIn(env, r.mapInfo[idx].addr.service, s.bucket) == s && s.bucket < NEW_BUCKET_COUNT
  {
    hide TriedIndex, AddrIndex, RandomIndex, Counted, Stamped, Rank, NewSlotIn;
    var id := st.newTable[s];
    var idx := Rank(ord.news, id);
    assert idx < |ord.news| && ord.At(idx) == id;
  }

  lemma {:induction false} RowRead(env: Env, st: State, ord: Order, r: State, b: nat, p: nat)
    requires Ordered(env, st, ord) && (forall i | 0 <= i < ord.Size() :: ord.At(i) in st.mapInfo)
    requires PositionsRead(env, st, ord, r, b, 0)
    ensures PositionsRead(env, st, ord,
                          ReadRow(env, r, |ord.news|, b, true, Row(st.newTable, ord.news, b, p)), b, p)
  {
    hide TriedIndex, AddrIndex, RandomIndex, NewIndex, Counted, Stamped, Rank, Lists, InfosDone, AddrsDone,
         TriedDone, SlotsDone, RefsCounted, ReadIndex;
    if p > 0 {
      RowRead(env, st, ord, r, b, p - 1);
      var row, more := Row(st.newTable, ord.news, b, p - 1), Row(st.newTable, ord.news, b, p);
      var q := ReadRow(env, r, |ord.news|, b, true, row);
      if Slot(b, p - 1) in st.newTable {
        assert more[..|more| - 1] == row;
        IndexRead(env, st, ord, q, b, p - 1);
      } else {
        assert more == row;
        PutSlots(env, st, ord, q, b, p - 1);
      }
    }
  }

  lemma NextBucket(env: Env, st: State, ord: Order, r: State, b: nat)
    requires NewIndex(env, st, {}) && SlotsDone(env, st, ord, r, b, BUCKET_SIZE)
    ensures SlotsDone(env, st, ord, r, b + 1, 0)
  {
    hide Rank;
    forall s | s in st.newTable
      ensures Before(s, b, BUCKET_SIZE) <==> Before(s, b + 1, 0)
    {
    }
  }

  lemma {:induction false} RowsRead(env: Env, st: State, ord: Order, r: State, rows: seq<seq<int>>, k: nat)
    requires Ordered(env, st, ord) && (forall i | 0 <= i < ord.Size() :: ord.At(i) in st.mapInfo)
    requires PositionsRead(env, st, ord, r, 0, 0)
    requires k <= |rows| && forall b | 0 <= b < |rows| :: rows[b] == Row(st.newTable, ord.news, b, BUCKET_SIZE)
    ensures PositionsRead(env, st, ord, ReadRows(env, r, |ord.news|, true, rows, k), k, 0)
  {
    hide TriedIndex, AddrIndex, RandomIndex, NewIndex, Counted, Stamped, Rank, Lists, InfosDone, AddrsDone,
         TriedDone, SlotsDone, RefsCounted, Row, ReadRow;
    if k > 0 {
      RowsRead(env, st, ord, r, rows, k - 1);
      var q := ReadRows(env, r, |ord.news|, true, rows, k - 1);
      RowRead(env, st, ord, q, k - 1, BUCKET_SIZE);
      NextBucket(env, st, ord, ReadRow(env, q, |ord.news|, k - 1, true, rows[k - 1]), k - 1);
    }
  }

  // The result

  /** What comes back of an entry: its address with time and services, where it came from, its last success and failed
      attempts, its references and its table. When it was last tried is forgotten. */
  predicate Survives(before: Info, after: Info) {
    && after.addr == before.addr && after.source == before.source
    && after.nLastSuccess == before.nLastSuccess && after.nAttempts == before.nAttempts
    && after.nRefCount == before.nRefCount && after.fInTried == before.fInTried
    && after.nLastTry == 0 && after.nLastCountAttempt == 0
  }

  /** The same manager under new ids: tables, references, addresses and counts carried over. */
  ghost predicate Restores(env: Env, st: State, ord: Order, r: State)
    requires AddrIndex(st) && TriedIndex(env, st) && NewIndex(env, st, {})
  {
    && (forall i :: i in r.mapInfo <==> 0 <= i < ord.Size())
    && (forall id | id in st.mapInfo ::
          var i := Renumber(st, ord, id);
          && i in r.mapInfo
          && Survives(st.mapInfo[id], r.mapInfo[i]) && r.mapInfo[i].nRandomPos == i)
    && (forall s :: (s in r.newTable <==> s in st.newTable)
                    && (s in r.newTable ==> r.newTable[s] == Renumber(st, ord, st.newTable[s])))
    && (forall s :: (s in r.triedTable <==> s in st.triedTable)
                    && (s in r.triedTable ==> r.triedTable[s] == Renumber(st, ord, st.triedTable[s])))
    && (forall a :: (a in r.mapAddr <==> a in st.mapAddr)
                    && (a in r.mapAddr ==> r.mapAddr[a] == Renumber(st, ord, st.mapAddr[a])))
    && |r.vRandom| == ord.Size() && (forall i | 0 <= i < ord.Size() :: r.vRandom[i] == i)
    && r.nIdCount == ord.Size() && r.nNew == st.nNew && r.nTried == st.nTried && r.nLastGood == 1
  }

  lemma RefsEqual(env: Env, st: State, ord: Order, r: State, id: int)
    requires Ordered(env, st, ord) && SlotsDone(env, st, ord, r, NEW_BUCKET_COUNT, 0)
    requires id in st.mapInfo
    ensures Refs(r.newTable, Renumber(st, ord, id)) == Refs(st.newTable, id)
  {
    hide TriedIndex, AddrIndex, RandomIndex, Counted, Stamped, Rank;
    var i := Renumber(st, ord, id);
    RenumberIs(env, st, ord, id, i);
    forall s
      ensures s in Refs(r.newTable, i) <==> s in Refs(st.newTable, id)
    {
      if s in st.newTable {
        RenumberIs(env, st, ord, st.newTable[s], i);
      }
    }
  }

  lemma InfoRestored(env: Env, st: State, ord: Order, r: State, id: int)
    requires Ordered(env, st, ord) && (forall i | 0 <= i < ord.Size() :: ord.At(i) in st.mapInfo)
    requires PositionsRead(env, st, ord, r, NEW_BUCKET_COUNT, 0) && id in st.mapInfo
    ensures var i := Renumber(st, ord, id);
            i in r.mapInfo && Survives(st.mapInfo[id], r.mapInfo[i]) && r.mapInfo[i].nRandomPos == i
  {
    hide TriedIndex, AddrIndex, RandomIndex, Counted, Stamped, Lists, Rank, SlotsDone, AddrsDone, TriedDone, Renumber;
    var i := Renumber(st, ord, id);
    RenumberIs(env, st, ord, id, i);
    RefsEqual(env, st, ord, r, id);
  }

  lemma AllRestored(env: Env, st: State, ord: Order, r: State)
    requires Ordered(env, st, ord) && (forall i | 0 <= i < ord.Size() :: ord.At(i) in st.mapInfo)
    requires PositionsRead(env, st, ord, r, NEW_BUCKET_COUNT, 0)
    ensures Restores(env, st, ord, r)
  {
    hide RandomIndex, Counted, Stamped, Lists, Rank, Saved, Renumber, TriedIndex, NewIndex, AddrIndex, SlotsDone,
         AddrsDone, TriedDone, RefsCounted, Restored, Survives;
    forall id | id in st.mapInfo
      ensures var i := Renumber(st, ord, id);
              i in r.mapInfo && Survives(st.mapInfo[id], r.mapInfo[i]) && r.mapInfo[i].nRandomPos == i
    {
      InfoRestored(env, st, ord, r, id);
    }
    SlotsRenumbered(env, st, ord, r);
    TablesRenumbered(env, st, ord, r);
  }

  lemma SlotsRenumbered(env: Env, st: State, ord: Order, r: State)
    requires Ordered(env, st, ord) && SlotsDone(env, st, ord, r, NEW_BUCKET_COUNT, 0)
    ensures forall s :: (s in r.newTable <==> s in st.newTable)
                        && (s in r.newTable ==> r.newTable[s] == Renumber(st, ord, st.newTable[s]))
  {
    hide TriedIndex, AddrIndex, RandomIndex, Counted, Stamped, Lists, Rank;
  }

  lemma TablesRenumbered(env: Env, st: State, ord: Order, r: State)
    requires Ordered(env, st, ord)
    requires AddrsDone(st, ord, r, ord.Size()) && TriedDone(env, st, ord, r, ord.Size())
    ensures forall s :: (s in r.triedTable <==> s in st.triedTable)
                        && (s in r.triedTable ==> r.triedTable[s] == Renumber(st, ord, st.triedTable[s]))
    ensures forall a :: (a in r.mapAddr <==> a in st.mapAddr)
                        && (a in r.mapAddr ==> r.mapAddr[a] == Renumber(st, ord, st.mapAddr[a]))
  {
    hide NewIndex, RandomIndex, Counted, Stamped, Lists, Rank, Renumber, TriedSlot;
    forall s | s in st.triedTable
      ensures Renumber(st, ord, st.triedTable[s]) < ord.Size()
    {
      RenumberIs(env, st, ord, st.triedTable[s], 0);
    }
    forall a | a in st.mapAddr
      ensures Renumber(st, ord, st.mapAddr[a]) < ord.Size()
    {
      RenumberIs(env, st, ord, st.mapAddr[a], 0);
    }
  }

  lemma {:induction false} NothingPruned(env: Env, st: State, ord: Order, r: State, k: nat)
    requires Ordered(env, st, ord) && (forall i | 0 <= i < ord.Size() :: ord.At(i) in st.mapInfo)
    requires Restores(env, st, ord, r) && k <= ord.Size()
    ensures Prune(r, k) == r
  {
    hide RandomIndex, Counted, Stamped, Lists, Rank, Renumber, TriedIndex, AddrIndex, CanDelete, Delete;
    if k > 0 {
      NothingPruned(env, st, ord, r, k - 1);
      var id := ord.At(k - 1);
      RenumberIs(env, st, ord, id, k - 1);
    }
  }

  // The counts are within what the tables can hold

  ghost function Column(b: nat, n: nat): (c: set<Slot>)
    ensures |c| == n && forall s :: s in c <==> s.bucket == b && s.pos < n
  {
    if n == 0 then {} else Column(b, n - 1) + {Slot(b, n - 1)}
  }

  ghost function Grid(m: nat): (g: set<Slot>)
    ensures |g| == m * BUCKET_SIZE && forall s :: s in g <==> s.bucket < m && s.pos < BUCKET_SIZE
  {
    if m == 0 then {} else
      var g, c := Grid(m - 1), Column(m - 1, BUCKET_SIZE);
      assert g !! c;
      g + c
  }

  ghost function SlotsOf(table: map<Slot, int>, ids: seq<int>, k: nat): set<Slot> {
    set s | s in table && Rank(ids, table[s]) < k
  }

  /** Entries that each hold a slot are no more than the slots. */
  lemma {:induction false} EnoughSlots(table: map<Slot, int>, ids: seq<int>, k: nat)
    requires Different(ids) && k <= |ids| && forall i | 0 <= i < |ids| :: Refs(table, ids[i]) != {}
    ensures |SlotsOf(table, ids, k)| >= k
  {
    hide Rank;
    if k > 0 {
      EnoughSlots(table, ids, k - 1);
      var s :| s in Refs(table, ids[k - 1]);
      RankFound(ids, k - 1);
      Common.SubsetSize(SlotsOf(table, ids, k - 1) + {s}, SlotsOf(table, ids, k));
    }
  }

  lemma FitsTable(table: map<Slot, int>, ids: seq<int>, m: nat)
    requires Different(ids) && forall i | 0 <= i < |ids| :: Refs(table, ids[i]) != {}
    requires forall s | s in table :: s.bucket < m && s.pos < BUCKET_SIZE
    ensures |ids| <= m * BUCKET_SIZE
  {
    hide Rank;
    EnoughSlots(table, ids, |ids|);
    Common.SubsetSize(SlotsOf(table, ids, |ids|), Grid(m));
  }

  lemma CountsFit(env: Env, st: State, ord: Order)
    requires Ordered(env, st, ord)
    ensures |ord.news| <= NEW_BUCKET_COUNT * BUCKET_SIZE && |ord.trieds| <= TRIED_BUCKET_COUNT * BUCKET_SIZE
  {
    hide AddrIndex, RandomIndex, Counted, Stamped, Rank;
    forall i | 0 <= i < |ord.news|
      ensures Refs(st.newTable, ord.news[i]) != {}
    {
      assert |Refs(st.newTable, ord.news[i])| >= 1;
    }
    FitsTable(st.newTable, ord.news, NEW_BUCKET_COUNT);
    forall i | 0 <= i < |ord.trieds|
      ensures Refs(st.triedTable, ord.trieds[i]) != {}
    {
      assert TriedSlot(env, st.mapInfo[ord.trieds[i]].addr.service) in Refs(st.triedTable, ord.trieds[i]);
    }
    FitsTable(st.triedTable, ord.trieds, TRIED_BUCKET_COUNT);
  }

  lemma ImageMatches(env: Env, st: State)
    requires Consistent(env, st) && Ordered(env, st, OrderOf(st))
    ensures var img, ord := Serialize(env, st), OrderOf(st);
            && SameLayout(img) && BucketsIn(img) == NEW_BUCKET_COUNT == |img.buckets|
            && (forall i | 0 <= i < ord.Size() :: ord.At(i) in st.mapInfo) && Matches(st, ord, img)
            && forall b | 0 <= b < |img.buckets| :: img.buckets[b] == Row(st.newTable, ord.news, b, BUCKET_SIZE)
  {
    hide Consistent, Row, IdsOf;
    OrderIn(env, st, OrderOf(st));
    IdsOfIn(st.mapInfo, st.nIdCount, false);
    IdsOfIn(st.mapInfo, st.nIdCount, true);
  }

  /** Loading what a consistent manager saved gives the same manager back, up to its ids; nothing collides. */
  lemma RoundTrip(env: Env, st: State, key: nat)
    requires Consistent(env, st)
    ensures var img := Serialize(env, st);
            && BucketsIn(img) <= |img.buckets|
            && var loaded := Unserialize(env.(nKey := key), img);
               loaded.Loaded? && Restores(env, st, OrderOf(st), loaded.st)
  {
    hide TriedIndex, AddrIndex, NewIndex, RandomIndex, Counted, Stamped, Lists, Rank, Renumber, Restores, OrderOf,
         Serialize, ReadNews, ReadTried, ReadRows, Prune, PositionsRead, SameLayout, InfosDone, AddrsDone;
    var img, ord := Serialize(env, st), OrderOf(st);
    OrderHolds(env, st);
    ImageMatches(env, st);
    SavedHeader(env, st);
    CountsFit(env, st, ord);
    NewsRead(env, st, ord, img, |img.news|);
    var a := ReadNews(env, img, |img.news|).(nIdCount := |img.news|);
    NoTried(env, st, ord, a);
    InfosFrame(st, ord, ReadNews(env, img, |img.news|), a, |img.news|);
    TriedRead(env, st, ord, a, img.trieds, |img.trieds|);
    var b := ReadTried(env, a, img.trieds, |img.trieds|);
    NoPositions(env, st, ord, b);
    RowsRead(env, st, ord, b, img.buckets, NEW_BUCKET_COUNT);
    var r := Read(env, img);
    AllRestored(env, st, ord, r);
    NothingPruned(env, st, ord, r, ord.Size());
    RestoredIds(env, st, ord, r);
  }

  lemma SavedHeader(env: Env, st: State)
    ensures Serialize(env, st).nKey == env.nKey && Serialize(env, st).keySize == KEY_SIZE
  {
  }

  lemma InfosFrame(st: State, ord: Order, r: State, q: State, k: nat)
    requires AddrIndex(st) && k <= ord.Size() && forall i | 0 <= i < ord.Size() :: ord.At(i) in st.mapInfo
    requires q == r.(nIdCount := k)
    ensures InfosDone(st, ord, r, k) ==> InfosDone(st, ord, q, k)
    ensures AddrsDone(st, ord, r, k) ==> AddrsDone(st, ord, q, k)
  {
  }

  lemma NoPositions(env: Env, st: State, ord: Order, r: State)
    requires AddrIndex(st) && TriedIndex(env, st)
    requires forall i | 0 <= i < ord.Size() :: ord.At(i) in st.mapInfo
    requires EntriesRead(env, st, ord, r, ord.Size())
    ensures PositionsRead(env, st, ord, r, 0, 0)
  {
    hide InfosDone, AddrsDone, TriedDone, TriedIndex, AddrIndex;
    assert forall i :: Refs(r.newTable, i) == {};
  }

  lemma RestoredIds(env: Env, st: State, ord: Order, r: State)
    requires AddrIndex(st) && TriedIndex(env, st) && NewIndex(env, st, {}) && Restores(env, st, ord, r)
    ensures r.nIdCount == ord.Size()
  {
  }

  // The loaded manager is consistent again

  /** Every id of the loaded manager is the new id of an entry. */
  lemma Origin(env: Env, st: State, ord: Order, r: State, i: int)
    requires Ordered(env, st, ord) && Restores(env, st, ord, r) && i in r.mapInfo
    ensures 0 <= i < ord.Size() && ord.At(i) in st.mapInfo && Renumber(st, ord, ord.At(i)) == i
    ensures Survives(st.mapInfo[ord.At(i)], r.mapInfo[i]) && r.mapInfo[i].nRandomPos == i
    ensures st.mapInfo[ord.At(i)].fInTried <==> i >= |ord.news|
  {
    hide TriedIndex, AddrIndex, NewIndex, RandomIndex, Counted, Stamped, Lists, Renumber, Survives;
    OrderIn(env, st, ord);
    RenumberIs(env, st, ord, ord.At(i), i);
  }

  lemma LoadedAddrs(env: Env, st: State, ord: Order, r: State)
    requires Ordered(env, st, ord) && Restores(env, st, ord, r)
    ensures AddrIndex(r) && RandomIndex(r) && IdsBelow(r) && Stamped(r)
  {
    hide TriedIndex, NewIndex, RandomIndex, Counted, Lists, Renumber, TriedSlot;
    forall i | i in r.mapInfo
      ensures var a := r.mapInfo[i].addr.service.addr; a in r.mapAddr && r.mapAddr[a] == i
      ensures r.mapInfo[i].nLastTry >= 0 && r.mapInfo[i].nLastSuccess >= 0
              && (r.mapInfo[i].fInTried ==> r.mapInfo[i].nLastSuccess > 0) && r.mapInfo[i].nRandomPos == i
    {
      Origin(env, st, ord, r, i);
    }
    LoadedRandom(r, ord.Size());
  }

  lemma LoadedRandom(r: State, n: nat)
    requires (forall i :: i in r.mapInfo <==> 0 <= i < n) && forall i | i in r.mapInfo :: r.mapInfo[i].nRandomPos == i
    requires |r.vRandom| == n && forall i | 0 <= i < n :: r.vRandom[i] == i
    ensures RandomIndex(r)
  {
  }

  lemma LoadedTried(env: Env, st: State, ord: Order, r: State)
    requires Ordered(env, st, ord) && Restores(env, st, ord, r)
    ensures TriedIndex(env, r)
  {
    hide AddrIndex, NewIndex, RandomIndex, Counted, Stamped, Lists, Renumber, TriedSlot;
    forall i | i in r.mapInfo && r.mapInfo[i].fInTried
      ensures var s := TriedSlot(env, r.mapInfo[i].addr.service); s in r.triedTable && r.triedTable[s] == i
    {
      Origin(env, st, ord, r, i);
    }
  }

  lemma LoadedRefs(env: Env, st: State, ord: Order, r: State, i: int)
    requires Ordered(env, st, ord) && Restores(env, st, ord, r) && i in r.mapInfo
    ensures 0 <= i < ord.Size() && Refs(r.newTable, i) == Refs(st.newTable, ord.At(i))
  {
    hide TriedIndex, AddrIndex, RandomIndex, Counted, Stamped, Lists, Renumber;
    Origin(env, st, ord, r, i);
    forall s
      ensures s in Refs(r.newTable, i) <==> s in Refs(st.newTable, ord.At(i))
    {
      if s in st.newTable {
        RenumberIs(env, st, ord, st.newTable[s], i);
      }
    }
  }

  lemma LoadedNew(env: Env, st: State, ord: Order, r: State)
    requires Ordered(env, st, ord) && Restores(env, st, ord, r)
    ensures NewIndex(env, r, {})
  {
    hide AddrIndex, TriedIndex, RandomIndex, Counted, Stamped, Lists, Renumber, NewSlotIn;
    forall i | i in r.mapInfo
      ensures r.mapInfo[i].nRefCount == |Refs(r.newTable, i)| <= NEW_BUCKETS_PER_ADDRESS
      ensures !r.mapInfo[i].fInTried ==> r.mapInfo[i].nRefCount >= 1
    {
      Origin(env, st, ord, r, i);
      LoadedRefs(env, st, ord, r, i);
    }
  }

  ghost function Range(a: int, b: int): (ids: set<int>)
    requires a <= b
    ensures |ids| == b - a && forall i :: i in ids <==> a <= i < b
    decreases b - a
  {
    if a == b then {} else Range(a, b - 1) + {b - 1}
  }

  lemma LoadedCounts(env: Env, st: State, ord: Order, r: State)
    requires Ordered(env, st, ord) && Restores(env, st, ord, r)
    ensures Counted(r, 0)
  {
    hide AddrIndex, TriedIndex, NewIndex, RandomIndex, Counted, Stamped, Lists, Renumber, Restores;
    KeysLoaded(env, st, ord, r);
    assert IdsWith(r.mapInfo, false) == Range(0, |ord.news|);
    assert IdsWith(r.mapInfo, true) == Range(|ord.news|, ord.Size());
    CountsSame(env, st, ord, r);
  }

  lemma CountsSame(env: Env, st: State, ord: Order, r: State)
    requires Ordered(env, st, ord) && Restores(env, st, ord, r)
    requires |IdsWith(r.mapInfo, false)| == |ord.news| && |IdsWith(r.mapInfo, true)| == |ord.trieds|
    ensures Counted(r, 0)
  {
    hide AddrIndex, TriedIndex, NewIndex, RandomIndex, Stamped, Lists, Renumber;
  }

  lemma KeysLoaded(env: Env, st: State, ord: Order, r: State)
    requires Ordered(env, st, ord) && Restores(env, st, ord, r)
    ensures forall i :: i in IdsWith(r.mapInfo, false) <==> 0 <= i < |ord.news|
    ensures forall i :: i in IdsWith(r.mapInfo, true) <==> |ord.news| <= i < ord.Size()
  {
    hide AddrIndex, TriedIndex, NewIndex, RandomIndex, Counted, Stamped, Lists, Renumber;
    forall i | i in r.mapInfo
      ensures r.mapInfo[i].fInTried <==> i >= |ord.news|
    {
      Origin(env, st, ord, r, i);
    }
  }

  /** What a consistent manager saved loads into a consistent manager. */
  lemma LoadedConsistent(env: Env, st: State, key: nat)
    requires Consistent(env, st)
    ensures var img := Serialize(env, st);
            && BucketsIn(img) <= |img.buckets|
            && var loaded := Unserialize(env.(nKey := key), img);
               loaded.Loaded? && Consistent(env, loaded.st)
  {
    hide TriedIndex, AddrIndex, NewIndex, RandomIndex, Counted, Stamped, Lists, Restores, OrderOf, Serialize, Unserialize;
    var ord := OrderOf(st);
    OrderHolds(env, st);
    RoundTrip(env, st, key);
    var r := Unserialize(env.(nKey := key), Serialize(env, st)).st;
    LoadedAddrs(env, st, ord, r);
    LoadedTried(env, st, ord, r);
    LoadedNew(env, st, ord, r);
    LoadedCounts(env, st, ord, r);
  }

  // ----- the image itself, and images of another layout

  /** The header written: version 1, a key of 32 bytes, the key, and the bucket count with bit 30 set. The entries written
      are those with references and those tried, in the order of their ids. */
  lemma ImageIs(env: Env, st: State)
    requires Consistent(env, st)
    ensures var img := Serialize(env, st);
            && img.version == 1 && img.keySize == 32 && img.nKey == env.nKey && img.nUBuckets == 1024 + 0x4000_0000
            && |img.news| == st.nNew && |img.trieds| == st.nTried && |img.buckets| == 1024
  {
    hide Consistent, IdsOf, Rows;
    OrderHolds(env, st);
    ImageMatches(env, st);
  }

  /** Which images are refused, and with what error. */
  lemma RefusedExactly(env: Env, img: Image)
    requires BucketsIn(img) <= |img.buckets|
    ensures var result := Unserialize(env, img);
            && (result == BadKeySize <==> img.keySize != 32)
            && (result == TooManyNew <==> img.keySize == 32 && |img.news| > 1024 * 64)
            && (result == TooManyTried <==> img.keySize == 32 && |img.news| <= 1024 * 64 && |img.trieds| > 256 * 64)
  {
    hide Read, Prune;
  }

  /** The slot a new entry of an image asks for. */
  function PrimarySlot(env: Env, img: Image, j: nat): Slot
    requires j < |img.news|
  {
    NewSlot(env, img.news[j].addr.service, img.news[j].source)
  }

  /** The first k new entries as the image has them. */
  ghost predicate NewsKept(img: Image, st: State, k: nat)
    requires k <= |img.news|
  {
    && (forall j :: j in st.mapInfo <==> 0 <= j < k)
    && forall j | 0 <= j < k ::
         && st.mapInfo[j].addr == img.news[j].addr && st.mapInfo[j].source == img.news[j].source
         && st.mapInfo[j].nLastSuccess == img.news[j].nLastSuccess && st.mapInfo[j].nAttempts == img.news[j].nAttempts
         && !st.mapInfo[j].fInTried
  }

  /** The first of them to ask for a slot has it, and only the first has a reference. */
  ghost predicate FirstServed(env: Env, img: Image, st: State, k: nat)
    requires k <= |img.news| && NewsKept(img, st, k)
  {
    && (forall s | s in st.newTable ::
          && 0 <= st.newTable[s] < k && PrimarySlot(env, img, st.newTable[s]) == s
          && forall j | 0 <= j < st.newTable[s] :: PrimarySlot(env, img, j) != s)
    && forall j | 0 <= j < k ::
         && PrimarySlot(env, img, j) in st.newTable
         && st.mapInfo[j].nRefCount == (if st.newTable[PrimarySlot(env, img, j)] == j then 1 else 0)
  }

  /** In an image of another layout every new entry asks for the slot its address and source give; the first to ask gets
      it, and the others have no reference. Nothing else of them is lost. */
  lemma {:induction false} OtherLayoutNews(env: Env, img: Image, k: nat)
    requires !(img.version == 1 && BucketsIn(img) == 1024) && k <= |img.news|
    ensures NewsKept(img, ReadNews(env, img, k), k) && FirstServed(env, img, ReadNews(env, img, k), k)
  {
    hide AddNew, NewsKept, FirstServed;
    if k == 0 {
      NoneServed(env, img);
    } else {
      OtherLayoutNews(env, img, k - 1);
      var st := ReadNews(env, img, k - 1);
      OneKept(env, img, st, k - 1);
      OneServed(env, img, st, k - 1);
    }
  }

  lemma NoneServed(env: Env, img: Image)
    ensures NewsKept(img, ReadNews(env, img, 0), 0) && FirstServed(env, img, ReadNews(env, img, 0), 0)
  {}

  lemma OneKept(env: Env, img: Image, st: State, k: nat)
    requires k < |img.news| && NewsKept(img, st, k)
    ensures NewsKept(img, AddNew(env, st, false, k, img.news[k]), k + 1)
  {
    hide NewSlot;
  }

  lemma OneServed(env: Env, img: Image, st: State, k: nat)
    requires k < |img.news| && NewsKept(img, st, k) && FirstServed(env, img, st, k)
    requires NewsKept(img, AddNew(env, st, false, k, img.news[k]), k + 1)
    ensures FirstServed(env, img, AddNew(env, st, false, k, img.news[k]), k + 1)
  {
    hide PrimarySlot, NewsKept, AddNew;
    NewsIds(img, st, k);
    AddNewIs(env, img, st, k);
  }

  lemma AddNewIs(env: Env, img: Image, st: State, k: nat)
    requires k < |img.news| && k !in st.mapInfo
    ensures var st', s := AddNew(env, st, false, k, img.news[k]), PrimarySlot(env, img, k);
            && st'.newTable == (if s in st.newTable then st.newTable else st.newTable[s := k])
            && k in st'.mapInfo && st'.mapInfo[k].nRefCount == (if s in st.newTable then 0 else 1)
            && forall j | j in st.mapInfo :: j in st'.mapInfo && st'.mapInfo[j] == st.mapInfo[j]
  {
    hide NewSlot;
  }

  lemma NewsIds(img: Image, st: State, k: nat)
    requires k <= |img.news| && NewsKept(img, st, k)
    ensures forall j :: j in st.mapInfo <==> 0 <= j < k
  {}

  /** The positions of such an image are not used. */
  lemma {:induction false} OtherLayoutRows(env: Env, st: State, n: int, rows: seq<seq<int>>, k: nat)
    requires k <= |rows|
    ensures ReadRows(env, st, n, false, rows, k) == st
  {
    if k > 0 {
      OtherLayoutRows(env, st, n, rows, k - 1);
      OtherLayoutRow(env, st, n, k - 1, rows[k - 1]);
    }
  }

  lemma {:induction false} OtherLayoutRow(env: Env, st: State, n: int, b: nat, row: seq<int>)
    ensures ReadRow(env, st, n, b, false, row) == st
  {
    if row != [] {
      OtherLayoutRow(env, st, n, b, row[..|row| - 1]);
    }
  }
}
