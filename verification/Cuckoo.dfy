/** The cuckoo cache: eight-way insertion with bounded displacement, lazy discarding and ageing by epochs. */
module Cuckoo {
  import opened Common

  /** Elements are 256-bit values; a fresh table is full of the default one. */
  type Element = nat

  const DEFAULT: Element := 0
  const TWO32: nat := 0x1_0000_0000
  const INVALID: nat := 0xffff_ffff

  /** `hash(k, e)` is the k-th 32-bit hash of `e`. */
  datatype Config = Config(size: nat, epochSize: nat, depthLimit: nat, hash: (nat, Element) -> nat)

  ghost predicate ValidConfig(c: Config) {
    && 2 <= c.size <= INVALID && c.epochSize >= 1
    && forall k, e :: c.hash(k, e) < TWO32
  }

  /** discard[i]: the collection flag, slot i may be overwritten. epoch[i]: stored in the current epoch. */
  datatype State = State(table: seq<Element>, discard: seq<bool>, epoch: seq<bool>, counter: nat)

  // ----- the eight slots of an element

  /** The 32-bit hash as a fraction of the table. */
  function Loc(c: Config, k: nat, e: Element): nat {
    c.hash(k, e) * c.size / TWO32
  }

  lemma LocInRange(c: Config, k: nat, e: Element)
    requires ValidConfig(c)
    ensures Loc(c, k, e) < c.size
  {
    ScaleLt(c.hash(k, e), c.size);
    DivLt(c.hash(k, e) * c.size, c.size);
  }

  lemma ScaleLt(h: nat, n: nat)
    requires h < TWO32 && n > 0
    ensures h * n < TWO32 * n
  {}

  lemma DivLt(x: nat, n: nat)
    requires x < TWO32 * n
    ensures x / TWO32 < n
  {}

  function ComputeHashes(c: Config, e: Element): (locs: seq<nat>)
    ensures |locs| == 8
  {
    seq(8, k requires 0 <= k < 8 => Loc(c, k, e))
  }

  lemma HashesInRange(c: Config, e: Element)
    requires ValidConfig(c)
    ensures forall k | 0 <= k < 8 :: ComputeHashes(c, e)[k] < c.size
  {
    forall k | 0 <= k < 8 ensures ComputeHashes(c, e)[k] < c.size {
      LocInRange(c, k, e);
    }
  }

  ghost predicate OwnSlot(c: Config, e: Element, i: int) {
    i in ComputeHashes(c, e)
  }

  // ----- the invariant

  ghost predicate Sized(c: Config, st: State) {
    |st.table| == |st.discard| == |st.epoch| == c.size
  }

  /** Every live element, and every element but the default one, lies in one of its own eight slots; no element
      but the default one is stored twice. */
  ghost predicate WellPlaced(c: Config, st: State) {
    && Sized(c, st)
    && (forall i | 0 <= i < c.size && (!st.discard[i] || st.table[i] != DEFAULT) :: OwnSlot(c, st.table[i], i))
    && (forall i, j | 0 <= i < j < c.size && st.table[i] == st.table[j] :: st.table[i] == DEFAULT)
  }

  ghost function LiveSlots(st: State): set<int> {
    set i | 0 <= i < |st.discard| && !st.discard[i]
  }

  ghost function LiveElements(st: State): set<Element>
    requires |st.table| == |st.discard|
  {
    set i | 0 <= i < |st.discard| && !st.discard[i] :: st.table[i]
  }

  /** The live slots of the current epoch, or of the older one. */
  ghost function EpochSlots(st: State, current: bool): set<int>
    requires |st.epoch| == |st.discard|
  {
    set i | 0 <= i < |st.discard| && !st.discard[i] && st.epoch[i] == current
  }

  // ----- operations

  /** The first of the slots that holds `e`. */
  function FirstElement(table: seq<Element>, locs: seq<nat>, e: Element): (r: Option<nat>)
    ensures r.Some? ==> r.value in locs && r.value < |table| && table[r.value] == e
    ensures r.None? ==> forall l | l in locs && l < |table| :: table[l] != e
  {
    if locs == [] then None
    else if locs[0] < |table| && table[locs[0]] == e then Some(locs[0])
    else
      assert forall l | l in locs :: l == locs[0] || l in locs[1..];
      FirstElement(table, locs[1..], e)
  }

  /** The first of the slots that may be overwritten. */
  function FirstFree(discard: seq<bool>, locs: seq<nat>): (r: Option<nat>)
    ensures r.Some? ==> r.value in locs && r.value < |discard| && discard[r.value]
    ensures r.None? ==> forall l | l in locs && l < |discard| :: !discard[l]
  {
    if locs == [] then None
    else if locs[0] < |discard| && discard[locs[0]] then Some(locs[0])
    else
      assert forall l | l in locs :: l == locs[0] || l in locs[1..];
      FirstFree(discard, locs[1..])
  }

  ghost function FindElement(c: Config, st: State, e: Element): (r: Option<nat>)
    requires ValidConfig(c) && Sized(c, st)
    ensures r.Some? ==> r.value < c.size && OwnSlot(c, e, r.value) && st.table[r.value] == e
    ensures r.None? ==> forall i | 0 <= i < c.size && OwnSlot(c, e, i) :: st.table[i] != e
  {
    HashesInRange(c, e);
    FirstElement(st.table, ComputeHashes(c, e), e)
  }

  ghost function FindFree(c: Config, st: State, e: Element): (r: Option<nat>)
    requires ValidConfig(c) && Sized(c, st)
    ensures r.Some? ==> r.value < c.size && OwnSlot(c, e, r.value) && st.discard[r.value]
    ensures r.None? ==> forall i | 0 <= i < c.size && OwnSlot(c, e, i) :: !st.discard[i]
  {
    HashesInRange(c, e);
    FirstFree(st.discard, ComputeHashes(c, e))
  }

  ghost function Age(st: State): State
    requires |st.epoch| == |st.discard|
  {
    st.(epoch := seq(|st.epoch|, _ => false),
        discard := seq(|st.discard|, i requires 0 <= i < |st.discard| => st.discard[i] || !st.epoch[i]))
  }

  /** The cheap counter decides when to count the current epoch; a full epoch is aged. */
  ghost function EpochCheck(c: Config, st: State): State
    requires |st.epoch| == |st.discard|
  {
    if st.counter != 0 then st.(counter := st.counter - 1)
    else
      var unused := |EpochSlots(st, true)|;
      if unused >= c.epochSize then Age(st).(counter := c.epochSize)
      else st.(counter := Max(1, Max(c.epochSize / 16, c.epochSize - unused)))
  }

  /** Store `e` in slot `l`, which becomes live. */
  function Put(st: State, l: nat, e: Element, epoch: bool): (st': State)
    requires l < |st.table| == |st.discard| == |st.epoch|
    ensures |st'.table| == |st'.discard| == |st'.epoch| == |st.table|
  {
    st.(table := st.table[l := e], discard := st.discard[l := false], epoch := st.epoch[l := epoch])
  }

  /** The slot after the one the element came from; an element that came from nowhere goes to the second. */
  function NextLoc(locs: seq<nat>, last: nat): (l: nat)
    requires |locs| == 8
    ensures l in locs
  {
    locs[(1 + IndexOf(locs, last)) % 8]
  }

  function IndexOf(locs: seq<nat>, x: nat): (i: nat)
    ensures i <= |locs| && (i < |locs| ==> locs[i] == x)
  {
    if locs == [] || locs[0] == x then 0 else 1 + IndexOf(locs[1..], x)
  }

  /** Put `e` in slot `l` in exchange for what is there. */
  function Swap(st: State, l: nat, e: Element, epoch: bool): (st': State)
    requires l < |st.table| == |st.epoch|
    ensures |st'.table| == |st'.epoch| == |st.table| && |st'.discard| == |st.discard|
  {
    st.(table := st.table[l := e], epoch := st.epoch[l := epoch])
  }

  ghost function KickLoc(c: Config, e: Element, last: nat): (l: nat)
    requires ValidConfig(c)
    ensures l < c.size && OwnSlot(c, e, l)
  {
    HashesInRange(c, e);
    NextLoc(ComputeHashes(c, e), last)
  }

  lemma {:induction false} IndexOfFirst(locs: seq<nat>, x: nat)
    ensures forall j | 0 <= j < IndexOf(locs, x) :: locs[j] != x
  {
    if locs != [] && locs[0] != x {
      IndexOfFirst(locs[1..], x);
      forall j | 0 <= j < IndexOf(locs, x) ensures locs[j] != x {
        assert j > 0 ==> locs[j] == locs[1..][j - 1];
      }
    }
  }

  /** An element displaced from its slot `last` goes to the slot after the first of its eight that is `last`; the
      element being inserted comes from no slot and goes to its second one, not to its first. */
  lemma KickOrder(c: Config, e: Element, last: nat) returns (k: nat)
    requires ValidConfig(c)
    ensures var locs := ComputeHashes(c, e);
            && (last == INVALID ==> last !in locs)
            && (last !in locs ==> KickLoc(c, e, last) == locs[1])
            && (last in locs ==> k < 8 && locs[k] == last && last !in locs[..k] && KickLoc(c, e, last) == locs[(k + 1) % 8])
  {
    HashesInRange(c, e);
    IndexOfFirst(ComputeHashes(c, e), last);
    k := IndexOf(ComputeHashes(c, e), last);
  }

  /** The displacement loop with `depth` rounds left; the element in hand is dropped when they run out. */
  ghost function Displace(c: Config, st: State, e: Element, last: nat, epoch: bool, depth: nat): (st': State)
    requires ValidConfig(c) && Sized(c, st)
    ensures Sized(c, st')
    decreases depth
  {
    if depth == 0 then st
    else
      match FindFree(c, st, e)
      case Some(l) => Put(st, l, e, epoch)
      case None =>
        var l := KickLoc(c, e, last);
        Displace(c, Swap(st, l, e, epoch), st.table[l], l, st.epoch[l], depth - 1)
  }

  /** Insertion after the epoch check. */
  ghost function Store(c: Config, st: State, e: Element): State
    requires ValidConfig(c) && Sized(c, st)
  {
    match FindElement(c, st, e)
    case Some(l) => Put(st, l, e, true)
    case None => Displace(c, st, e, INVALID, true, c.depthLimit)
  }

  ghost function Insert(c: Config, st: State, e: Element): State
    requires ValidConfig(c) && Sized(c, st)
  {
    Store(c, EpochCheck(c, st), e)
  }

  /** Lookup, and with `erase` the discard flag of the slot found. */
  ghost function Contains(c: Config, st: State, e: Element, erase: bool): (State, bool)
    requires ValidConfig(c) && Sized(c, st)
  {
    match FindElement(c, st, e)
    case None => (st, false)
    case Some(l) => (if erase then st.(discard := st.discard[l := true]) else st, true)
  }

  lemma DisplaceUnfold(c: Config, st: State, e: Element, last: nat, epoch: bool, depth: nat)
    requires ValidConfig(c) && Sized(c, st)
    ensures Displace(c, st, e, last, epoch, depth) ==
              if depth == 0 then st
              else if FindFree(c, st, e).Some? then Put(st, FindFree(c, st, e).value, e, epoch)
              else
                var l := KickLoc(c, e, last);
                Displace(c, Swap(st, l, e, epoch), st.table[l], l, st.epoch[l], depth - 1)
  {}

  // ----- ageing

  lemma AgeKeeps(c: Config, st: State)
    requires WellPlaced(c, st)
    ensures WellPlaced(c, Age(st))
    ensures EpochSlots(Age(st), true) == {} && EpochSlots(Age(st), false) == EpochSlots(st, true)
    ensures LiveElements(Age(st)) <= LiveElements(st)
  {}

  lemma EpochCheckKeeps(c: Config, st: State)
    requires WellPlaced(c, st)
    ensures WellPlaced(c, EpochCheck(c, st)) && LiveElements(EpochCheck(c, st)) <= LiveElements(st)
  {
    AgeKeeps(c, st);
  }

  // ----- placement

  /** The placement invariant with an element in hand: it is stored nowhere unless it is the default one. */
  ghost predicate InHand(c: Config, st: State, e: Element) {
    WellPlaced(c, st) && (e != DEFAULT ==> forall i | 0 <= i < c.size :: st.table[i] != e)
  }

  lemma PutKeeps(c: Config, st: State, l: nat, e: Element, epoch: bool)
    requires InHand(c, st, e) && l < c.size && OwnSlot(c, e, l) && st.discard[l]
    ensures WellPlaced(c, Put(st, l, e, epoch))
    ensures LiveElements(Put(st, l, e, epoch)) == LiveElements(st) + {e}
  {
    var st' := Put(st, l, e, epoch);
    forall x ensures x in LiveElements(st') <==> x in LiveElements(st) + {e} {
      if x in LiveElements(st) {
        var i :| 0 <= i < |st.discard| && !st.discard[i] && st.table[i] == x;
        assert !st'.discard[i] && st'.table[i] == x;
      }
      if x == e {
        assert !st'.discard[l] && st'.table[l] == e;
      }
      if x in LiveElements(st') {
        var i :| 0 <= i < |st'.discard| && !st'.discard[i] && st'.table[i] == x;
        assert i == l || (!st.discard[i] && st.table[i] == x);
      }
    }
  }

  lemma SwapLive(c: Config, st: State, l: nat, e: Element, epoch: bool)
    requires Sized(c, st) && l < c.size && !st.discard[l]
    ensures LiveElements(Swap(st, l, e, epoch)) + {st.table[l]} == LiveElements(st) + {e}
  {
    var st', y := Swap(st, l, e, epoch), st.table[l];
    forall x ensures x in LiveElements(st') + {y} <==> x in LiveElements(st) + {e} {
      if x in LiveElements(st) && x != y {
        var i :| 0 <= i < |st.discard| && !st.discard[i] && st.table[i] == x;
        assert !st'.discard[i] && st'.table[i] == x;
      }
      if x == e {
        assert !st'.discard[l] && st'.table[l] == e;
      }
      if x in LiveElements(st') && x != e {
        var i :| 0 <= i < |st'.discard| && !st'.discard[i] && st'.table[i] == x;
        assert !st.discard[i] && st.table[i] == x;
      }
      if x == y {
        assert !st.discard[l] && st.table[l] == y;
      }
    }
  }

  lemma SwapKeeps(c: Config, st: State, l: nat, e: Element, epoch: bool)
    requires InHand(c, st, e) && l < c.size && OwnSlot(c, e, l) && !st.discard[l]
    ensures InHand(c, Swap(st, l, e, epoch), st.table[l])
    ensures LiveElements(Swap(st, l, e, epoch)) + {st.table[l]} == LiveElements(st) + {e}
  {
    SwapLive(c, st, l, e, epoch);
    hide LiveElements, OwnSlot;
  }

  /** What insertion can lose: everything that was live, and the new element, stays live but for at most one. */
  ghost predicate LosesAtMostOne(before: set<Element>, e: Element, after: set<Element>) {
    && after <= before + {e}
    && exists x :: before + {e} - {x} <= after
  }

  lemma LosesNone(before: set<Element>, e: Element)
    ensures LosesAtMostOne(before, e, before + {e}) && LosesAtMostOne(before, e, before)
  {
    assert before + {e} - {e} <= before + {e};
    assert before + {e} - {e} <= before;
  }

  lemma LosesLater(before: set<Element>, e: Element, mid: set<Element>, y: Element, after: set<Element>)
    requires mid + {y} == before + {e} && LosesAtMostOne(mid, y, after)
    ensures LosesAtMostOne(before, e, after)
  {}

  lemma InHandPlaced(c: Config, st: State, e: Element)
    requires InHand(c, st, e)
    ensures WellPlaced(c, st)
  {}

  lemma {:induction false} DisplaceWellPlaced(c: Config, st: State, e: Element, last: nat, epoch: bool, depth: nat)
    requires ValidConfig(c) && Sized(c, st) && InHand(c, st, e)
    ensures WellPlaced(c, Displace(c, st, e, last, epoch, depth))
    decreases depth
  {
    hide ValidConfig, WellPlaced, InHand, LiveElements, OwnSlot, KickLoc, FindFree, Put, Swap;
    InHandPlaced(c, st, e);
    if depth > 0 {
      match FindFree(c, st, e)
      case Some(l) =>
        PutKeeps(c, st, l, e, epoch);
      case None =>
        var l := KickLoc(c, e, last);
        SwapKeeps(c, st, l, e, epoch);
        DisplaceWellPlaced(c, Swap(st, l, e, epoch), st.table[l], l, st.epoch[l], depth - 1);
    }
  }

  lemma {:induction false} DisplaceLoses(c: Config, st: State, e: Element, last: nat, epoch: bool, depth: nat)
    requires ValidConfig(c) && Sized(c, st) && InHand(c, st, e)
    ensures LosesAtMostOne(LiveElements(st), e, LiveElements(Displace(c, st, e, last, epoch, depth)))
    decreases depth
  {
    hide ValidConfig, WellPlaced, InHand, LiveElements, OwnSlot, KickLoc, FindFree, Put, Swap, LosesAtMostOne;
    LosesNone(LiveElements(st), e);
    if depth > 0 {
      match FindFree(c, st, e)
      case Some(l) =>
        PutKeeps(c, st, l, e, epoch);
      case None =>
        var l := KickLoc(c, e, last);
        SwapKeeps(c, st, l, e, epoch);
        var st1 := Swap(st, l, e, epoch);
        DisplaceLoses(c, st1, st.table[l], l, st.epoch[l], depth - 1);
        LosesLater(LiveElements(st), e, LiveElements(st1), st.table[l],
                   LiveElements(Displace(c, st1, st.table[l], l, st.epoch[l], depth - 1)));
    }
  }

  /** For every hash function and depth limit: after the epoch check, one insertion keeps the placement invariant,
      and the live elements become the old ones and the new one, less at most one. */
  lemma StoreKeeps(c: Config, st: State, e: Element)
    requires ValidConfig(c) && WellPlaced(c, st)
    ensures WellPlaced(c, Store(c, st, e))
    ensures LosesAtMostOne(LiveElements(st), e, LiveElements(Store(c, st, e)))
    ensures FindElement(c, st, e).Some? ==> LiveElements(Store(c, st, e)) == LiveElements(st) + {e}
  {
    match FindElement(c, st, e)
    case Some(l) =>
      var st' := Store(c, st, e);
      assert st'.table == st.table;
      assert LiveElements(st') == LiveElements(st) + {e} by {
        assert forall i | 0 <= i < c.size && i != l :: st'.discard[i] == st.discard[i];
        assert !st'.discard[l] && st'.table[l] == e;
        forall x | x in LiveElements(st) ensures x in LiveElements(st') {
          var i :| 0 <= i < |st.discard| && !st.discard[i] && st.table[i] == x;
          assert !st'.discard[i] && st'.table[i] == x;
        }
      }
      assert LiveElements(st) + {e} - {e} <= LiveElements(st');
    case None =>
      assert InHand(c, st, e);
      DisplaceWellPlaced(c, st, e, INVALID, true, c.depthLimit);
      DisplaceLoses(c, st, e, INVALID, true, c.depthLimit);
  }

  // ----- epoch accounting

  /** How far an epoch may grow before a scan is due. */
  function Bound(c: Config): nat {
    c.epochSize + Max(1, c.epochSize / 16)
  }

  /** The counter covers what the current epoch may still gain, and the older epoch was once a current one. */
  ghost predicate Accounted(c: Config, st: State)
    requires |st.epoch| == |st.discard|
  {
    |EpochSlots(st, true)| + st.counter <= Bound(c) && |EpochSlots(st, false)| <= Bound(c)
  }

  lemma SlotChange(a: set<int>, b: set<int>, l: int)
    requires a - {l} == b - {l}
    ensures |b| == |a| + (if l in b then 1 else 0) - (if l in a then 1 else 0)
  {
    assert l in a ==> a == (a - {l}) + {l};
    assert l !in a ==> a == a - {l};
    assert l in b ==> b == (b - {l}) + {l};
    assert l !in b ==> b == b - {l};
  }

  lemma EpochSlotsChange(st: State, st': State, l: nat, current: bool)
    requires |st.epoch| == |st.discard| == |st'.epoch| == |st'.discard| && l < |st.epoch|
    requires forall i | 0 <= i < |st.epoch| && i != l :: st.epoch[i] == st'.epoch[i] && st.discard[i] == st'.discard[i]
    ensures |EpochSlots(st', current)| == |EpochSlots(st, current)|
              + (if !st'.discard[l] && st'.epoch[l] == current then 1 else 0)
              - (if !st.discard[l] && st.epoch[l] == current then 1 else 0)
  {
    assert EpochSlots(st, current) - {l} == EpochSlots(st', current) - {l};
    SlotChange(EpochSlots(st, current), EpochSlots(st', current), l);
  }

  lemma {:induction false} DisplaceCounts(c: Config, st: State, e: Element, last: nat, epoch: bool, depth: nat, current: bool)
    requires ValidConfig(c) && Sized(c, st)
    ensures var st' := Displace(c, st, e, last, epoch, depth);
            && Sized(c, st') && st'.counter == st.counter
            && |EpochSlots(st', current)| <= |EpochSlots(st, current)| + (if epoch == current then 1 else 0)
    decreases depth
  {
    hide FindFree, KickLoc, EpochSlots, Displace, Put, Swap;
    DisplaceUnfold(c, st, e, last, epoch, depth);
    if depth > 0 {
      match FindFree(c, st, e)
      case Some(l) =>
        PutCounts(c, st, l, e, epoch, current);
      case None =>
        var l := KickLoc(c, e, last);
        SwapCounts(c, st, l, e, epoch, current);
        DisplaceCounts(c, Swap(st, l, e, epoch), st.table[l], l, st.epoch[l], depth - 1, current);
    }
  }

  lemma PutCounts(c: Config, st: State, l: nat, e: Element, epoch: bool, current: bool)
    requires Sized(c, st) && l < c.size
    ensures var st' := Put(st, l, e, epoch);
            && Sized(c, st') && st'.counter == st.counter
            && |EpochSlots(st', current)| <= |EpochSlots(st, current)| + (if epoch == current then 1 else 0)
  {
    EpochSlotsChange(st, Put(st, l, e, epoch), l, current);
  }

  lemma SwapCounts(c: Config, st: State, l: nat, e: Element, epoch: bool, current: bool)
    requires Sized(c, st) && l < c.size && !st.discard[l]
    ensures var st' := Swap(st, l, e, epoch);
            && Sized(c, st') && st'.counter == st.counter
            && |EpochSlots(st', current)| + (if st.epoch[l] == current then 1 else 0)
                 == |EpochSlots(st, current)| + (if epoch == current then 1 else 0)
  {
    EpochSlotsChange(st, Swap(st, l, e, epoch), l, current);
  }

  lemma StoreCounts(c: Config, st: State, e: Element)
    requires ValidConfig(c) && Sized(c, st)
    ensures var st' := Store(c, st, e);
            && Sized(c, st') && st'.counter == st.counter
            && |EpochSlots(st', true)| <= |EpochSlots(st, true)| + 1 && |EpochSlots(st', false)| <= |EpochSlots(st, false)|
  {
    match FindElement(c, st, e)
    case Some(l) =>
      EpochSlotsChange(st, Put(st, l, e, true), l, true);
      EpochSlotsChange(st, Put(st, l, e, true), l, false);
    case None =>
      DisplaceCounts(c, st, e, INVALID, true, c.depthLimit, true);
      DisplaceCounts(c, st, e, INVALID, true, c.depthLimit, false);
  }

  /** Although the scan runs only when the counter runs out, after every insertion the live elements of the
      current epoch and the counter together stay within the bound. */
  lemma InsertAccounted(c: Config, st: State, e: Element)
    requires ValidConfig(c) && WellPlaced(c, st) && Accounted(c, st)
    ensures Sized(c, Insert(c, st, e)) && Accounted(c, Insert(c, st, e))
  {
    AgeKeeps(c, st);
    EpochCheckKeeps(c, st);
    StoreCounts(c, EpochCheck(c, st), e);
    hide WellPlaced, ValidConfig, Store;
  }

  lemma EraseAccounted(c: Config, st: State, e: Element, erase: bool)
    requires ValidConfig(c) && WellPlaced(c, st) && Accounted(c, st)
    ensures var st' := Contains(c, st, e, erase).0;
            WellPlaced(c, st') && Accounted(c, st') && LiveElements(st') <= LiveElements(st)
  {
    var r := FindElement(c, st, e);
    if r.Some? && erase {
      var st' := st.(discard := st.discard[r.value := true]);
      EpochSlotsChange(st, st', r.value, true);
      EpochSlotsChange(st, st', r.value, false);
    }
  }

  lemma EraseLive(c: Config, st: State, l: nat)
    requires WellPlaced(c, st) && l < c.size && st.table[l] != DEFAULT
    ensures LiveElements(st.(discard := st.discard[l := true])) == LiveElements(st) - {st.table[l]}
  {
    var st' := st.(discard := st.discard[l := true]);
    forall x ensures x in LiveElements(st') <==> x in LiveElements(st) - {st.table[l]} {
      if x in LiveElements(st) - {st.table[l]} {
        var i :| 0 <= i < |st.discard| && !st.discard[i] && st.table[i] == x;
        assert !st'.discard[i] && st'.table[i] == x;
      }
      if x in LiveElements(st') {
        var i :| 0 <= i < |st'.discard| && !st'.discard[i] && st'.table[i] == x;
        assert i != l && !st.discard[i] && st.table[i] == x;
      }
    }
  }

  /** A lookup finds an element other than the default one wherever it is stored; erasing takes exactly it out
      of the live elements. */
  lemma ContainsComplete(c: Config, st: State, e: Element, erase: bool)
    requires ValidConfig(c) && WellPlaced(c, st)
    ensures Contains(c, st, e, erase).1 ==> e in st.table
    ensures e in st.table && e != DEFAULT ==> Contains(c, st, e, erase).1
    ensures e in LiveElements(st) ==> Contains(c, st, e, erase).1
    ensures Contains(c, st, e, true).1 && e != DEFAULT ==> LiveElements(Contains(c, st, e, true).0) == LiveElements(st) - {e}
  {
    if e in st.table {
      var i :| 0 <= i < |st.table| && st.table[i] == e;
    }
    if FindElement(c, st, e).Some? && e != DEFAULT {
      EraseLive(c, st, FindElement(c, st, e).value);
    }
  }

  // ----- whole runs

  /** The state after setup. */
  ghost function Setup(c: Config): State {
    State(seq(c.size, _ => DEFAULT), seq(c.size, _ => true), seq(c.size, _ => false), c.epochSize)
  }

  datatype Op = OpInsert(e: Element) | OpContains(e: Element, erase: bool)

  ghost predicate Ok(c: Config, st: State) {
    WellPlaced(c, st) && Accounted(c, st)
  }

  ghost function Step(c: Config, st: State, op: Op): State
    requires ValidConfig(c) && Ok(c, st)
  {
    match op
    case OpInsert(e) => Insert(c, st, e)
    case OpContains(e, erase) => Contains(c, st, e, erase).0
  }

  lemma StepOk(c: Config, st: State, op: Op)
    requires ValidConfig(c) && Ok(c, st)
    ensures Ok(c, Step(c, st, op))
  {
    match op
    case OpInsert(e) =>
      EpochCheckKeeps(c, st);
      StoreKeeps(c, EpochCheck(c, st), e);
      InsertAccounted(c, st, e);
    case OpContains(e, erase) => EraseAccounted(c, st, e, erase);
  }

  ghost predicate IsRun(c: Config, ops: seq<Op>, states: seq<State>) {
    && |states| == |ops| + 1 && states[0] == Setup(c)
    && forall i | 0 <= i < |ops| ::
         ValidConfig(c) && Ok(c, states[i]) ==> states[i + 1] == Step(c, states[i], ops[i])
  }

  /** In every run every live element lies in one of its own slots, and the number of live elements stays within
      twice the bound of an epoch. */
  lemma {:induction false} RunBounded(c: Config, ops: seq<Op>, states: seq<State>, n: nat)
    requires ValidConfig(c) && IsRun(c, ops, states) && n < |states|
    ensures Ok(c, states[n]) && |LiveSlots(states[n])| <= 2 * Bound(c)
  {
    if n == 0 {
      assert EpochSlots(Setup(c), true) == {} && EpochSlots(Setup(c), false) == {};
    } else {
      RunBounded(c, ops, states, n - 1);
      StepOk(c, states[n - 1], ops[n - 1]);
    }
    LiveSplit(states[n]);
  }

  lemma LiveSplit(st: State)
    requires |st.epoch| == |st.discard|
    ensures |LiveSlots(st)| == |EpochSlots(st, true)| + |EpochSlots(st, false)|
  {
    assert LiveSlots(st) == EpochSlots(st, true) + EpochSlots(st, false);
    assert EpochSlots(st, true) !! EpochSlots(st, false);
  }
}
