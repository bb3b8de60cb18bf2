/** What insertion into the cuckoo cache does, told move by move, and what a lookup finds afterwards. */
module CuckooExact {
  import opened Common
  import opened Cuckoo

  /** The k-th of the eight slots, as a fraction of the table. */
  lemma SlotIs(c: Config, e: Element, k: nat)
    requires k < 8
    ensures var l := ComputeHashes(c, e)[k]; l * TWO32 <= c.hash(k, e) * c.size < (l + 1) * TWO32
  {}

  /** Slot l is the first of the element's slots whose occupant may be overwritten. */
  ghost predicate FirstFreeSlot(c: Config, st: State, e: Element, l: nat) {
    exists k | 0 <= k < 8 ::
      var locs := ComputeHashes(c, e);
      && l == locs[k] && l < |st.discard| && st.discard[l]
      && forall j | 0 <= j < k :: locs[j] < |st.discard| ==> !st.discard[locs[j]]
  }

  ghost predicate NoFreeSlot(c: Config, st: State, e: Element) {
    forall k | 0 <= k < 8 && ComputeHashes(c, e)[k] < |st.discard| :: !st.discard[ComputeHashes(c, e)[k]]
  }

  /** Where an element without free slot goes: to its second slot if it was in none, else to the slot after the one it
      was in. */
  ghost predicate GoesTo(c: Config, e: Element, last: nat, l: nat) {
    var locs := ComputeHashes(c, e);
    if last !in locs then l == locs[1]
    else exists k | 0 <= k < 8 :: locs[k] == last && last !in locs[..k] && l == locs[(k + 1) % 8]
  }

  /** A chain of displacements: hands[i] is the element to be placed, with the slot it was in and its epoch. Each has no
      free slot and takes the place of the next. */
  datatype Hand = Hand(e: Element, last: nat, epoch: bool)

  ghost predicate Displaces(c: Config, st: State, a: Hand, st': State, b: Hand) {
    && NoFreeSlot(c, st, a.e) && GoesTo(c, a.e, a.last, b.last) && b.last < |st.table| == |st.epoch|
    && b.e == st.table[b.last] && b.epoch == st.epoch[b.last]
    && st' == st.(table := st.table[b.last := a.e], epoch := st.epoch[b.last := a.epoch])
  }

  ghost predicate Chain(c: Config, states: seq<State>, hands: seq<Hand>) {
    && |states| == |hands| >= 1
    && forall i | 0 <= i < |hands| - 1 :: Displaces(c, states[i], hands[i], states[i + 1], hands[i + 1])
  }

  /** The element in the last hand goes into its first free slot. */
  ghost predicate Lands(c: Config, st: State, h: Hand, st': State) {
    exists l: nat ::
      && FirstFreeSlot(c, st, h.e, l) && l < |st.table| == |st.discard| == |st.epoch|
      && st' == st.(table := st.table[l := h.e], discard := st.discard[l := false], epoch := st.epoch[l := h.epoch])
  }

  lemma {:induction false} FirstFreeIs(discard: seq<bool>, locs: seq<nat>) returns (k: nat)
    requires FirstFree(discard, locs).Some?
    ensures k < |locs| && FirstFree(discard, locs).value == locs[k]
    ensures forall j | 0 <= j < k :: locs[j] < |discard| ==> !discard[locs[j]]
  {
    if locs[0] < |discard| && discard[locs[0]] {
      k := 0;
    } else {
      k := FirstFreeIs(discard, locs[1..]);
      k := k + 1;
      forall j | 0 <= j < k ensures locs[j] < |discard| ==> !discard[locs[j]] {
        assert j > 0 ==> locs[j] == locs[1..][j - 1];
      }
    }
  }

  lemma FindFreeIs(c: Config, st: State, e: Element)
    requires ValidConfig(c) && Sized(c, st)
    ensures FindFree(c, st, e).Some? ==> FirstFreeSlot(c, st, e, FindFree(c, st, e).value)
    ensures FindFree(c, st, e).None? <==> NoFreeSlot(c, st, e)
  {
    HashesInRange(c, e);
    if FindFree(c, st, e).Some? {
      var k := FirstFreeIs(st.discard, ComputeHashes(c, e));
    } else {
      assert forall k | 0 <= k < 8 :: ComputeHashes(c, e)[k] in ComputeHashes(c, e);
    }
  }

  lemma KickLocIs(c: Config, e: Element, last: nat)
    requires ValidConfig(c)
    ensures GoesTo(c, e, last, KickLoc(c, e, last))
  {
    var k := KickOrder(c, e, last);
  }

  /** Displacement is a chain of at most as many moves as there are rounds; it ends when an element lands, or with the
      element in hand when the rounds run out. */
  lemma {:induction false} DisplaceExact(c: Config, st: State, h: Hand, depth: nat)
    returns (states: seq<State>, hands: seq<Hand>)
    requires ValidConfig(c) && Sized(c, st)
    ensures Chain(c, states, hands) && states[0] == st && hands[0] == h && |hands| <= depth + 1
    ensures var n, st' := |hands| - 1, Displace(c, st, h.e, h.last, h.epoch, depth);
            if n == depth then st' == states[n] else Lands(c, states[n], hands[n], st')
    ensures forall i | 0 <= i < |states| :: Sized(c, states[i])
    decreases depth
  {
    hide FindFree, KickLoc, ValidConfig, NoFreeSlot, FirstFreeSlot, GoesTo, Displace;
    DisplaceUnfold(c, st, h.e, h.last, h.epoch, depth);
    states, hands := [st], [h];
    if depth > 0 {
      FindFreeIs(c, st, h.e);
      if FindFree(c, st, h.e).None? {
        var l := KickLoc(c, h.e, h.last);
        KickLocIs(c, h.e, h.last);
        var st1, h1 := Swap(st, l, h.e, h.epoch), Hand(st.table[l], l, st.epoch[l]);
        assert Displaces(c, st, h, st1, h1);
        var restStates, restHands := DisplaceExact(c, st1, h1, depth - 1);
        states, hands := states + restStates, hands + restHands;
        assert Chain(c, states, hands) by {
          forall i | 0 <= i < |hands| - 1 ensures Displaces(c, states[i], hands[i], states[i + 1], hands[i + 1]) {
            if i > 0 {
              assert Displaces(c, restStates[i - 1], restHands[i - 1], restStates[i], restHands[i]);
            }
          }
        }
      }
    }
  }

  /** Insertion after the epoch check: an element already in one of its slots is only marked as kept and current; any
      other is displaced into the table as above. */
  lemma StoreExact(c: Config, st: State, e: Element) returns (states: seq<State>, hands: seq<Hand>)
    requires ValidConfig(c) && Sized(c, st)
    ensures var st' := Store(c, st, e);
            if exists l: nat :: l < c.size && OwnSlot(c, e, l) && st.table[l] == e
            then exists l: nat | l < c.size && OwnSlot(c, e, l) && st.table[l] == e ::
                   st' == st.(discard := st.discard[l := false], epoch := st.epoch[l := true])
            else && Chain(c, states, hands) && states[0] == st && hands[0] == Hand(e, INVALID, true)
                 && |hands| <= c.depthLimit + 1
                 && var n := |hands| - 1;
                    if n == c.depthLimit then st' == states[n] else Lands(c, states[n], hands[n], st')
  {
    hide OwnSlot, Lands, Displaces, Displace, ValidConfig;
    states, hands := [], [];
    match FindElement(c, st, e)
    case Some(l) =>
      assert st.table[l := e] == st.table;
      assert Store(c, st, e) == st.(discard := st.discard[l := false], epoch := st.epoch[l := true]);
    case None =>
      states, hands := DisplaceExact(c, st, Hand(e, INVALID, true), c.depthLimit);
  }

  // ----- what becomes of the live elements

  lemma LandsLive(c: Config, st: State, h: Hand, st': State)
    requires ValidConfig(c) && InHand(c, st, h.e) && Lands(c, st, h, st')
    ensures LiveElements(st') == LiveElements(st) + {h.e}
  {
    var l: nat :| && FirstFreeSlot(c, st, h.e, l) && l < |st.table| == |st.discard| == |st.epoch|
                  && st' == st.(table := st.table[l := h.e], discard := st.discard[l := false],
                                epoch := st.epoch[l := h.epoch]);
    PutKeeps(c, st, l, h.e, h.epoch);
  }

  lemma DisplacesLive(c: Config, st: State, a: Hand, st': State, b: Hand)
    requires ValidConfig(c) && InHand(c, st, a.e) && Displaces(c, st, a, st', b)
    ensures InHand(c, st', b.e) && LiveElements(st') + {b.e} == LiveElements(st) + {a.e}
    ensures a.e in LiveElements(st')
  {
    HashesInRange(c, a.e);
    var l := b.last;
    assert OwnSlot(c, a.e, l) && !st.discard[l];
    SwapKeeps(c, st, l, a.e, a.epoch);
    assert st' == Swap(st, l, a.e, a.epoch);
    assert !st'.discard[l] && st'.table[l] == a.e;
  }

  lemma {:induction false} ChainLive(c: Config, states: seq<State>, hands: seq<Hand>, n: nat)
    requires ValidConfig(c) && Chain(c, states, hands) && n < |hands| && InHand(c, states[0], hands[0].e)
    ensures InHand(c, states[n], hands[n].e)
    ensures LiveElements(states[n]) + {hands[n].e} == LiveElements(states[0]) + {hands[0].e}
  {
    hide ValidConfig, InHand, LiveElements, Displaces;
    if n > 0 {
      ChainLive(c, states, hands, n - 1);
      InHandSized(c, states[n - 1], hands[n - 1].e);
      DisplacesLive(c, states[n - 1], hands[n - 1], states[n], hands[n]);
      InHandSized(c, states[n], hands[n].e);
    } else {
      InHandSized(c, states[0], hands[0].e);
    }
  }

  lemma InHandSized(c: Config, st: State, e: Element)
    requires InHand(c, st, e)
    ensures |st.table| == |st.discard| == |st.epoch| == c.size
  {}

  /** A new element with a free slot gets it, and nothing is lost. Otherwise exactly the element left in hand after the
      last round is lost, if any is. */
  lemma StoreGains(c: Config, st: State, e: Element) returns (lost: Option<Element>)
    requires ValidConfig(c) && WellPlaced(c, st)
    ensures var after := LiveElements(Store(c, st, e));
            match lost
            case None => after == LiveElements(st) + {e}
            case Some(x) => after + {x} == LiveElements(st) + {e} && (x != DEFAULT ==> x !in Store(c, st, e).table)
    ensures (exists i | 0 <= i < c.size :: OwnSlot(c, e, i) && (st.table[i] == e || st.discard[i])) && c.depthLimit >= 1
            ==> lost.None?
    ensures lost.Some? && e !in LiveElements(Store(c, st, e)) && e != DEFAULT ==> lost == Some(e)
  {
    hide ValidConfig, LiveElements, Displaces, Lands, Store;
    StoreKeeps(c, st, e);
    StoreSized(c, st, e);
    var states, hands := StoreExact(c, st, e);
    if exists l: nat :: l < c.size && OwnSlot(c, e, l) && st.table[l] == e {
      FindsStored(c, st, e);
      lost := None;
    } else {
      assert InHand(c, st, e);
      var n := |hands| - 1;
      ChainLive(c, states, hands, n);
      if n == c.depthLimit {
        lost := Some(hands[n].e);
        if n > 0 {
          FirstHasNone(c, states, hands);
        }
      } else {
        LandsLive(c, states[n], hands[n], Store(c, st, e));
        lost := None;
      }
    }
  }

  lemma StoreSized(c: Config, st: State, e: Element)
    requires ValidConfig(c) && Sized(c, st)
    ensures Sized(c, Store(c, st, e))
  {
    StoreCounts(c, st, e);
  }

  lemma FindsStored(c: Config, st: State, e: Element)
    requires ValidConfig(c) && Sized(c, st) && exists l: nat :: l < c.size && OwnSlot(c, e, l) && st.table[l] == e
    ensures FindElement(c, st, e).Some?
  {}

  lemma FirstHasNone(c: Config, states: seq<State>, hands: seq<Hand>)
    requires ValidConfig(c) && Chain(c, states, hands) && |hands| >= 2 && Sized(c, states[0])
    ensures forall i | 0 <= i < c.size :: OwnSlot(c, hands[0].e, i) ==> !states[0].discard[i]
  {
    assert Displaces(c, states[0], hands[0], states[1], hands[1]);
    forall i | 0 <= i < c.size && OwnSlot(c, hands[0].e, i) ensures !states[0].discard[i] {
      var k :| 0 <= k < 8 && ComputeHashes(c, hands[0].e)[k] == i;
    }
  }

  // ----- what a lookup finds

  /** After an insertion a lookup finds the element unless it was the one lost. */
  lemma InsertFound(c: Config, st: State, e: Element) returns (lost: Option<Element>)
    requires ValidConfig(c) && WellPlaced(c, st) && e != DEFAULT
    ensures Sized(c, EpochCheck(c, st)) && Sized(c, Insert(c, st, e))
    ensures Contains(c, Insert(c, st, e), e, false).1 <==> lost != Some(e)
    ensures var st1 := EpochCheck(c, st);
            (exists i | 0 <= i < c.size :: OwnSlot(c, e, i) && (st1.table[i] == e || st1.discard[i])) && c.depthLimit >= 1
            ==> lost.None?
  {
    hide ValidConfig, LiveElements, WellPlaced, EpochCheck, Store, OwnSlot, Contains;
    PlacedSized(c, st);
    EpochCheckKeeps(c, st);
    var st1 := EpochCheck(c, st);
    PlacedSized(c, st1);
    lost := StoreGains(c, st1, e);
    StoreKeeps(c, st1, e);
    StoreSized(c, st1, e);
    ContainsComplete(c, Store(c, st1, e), e, false);
    LiveInTable(Store(c, st1, e), e);
  }

  lemma PlacedSized(c: Config, st: State)
    requires WellPlaced(c, st)
    ensures Sized(c, st)
  {}

  lemma LiveInTable(st: State, e: Element)
    requires |st.table| == |st.discard|
    ensures e in LiveElements(st) ==> e in st.table
  {}

  /** The promise of the cache, in any state and so after any insertion: an element that is found and given up can still
      be found; giving it up changes nothing but the discard flag of its slot. */
  lemma FoundAgain(c: Config, st: State, x: Element)
    requires ValidConfig(c) && Sized(c, st)
    ensures var (st1, found) := Contains(c, st, x, true);
            Sized(c, st1) && (found ==> Contains(c, st1, x, false).1) && st1.table == st.table && st1.epoch == st.epoch
            && forall i | 0 <= i < c.size && st1.discard[i] != st.discard[i] :: st1.discard[i] && st.table[i] == x
  {
    var (st1, found) := Contains(c, st, x, true);
    if found {
      assert FindElement(c, st1, x).Some?;
    }
  }

  /** A fresh cache finds nothing but the default element, and stores any other one. */
  lemma FreshStores(c: Config, e: Element)
    requires ValidConfig(c) && e != DEFAULT
    ensures !Contains(c, Setup(c), e, false).1
    ensures c.depthLimit >= 1 ==> Sized(c, Insert(c, Setup(c), e)) && Contains(c, Insert(c, Setup(c), e), e, false).1
  {
    var st := Setup(c);
    assert WellPlaced(c, st) && EpochSlots(st, true) == {};
    HashesInRange(c, e);
    var i := ComputeHashes(c, e)[0];
    assert OwnSlot(c, e, i) && EpochCheck(c, st).discard[i];
    var lost := InsertFound(c, st, e);
  }

  /** The epoch check: nothing but the counter moves until it has run out and the live elements of the current epoch fill
      it; then the older ones may be overwritten and the current ones become the older. */
  lemma EpochCheckExact(c: Config, st: State)
    requires Sized(c, st)
    ensures var st', current := EpochCheck(c, st), set i | 0 <= i < c.size && !st.discard[i] && st.epoch[i];
            && st'.table == st.table && |st'.epoch| == |st'.discard| == c.size
            && (st.counter > 0 ==> st' == st.(counter := st.counter - 1))
            && (st.counter == 0 && |current| < c.epochSize ==>
                  && st' == st.(counter := st'.counter) && st'.counter >= 1
                  && st'.counter >= c.epochSize / 16 && st'.counter >= c.epochSize - |current|
                  && st'.counter in {1, c.epochSize / 16, c.epochSize - |current|})
            && (st.counter == 0 && |current| >= c.epochSize ==>
                  && st'.counter == c.epochSize
                  && forall i | 0 <= i < c.size :: !st'.epoch[i] && st'.discard[i] == (st.discard[i] || !st.epoch[i]))
  {
    assert EpochSlots(st, true) == set i | 0 <= i < c.size && !st.discard[i] && st.epoch[i];
  }
}
