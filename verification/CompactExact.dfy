/** What a receiver of a compact block holds at each place, told from the message and the transactions it was offered. */
module CompactExact {
  import opened Common
  import opened CompactBlocks
  import opened PartialBlock

  /** Entry `j` has the short id. */
  ghost predicate Hit<Tx, Id>(entries: seq<Entry<Tx, Id>>, short: Id -> nat, id: nat, j: nat) {
    j < |entries| && short(entries[j].id) == id
  }

  ghost predicate NoHit<Tx, Id>(entries: seq<Entry<Tx, Id>>, short: Id -> nat, id: nat) {
    forall j: nat | j < |entries| :: !Hit(entries, short, id, j)
  }

  ghost predicate FirstHit<Tx, Id>(entries: seq<Entry<Tx, Id>>, short: Id -> nat, id: nat, j: nat) {
    Hit(entries, short, id, j) && forall k: nat | k < j :: !Hit(entries, short, id, k)
  }

  ghost predicate OnlyHit<Tx, Id>(entries: seq<Entry<Tx, Id>>, short: Id -> nat, id: nat, j: nat) {
    Hit(entries, short, id, j) && forall k: nat | k < |entries| && k != j :: !Hit(entries, short, id, k)
  }

  ghost predicate Once<Tx, Id>(entries: seq<Entry<Tx, Id>>, short: Id -> nat, id: nat) {
    exists j: nat :: OnlyHit(entries, short, id, j)
  }

  /** The transaction kept for a short id: the only one of the pool with it, or the first extra one if the pool has none,
      and then only if every extra one with it has the same witness hash. */
  ghost predicate Kept<Tx, Id>(pool: seq<Entry<Tx, Id>>, extra: seq<Entry<Tx, Id>>, short: Id -> nat, wtxid: Tx -> Id,
                               id: nat, tx: Tx) {
    && (|| (exists j: nat :: OnlyHit(pool, short, id, j) && pool[j].tx == tx)
        || (NoHit(pool, short, id) && exists j: nat :: FirstHit(extra, short, id, j) && extra[j].tx == tx))
    && forall j: nat | Hit(extra, short, id, j) :: wtxid(extra[j].tx) == wtxid(tx)
  }

  lemma NoHitStep<Tx, Id>(entries: seq<Entry<Tx, Id>>, short: Id -> nat, id: nat)
    requires entries != []
    ensures var n := |entries| - 1; NoHit(entries, short, id) <==> NoHit(entries[..n], short, id) && short(entries[n].id) != id
  {
    var n := |entries| - 1;
    assert Hit(entries, short, id, n) <==> short(entries[n].id) == id;
    assert forall j: nat | j < n :: Hit(entries, short, id, j) <==> Hit(entries[..n], short, id, j);
  }

  lemma {:induction false} NoMatches<Tx, Id>(entries: seq<Entry<Tx, Id>>, short: Id -> nat, id: nat)
    ensures Matches(entries, short, id) == [] <==> NoHit(entries, short, id)
  {
    if entries != [] {
      NoMatches(entries[..|entries| - 1], short, id);
      NoHitStep(entries, short, id);
    }
  }

  lemma FirstStep<Tx, Id>(entries: seq<Entry<Tx, Id>>, short: Id -> nat, id: nat, j: nat)
    requires entries != [] && FirstHit(entries[..|entries| - 1], short, id, j)
    ensures FirstHit(entries, short, id, j)
    ensures var n := |entries| - 1;
            OnlyHit(entries, short, id, j) <==> OnlyHit(entries[..n], short, id, j) && short(entries[n].id) != id
  {
    var n := |entries| - 1;
    assert Hit(entries, short, id, n) <==> short(entries[n].id) == id;
    assert forall k: nat | k < n :: Hit(entries, short, id, k) <==> Hit(entries[..n], short, id, k);
  }

  lemma {:induction false} FirstMatch<Tx, Id>(entries: seq<Entry<Tx, Id>>, short: Id -> nat, id: nat) returns (j: nat)
    requires Matches(entries, short, id) != []
    ensures FirstHit(entries, short, id, j) && Matches(entries, short, id)[0] == entries[j].tx
    ensures |Matches(entries, short, id)| == 1 <==> OnlyHit(entries, short, id, j)
  {
    var n := |entries| - 1;
    if Matches(entries[..n], short, id) == [] {
      NoMatches(entries[..n], short, id);
      j := n;
      assert forall k: nat | k < n :: Hit(entries, short, id, k) <==> Hit(entries[..n], short, id, k);
    } else {
      j := FirstMatch(entries[..n], short, id);
      FirstStep(entries, short, id, j);
    }
  }

  lemma HitInside<Tx, Id>(entries: seq<Entry<Tx, Id>>, short: Id -> nat, id: nat, j: nat)
    requires Hit(entries, short, id, j)
    ensures j < |entries|
  {}

  lemma {:induction false} HitMatches<Tx, Id>(entries: seq<Entry<Tx, Id>>, short: Id -> nat, id: nat, j: nat)
    requires Hit(entries, short, id, j)
    ensures entries[j].tx in Matches(entries, short, id)
  {
    var n := |entries| - 1;
    if j < n {
      HitMatches(entries[..n], short, id, j);
    }
  }

  lemma SameHash<Tx, Id>(extra: seq<Entry<Tx, Id>>, short: Id -> nat, wtxid: Tx -> Id, id: nat, w: Id)
    ensures var em := Matches(extra, short, id);
            (forall i | 0 <= i < |em| :: wtxid(em[i]) == w)
            <==> forall j: nat | Hit(extra, short, id, j) :: wtxid(extra[j].tx) == w
  {
    hide Matches;
    var em := Matches(extra, short, id);
    if forall i | 0 <= i < |em| :: wtxid(em[i]) == w {
      forall j: nat | Hit(extra, short, id, j) ensures wtxid(extra[j].tx) == w {
        HitMatches(extra, short, id, j);
      }
    }
    if forall j: nat | Hit(extra, short, id, j) :: wtxid(extra[j].tx) == w {
      forall i | 0 <= i < |em| ensures wtxid(em[i]) == w {
        var j := MatchesFrom(extra, short, id, em[i]);
        assert Hit(extra, short, id, j);
      }
    }
  }

  lemma SettleKeeps<Tx, Id>(pool: seq<Entry<Tx, Id>>, extra: seq<Entry<Tx, Id>>, short: Id -> nat, wtxid: Tx -> Id,
                            id: nat, tx: Tx)
    ensures Settle(Matches(pool, short, id), Matches(extra, short, id), wtxid) == Some(tx)
            <==> Kept(pool, extra, short, wtxid, id, tx)
  {
    hide Matches, Hit;
    var pm, em := Matches(pool, short, id), Matches(extra, short, id);
    NoMatches(pool, short, id);
    NoMatches(extra, short, id);
    if pm + em != [] {
      SameHash(extra, short, wtxid, id, wtxid((pm + em)[0]));
    }
    if pm != [] {
      var j := FirstMatch(pool, short, id);
      HitInside(pool, short, id, j);
      assert (pm + em)[0] == pool[j].tx;
      OnlyOne(pool, short, id, j);
    } else if em != [] {
      var j := FirstMatch(extra, short, id);
      HitInside(extra, short, id, j);
      assert (pm + em)[0] == extra[j].tx;
      FirstOne(extra, short, id, j);
      NoOnly(pool, short, id);
    } else {
      assert pm + em == [];
      NoOnly(pool, short, id);
      NoFirst(extra, short, id);
    }
  }

  lemma OnlyOne<Tx, Id>(entries: seq<Entry<Tx, Id>>, short: Id -> nat, id: nat, j: nat)
    requires FirstHit(entries, short, id, j)
    ensures !NoHit(entries, short, id) && forall k: nat :: OnlyHit(entries, short, id, k) ==> k == j
  {}

  lemma FirstOne<Tx, Id>(entries: seq<Entry<Tx, Id>>, short: Id -> nat, id: nat, j: nat)
    requires FirstHit(entries, short, id, j)
    ensures forall k: nat :: FirstHit(entries, short, id, k) ==> k == j
  {
    forall k: nat | FirstHit(entries, short, id, k) ensures k == j {
      assert k < j ==> !Hit(entries, short, id, k);
    }
  }

  lemma NoOnly<Tx, Id>(entries: seq<Entry<Tx, Id>>, short: Id -> nat, id: nat)
    requires NoHit(entries, short, id)
    ensures forall k: nat :: !OnlyHit(entries, short, id, k)
  {}

  lemma NoFirst<Tx, Id>(entries: seq<Entry<Tx, Id>>, short: Id -> nat, id: nat)
    requires NoHit(entries, short, id)
    ensures forall k: nat :: !FirstHit(entries, short, id, k)
  {}

  /** A prefilled place holds its transaction; the place of the i-th short id holds a transaction exactly if it is kept. */
  lemma PlaceHolds<Tx, Id>(laid: seq<Option<Tx>>, avail: seq<Option<Tx>>, have: seq<bool>, ids: seq<nat>,
                           pool: seq<Entry<Tx, Id>>, extra: seq<Entry<Tx, Id>>, short: Id -> nat, wtxid: Tx -> Id, p: nat)
    returns (i: nat)
    requires |Free(laid)| == |ids| && Settled(laid, avail, have, ids, pool, extra, short, wtxid) && p < |laid|
    ensures laid[p].Some? ==> avail[p] == laid[p]
    ensures laid[p].None? ==>
              && i < |ids| && Free(laid)[i] == p && (have[p] <==> !NoHit(pool, short, ids[i]) || !NoHit(extra, short, ids[i]))
              && forall tx :: avail[p] == Some(tx) <==> Kept(pool, extra, short, wtxid, ids[i], tx)
  {
    hide Free, Matches, Settle, NoHit, Kept;
    i := 0;
    if laid[p].None? {
      i := FreeHas(laid, p);
      NoMatches(pool, short, ids[i]);
      NoMatches(extra, short, ids[i]);
      forall tx ensures avail[p] == Some(tx) <==> Kept(pool, extra, short, wtxid, ids[i], tx) {
        SettleKeeps(pool, extra, short, wtxid, ids[i], tx);
      }
    }
  }

  /** The search of the pool stops early only when each short id has been found in one entry. */
  lemma OneEachIs<Tx, Id>(entries: seq<Entry<Tx, Id>>, short: Id -> nat, ids: seq<nat>)
    ensures OneEach(entries, short, ids) <==>
            forall i | 0 <= i < |ids| :: Once(entries, short, ids[i])
  {
    hide Matches, Once;
    forall i | 0 <= i < |ids| ensures |Matches(entries, short, ids[i])| == 1 <==> Once(entries, short, ids[i]) {
      OneMatch(entries, short, ids[i]);
    }
  }

  lemma OneMatch<Tx, Id>(entries: seq<Entry<Tx, Id>>, short: Id -> nat, id: nat)
    ensures |Matches(entries, short, id)| == 1 <==> Once(entries, short, id)
  {
    hide Matches;
    NoMatches(entries, short, id);
    if Matches(entries, short, id) == [] {
      NoOnly(entries, short, id);
    } else {
      var j := FirstMatch(entries, short, id);
      OnlyOne(entries, short, id, j);
    }
  }

  /** The j-th prefilled transaction is at its place, and the other places are free. */
  lemma {:induction false} LaidExact<Tx>(msg: Message<Tx>, isNull: Tx -> bool, k: nat, p: nat)
    requires k <= |msg.prefilled| && PlacesOk(msg, isNull, k) && p < msg.Count()
    ensures Laid(msg, isNull, k)[p].Some? <==> exists j :: 1 <= j <= k && Place(msg.prefilled, j) == p
    ensures forall j | 1 <= j <= k && Place(msg.prefilled, j) == p :: Laid(msg, isNull, k)[p] == Some(msg.prefilled[j - 1].tx)
  {
    hide Place;
    if k > 0 {
      LaidExact(msg, isNull, k - 1, p);
      assert PlaceOk(msg, isNull, k - 1);
      forall j | 0 <= j < k ensures Place(msg.prefilled, j) < Place(msg.prefilled, k) {
        PlaceGrows(msg.prefilled, j, k);
      }
      assert p == Place(msg.prefilled, k) ==> exists j :: 1 <= j <= k && Place(msg.prefilled, j) == p;
      assert p != Place(msg.prefilled, k) ==> Laid(msg, isNull, k)[p] == Laid(msg, isNull, k - 1)[p];
    }
  }

  /** The filled block has the transactions the receiver held and, at the free places in order, those that were sent. */
  lemma {:induction false} FilledIs<Tx>(avail: seq<Option<Tx>>, missing: seq<Tx>)
    ensures Filled(avail, missing).Some? <==> |missing| == |Free(avail)|
    ensures Filled(avail, missing).Some? ==>
              var vtx := Filled(avail, missing).value;
              && (forall p | 0 <= p < |avail| && avail[p].Some? :: vtx[p] == avail[p].value)
              && forall i | 0 <= i < |missing| :: Free(avail)[i] < |vtx| && vtx[Free(avail)[i]] == missing[i]
  {
    FilledCount(avail, missing);
    if avail != [] && Filled(avail, missing).Some? {
      var n := |avail| - 1;
      FilledIs(avail[..n], if avail[n].Some? then missing else missing[..|missing| - 1]);
    }
  }
}
