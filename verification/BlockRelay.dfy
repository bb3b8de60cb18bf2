/** A compact block from its sender to a receiver and back again for what the receiver lacks. */
module BlockRelay {
  import opened Common
  import opened CompactBlocks
  import opened PartialBlock

  /** The receiver's request: the places it has no transaction for. */
  method Requested<Tx>(txnAvailable: seq<Option<Tx>>) returns (indexes: seq<nat>)
    ensures indexes == Free(txnAvailable)
  {
    indexes := [];
    var i := 0;
    while i < |txnAvailable|
      invariant 0 <= i <= |txnAvailable| && indexes == Free(txnAvailable[..i])
    {
      assert txnAvailable[..i + 1][..i] == txnAvailable[..i];
      if txnAvailable[i].None? {
        indexes := indexes + [i];
      }
      i := i + 1;
    }
    assert txnAvailable[..i] == txnAvailable;
  }

  /** The transactions at the given places. */
  function Picked<Tx>(vtx: seq<Tx>, indexes: seq<nat>): (txs: seq<Tx>)
    requires forall i | 0 <= i < |indexes| :: indexes[i] < |vtx|
  {
    seq(|indexes|, i requires 0 <= i < |indexes| => vtx[indexes[i]])
  }

  /** The sender's answer; a request beyond the block is misbehaviour and gets none. */
  method SendBlockTransactions<Tx>(vtx: seq<Tx>, indexes: seq<nat>) returns (txn: Option<seq<Tx>>)
    ensures if forall i | 0 <= i < |indexes| :: indexes[i] < |vtx| then txn == Some(Picked(vtx, indexes)) else txn == None
  {
    var txs := [];
    var i := 0;
    while i < |indexes|
      invariant 0 <= i <= |indexes| && |txs| == i
      invariant forall j | 0 <= j < i :: indexes[j] < |vtx| && txs[j] == vtx[indexes[j]]
    {
      if indexes[i] >= |vtx| {
        return None;
      }
      txs := txs + [vtx[indexes[i]]];
      i := i + 1;
    }
    assert txs == Picked(vtx, indexes);
    return Some(txs);
  }

  /** What the sender picks for the request is what the receiver misses. */
  lemma {:induction false} PickedMissing<Tx>(avail: seq<Option<Tx>>, vtx: seq<Tx>)
    requires |avail| == |vtx|
    ensures (forall i | 0 <= i < |Free(avail)| :: Free(avail)[i] < |vtx|) && Picked(vtx, Free(avail)) == Missing(avail, vtx)
  {
    FreeIs(avail);
    if avail != [] {
      var n := |avail| - 1;
      PickedMissing(avail[..n], vtx[..n]);
      assert Picked(vtx, Free(avail[..n])) == Picked(vtx[..n], Free(avail[..n]));
    }
  }

  /** The request of a block of at most 65536 transactions arrives as it was sent. */
  lemma RequestArrives<Tx>(avail: seq<Option<Tx>>)
    requires |avail| <= 65536
    ensures Indices(Deltas(Free(avail))) == Some(Free(avail))
  {
    hide Free, Deltas, Indices;
    FreeIs(avail);
    RequestRoundTrip(Free(avail));
  }

  /** The sender's short ids, made from the id it chose to use: with or without the witness. */
  function ShortOf<Tx, Id>(short: Id -> nat, id: Tx -> Id): Tx -> nat {
    tx => short(id(tx))
  }

  /** No transaction of the receiver's is taken for another one of the block. */
  ghost predicate NoneMistaken<Tx, Id>(vtx: seq<Tx>, entries: seq<Entry<Tx, Id>>, short: Id -> nat, id: Tx -> Id) {
    forall i, j | 1 <= i < |vtx| && 0 <= j < |entries| && short(entries[j].id) == short(id(vtx[i])) ::
      entries[j].tx == vtx[i]
  }

  lemma NoneMistakenHere<Tx, Id>(vtx: seq<Tx>, entries: seq<Entry<Tx, Id>>, k: nat, short: Id -> nat, id: Tx -> Id,
                                 isNull: Tx -> bool)
    requires 1 <= |vtx| <= MAX_TXS && !isNull(vtx[0]) && k <= |entries| && NoneMistaken(vtx, entries, short, id)
    ensures var msg := FromBlock(vtx, ShortOf(short, id));
            && WellFormed(msg, isNull) && Describes(msg, isNull, vtx, ShortOf(short, id))
            && NoImpostor(msg, Free(Laid(msg, isNull, |msg.prefilled|)), vtx, entries[..k], short)
  {
    hide Free, Laid;
    FromBlockDescribes(vtx, ShortOf(short, id), isNull);
    FromBlockFree(vtx, ShortOf(short, id), isNull);
  }

  /** Sender and receiver together. Unless two transactions of the block share a short id, or their ids crowd one
      bucket, the receiver ends with the sender's block, whatever part of it was in its pool and extra transactions. The
      sender's short ids may be made from other ids than the witness hashes the receiver compares. */
  method Relay<Tx, Id(==)>(vtx: seq<Tx>, pool: seq<Entry<Tx, Id>>, extra: seq<Entry<Tx, Id>>, short: Id -> nat,
                           id: Tx -> Id, wtxid: Tx -> Id, isNull: Tx -> bool, crowded: nat -> bool,
                           check: seq<Tx> -> CheckResult)
    returns (status: ReadStatus, block: seq<Tx>)
    requires |vtx| >= 1
    ensures |vtx| <= 65536 && !isNull(vtx[0]) ==>
              if !Distinct(ShortIds(vtx[1..], ShortOf(short, id))) || (exists i: nat :: i < |vtx| - 1 && crowded(i))
              then status == Failed && block == []
              else NoneMistaken(vtx, pool, short, id) && NoneMistaken(vtx, extra, short, id) ==>
                     block == vtx && status == match check(vtx)
                                               case Passed => Ok
                                               case CorruptionPossible => Failed
                                               case Rejected => CheckBlockFailed
  {
    hide Free, Laid, Settled, Distinct, Filled, Missing, Indices, Deltas, NoneMistaken, Describes, NoImpostor;
    ghost var small := |vtx| <= 65536 && !isNull(vtx[0]);
    var msg := FromBlock(vtx, ShortOf(short, id));
    if small {
      FromBlockDescribes(vtx, ShortOf(short, id), isNull);
    }
    var b := new PartiallyDownloadedBlock(short, wtxid, isNull);
    ghost var have, k, l;
    status, have, k, l := b.InitData(msg, pool, extra, crowded);
    if status != Ok {
      return status, [];
    }
    var request := Requested(b.txnAvailable);
    var wire := WriteIndexes(request);
    var received := ReadIndexes(wire);
    if small {
      RequestArrives(b.txnAvailable);
      PickedMissing(b.txnAvailable, vtx);
      if NoneMistaken(vtx, pool, short, id) && NoneMistaken(vtx, extra, short, id) {
        NoneMistakenHere(vtx, pool, k, short, id, isNull);
        NoneMistakenHere(vtx, extra, l, short, id, isNull);
        Reconstructs(msg, isNull, vtx, ShortOf(short, id), b.txnAvailable, have, pool[..k], extra[..l], short, wtxid);
      }
    }
    if received.None? {
      return Invalid, [];
    }
    var txn := SendBlockTransactions(vtx, received.value);
    if txn.None? {
      return Invalid, [];
    }
    status, block := b.FillBlock(txn.value, check);
  }
}
