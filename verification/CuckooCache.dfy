/** The cuckoo cache in place: the table, the epoch flags and the bit-packed collection flags are arrays. */
module CuckooCache {
  import opened Common
  import opened Bits
  import opened Cuckoo

  class BitFlags {
    const size: nat
    const mem: array<bv8>

    ghost predicate Valid() {
      mem.Length == (size + 7) / 8
    }

    ghost function Abs(): (flags: seq<bool>)
      requires Valid()
      reads mem
      ensures |flags| == size
    {
      seq(size, i requires 0 <= i < size && Valid() reads mem => BitAt(mem[i / 8], i % 8))
    }

    constructor (size: nat)
      ensures Valid() && this.size == size && fresh(mem) && Abs() == seq(size, _ => true)
    {
      this.size := size;
      mem := new bv8[(size + 7) / 8](_ => 0xFF);
      new;
      forall i | 0 <= i < size ensures BitAt(mem[i / 8], i % 8) {
        FullByte(i % 8);
      }
    }

    method BitSet(s: nat)
      requires Valid() && s < size
      modifies mem
      ensures Abs() == old(Abs())[s := true]
    {
      mem[s / 8] := mem[s / 8] | Mask(s % 8);
      forall i | 0 <= i < size ensures BitAt(mem[i / 8], i % 8) == (i == s || BitAt(old(mem[i / 8]), i % 8)) {
        if i / 8 == s / 8 {
          BitUpdate(old(mem[s / 8]), s % 8, i % 8);
        }
      }
    }

    method BitUnset(s: nat)
      requires Valid() && s < size
      modifies mem
      ensures Abs() == old(Abs())[s := false]
    {
      mem[s / 8] := mem[s / 8] & !Mask(s % 8);
      forall i | 0 <= i < size ensures BitAt(mem[i / 8], i % 8) == (i != s && BitAt(old(mem[i / 8]), i % 8)) {
        if i / 8 == s / 8 {
          BitUpdate(old(mem[s / 8]), s % 8, i % 8);
        }
      }
    }

    method BitIsSet(s: nat) returns (r: bool)
      requires Valid() && s < size
      ensures r == Abs()[s]
    {
      r := Mask(s % 8) & mem[s / 8] != 0;
    }
  }

  class Cache {
    const config: Config
    const table: array<Element>
    const flags: BitFlags
    const epochFlags: array<bool>
    var counter: nat

    ghost predicate Valid() {
      && ValidConfig(config) && flags.Valid()
      && table.Length == epochFlags.Length == flags.size == config.size
    }

    ghost function Abs(): (st: State)
      requires Valid()
      reads this, table, epochFlags, flags.mem
      ensures Sized(config, st)
    {
      State(table[..], flags.Abs(), epochFlags[..], counter)
    }

    /** setup */
    constructor (config: Config)
      requires ValidConfig(config)
      ensures Valid() && this.config == config && Abs() == Setup(config)
      ensures fresh(table) && fresh(epochFlags) && fresh(flags.mem)
    {
      this.config := config;
      table := new Element[config.size](_ => DEFAULT);
      flags := new BitFlags(config.size);
      epochFlags := new bool[config.size](_ => false);
      counter := config.epochSize;
    }

    method CountCurrent() returns (n: nat)
      requires Valid()
      ensures n == |EpochSlots(Abs(), true)|
    {
      n := 0;
      var i := 0;
      ghost var seen: set<int> := {};
      while i < config.size
        invariant 0 <= i <= config.size && n == |seen|
        invariant forall k :: k in seen <==> 0 <= k < i && !Abs().discard[k] && Abs().epoch[k]
      {
        var gone := flags.BitIsSet(i);
        if epochFlags[i] && !gone {
          n := n + 1;
          seen := seen + {i};
        }
        i := i + 1;
      }
      assert seen == EpochSlots(Abs(), true);
    }

    method AgeAll()
      requires Valid()
      modifies epochFlags, flags.mem
      ensures Abs() == Age(old(Abs()))
    {
      var i := 0;
      while i < config.size
        invariant 0 <= i <= config.size
        invariant forall k | 0 <= k < config.size ::
                    epochFlags[k] == (if k < i then false else old(epochFlags[k]))
        invariant forall k | 0 <= k < config.size ::
                    flags.Abs()[k] == (old(flags.Abs())[k] || (k < i && !old(epochFlags[k])))
      {
        if epochFlags[i] {
          epochFlags[i] := false;
        } else {
          flags.BitSet(i);
        }
        i := i + 1;
      }
      assert epochFlags[..] == Age(old(Abs())).epoch;
      assert flags.Abs() == Age(old(Abs())).discard;
    }

    method EpochCheck()
      requires Valid()
      modifies this, epochFlags, flags.mem
      ensures Abs() == Cuckoo.EpochCheck(config, old(Abs()))
    {
      if counter != 0 {
        counter := counter - 1;
        return;
      }
      var unused := CountCurrent();
      if unused >= config.epochSize {
        AgeAll();
        counter := config.epochSize;
      } else {
        counter := Max(1, Max(config.epochSize / 16, config.epochSize - unused));
      }
    }

    method ScanElement(locs: seq<nat>, e: Element) returns (r: Option<nat>)
      requires Valid() && locs == ComputeHashes(config, e)
      ensures r == FindElement(config, Abs(), e)
    {
      HashesInRange(config, e);
      var k := 0;
      while k < 8
        invariant 0 <= k <= 8 && FirstElement(table[..], locs, e) == FirstElement(table[..], locs[k..], e)
      {
        if table[locs[k]] == e {
          return Some(locs[k]);
        }
        assert locs[k..][1..] == locs[k + 1..];
        k := k + 1;
      }
      return None;
    }

    method ScanFree(locs: seq<nat>, ghost e: Element) returns (r: Option<nat>)
      requires Valid() && locs == ComputeHashes(config, e)
      ensures r == FindFree(config, Abs(), e)
    {
      HashesInRange(config, e);
      var k := 0;
      while k < 8
        invariant 0 <= k <= 8 && FirstFree(flags.Abs(), locs) == FirstFree(flags.Abs(), locs[k..])
      {
        var free := flags.BitIsSet(locs[k]);
        if free {
          return Some(locs[k]);
        }
        assert locs[k..][1..] == locs[k + 1..];
        k := k + 1;
      }
      return None;
    }

    method PutAt(l: nat, e: Element, epoch: bool)
      requires Valid() && l < config.size
      modifies table, epochFlags, flags.mem
      ensures Abs() == Put(old(Abs()), l, e, epoch)
    {
      table[l] := e;
      flags.BitUnset(l);
      epochFlags[l] := epoch;
    }

    method SwapAt(l: nat, e: Element, epoch: bool) returns (out: Element, outEpoch: bool)
      requires Valid() && l < config.size
      modifies table, epochFlags
      ensures Abs() == Swap(old(Abs()), l, e, epoch)
      ensures out == old(table[l]) && outEpoch == old(epochFlags[l])
    {
      out, outEpoch := table[l], epochFlags[l];
      table[l] := e;
      epochFlags[l] := epoch;
    }

    /** Keep the element found in slot `l`. */
    method KeepAt(l: nat)
      requires Valid() && l < config.size
      modifies epochFlags, flags.mem
      ensures Abs() == Put(old(Abs()), l, table[l], true)
    {
      flags.BitUnset(l);
      epochFlags[l] := true;
    }

    /** One round of the displacement loop: store the element in a free slot, or exchange it. */
    method Round(e: Element, lastLoc: nat, lastEpoch: bool) returns (done: bool, out: Element, loc: nat, outEpoch: bool)
      requires Valid()
      modifies table, epochFlags, flags.mem
      ensures done == FindFree(config, old(Abs()), e).Some?
      ensures done ==> Abs() == Put(old(Abs()), FindFree(config, old(Abs()), e).value, e, lastEpoch)
      ensures !done ==>
                && loc == KickLoc(config, e, lastLoc) && Abs() == Swap(old(Abs()), loc, e, lastEpoch)
                && out == old(Abs()).table[loc] && outEpoch == old(Abs()).epoch[loc]
    {
      hide FindFree, Put, Swap;
      out, loc, outEpoch := e, lastLoc, lastEpoch;
      var locs := ComputeHashes(config, e);
      var free := ScanFree(locs, e);
      if free.Some? {
        PutAt(free.value, e, lastEpoch);
        done := true;
      } else {
        HashesInRange(config, e);
        loc := NextLoc(locs, lastLoc);
        out, outEpoch := SwapAt(loc, e, lastEpoch);
        done := false;
      }
    }

    method DisplaceFrom(e0: Element)
      requires Valid()
      modifies table, epochFlags, flags.mem
      ensures Abs() == Displace(config, old(Abs()), e0, INVALID, true, config.depthLimit)
    {
      hide Displace, FindFree, Put, Swap, KickLoc, Sized, ValidConfig;
      var e, lastLoc, lastEpoch := e0, INVALID, true;
      var depth: nat := 0;
      ghost var goal := Displace(config, Abs(), e0, INVALID, true, config.depthLimit);
      while depth < config.depthLimit
        invariant depth <= config.depthLimit
        invariant Displace(config, Abs(), e, lastLoc, lastEpoch, config.depthLimit - depth) == goal
      {
        DisplaceUnfold(config, Abs(), e, lastLoc, lastEpoch, config.depthLimit - depth);
        var done;
        done, e, lastLoc, lastEpoch := Round(e, lastLoc, lastEpoch);
        if done {
          return;
        }
        depth := depth + 1;
      }
      DisplaceUnfold(config, Abs(), e, lastLoc, lastEpoch, 0);
    }

    method Insert(e: Element)
      requires Valid()
      modifies this, table, epochFlags, flags.mem
      ensures Abs() == Cuckoo.Insert(config, old(Abs()), e)
    {
      EpochCheck();
      var hit := ScanElement(ComputeHashes(config, e), e);
      if hit.Some? {
        KeepAt(hit.value);
      } else {
        DisplaceFrom(e);
      }
    }

    method Contains(e: Element, erase: bool) returns (found: bool)
      requires Valid()
      modifies flags.mem
      ensures (Abs(), found) == Cuckoo.Contains(config, old(Abs()), e, erase)
    {
      var hit := ScanElement(ComputeHashes(config, e), e);
      if hit.Some? {
        if erase {
          flags.BitSet(hit.value);
        }
        return true;
      }
      return false;
    }
  }
}
