/** CRollingBloomFilter as the object that updates its words in place. */
module BloomFilter {
  import opened RollingBloom

  class RollingFilter<K> {
    var cfg: Config<K>
    const data: array<Word>
    var nGeneration: Generation
    var nEntriesThisGeneration: nat

    ghost predicate Valid()
      reads this
    {
      cfg.Valid() && data.Length == 2 * cfg.pairs
    }

    ghost function Abs(): State
      reads this, data
    {
      State(data[..], nGeneration, nEntriesThisGeneration)
    }

    constructor (cfg: Config<K>)
      requires cfg.Valid()
      ensures Valid() && this.cfg == cfg && fresh(data) && Abs() == Run(cfg, [])
    {
      this.cfg := cfg;
      data := new Word[2 * cfg.pairs](i => Fill(false));
      nGeneration := 1;
      nEntriesThisGeneration := 0;
      new;
      Reset(cfg.tweak);
    }

    /** An empty filter with a newly drawn tweak. */
    method Reset(nTweak: nat)
      requires Valid()
      modifies this, data
      ensures Valid() && cfg == old(cfg).(tweak := nTweak) && Abs() == Run(cfg, [])
    {
      cfg := cfg.(tweak := nTweak);
      nEntriesThisGeneration := 0;
      nGeneration := 1;
      var i := 0;
      while i < data.Length
        invariant 0 <= i <= data.Length
        invariant forall j | 0 <= j < i :: data[j] == Fill(false)
        modifies data
      {
        data[i] := Fill(false);
        i := i + 1;
      }
      assert data[..] == RollingBloom.Reset(cfg).data;
    }

    /** Clears the positions that carry the current generation's tag. */
    method WipeGeneration()
      requires Valid()
      modifies data
      ensures data[..] == Wipe(old(data[..]), nGeneration, cfg.pairs)
    {
      hide And, KeepMask;
      ghost var was := data[..];
      var p := 0;
      while p < data.Length
        invariant 0 <= p <= data.Length && p % 2 == 0
        invariant data[..] == Wipe(was, nGeneration, p / 2)
      {
        var p1, p2 := data[p], data[p + 1];
        assert was[p] == p1 && was[p + 1] == p2;
        var mask := KeepMask(p1, p2, nGeneration);
        data[p] := And(p1, mask);
        data[p + 1] := And(p2, mask);
        p := p + 2;
      }
    }

    /** Tags the position of hash number n of a key with the current generation. */
    method MarkHash(n: nat, key: K)
      requires Valid()
      modifies data
      ensures data[..] == Mark(old(data[..]), SlotOf(cfg, n, key), nGeneration)
    {
      hide MarkWord;
      var h := cfg.Hash(n, key);
      var bit := h % 64;
      var pos := (h / 64) % data.Length;
      var even := pos - pos % 2;
      assert SlotOf(cfg, n, key) == Slot(even / 2, bit);
      data[even] := MarkWord(data[even], bit, Low(nGeneration));
      data[even + 1] := MarkWord(data[even + 1], bit, High(nGeneration));
    }

    method Insert(key: K)
      requires Valid()
      modifies this, data
      ensures Valid() && cfg == old(cfg) && Abs() == RollingBloom.Insert(cfg, old(Abs()), key)
    {
      hide Mark, Wipe, SlotOf;
      if nEntriesThisGeneration == cfg.PerGeneration() {
        nEntriesThisGeneration := 0;
        nGeneration := Next(nGeneration);
        WipeGeneration();
      }
      assert Abs() == Roll(cfg, old(Abs()));
      nEntriesThisGeneration := nEntriesThisGeneration + 1;
      ghost var base := data[..];
      var n := 0;
      while n < cfg.hashFuncs
        invariant 0 <= n <= cfg.hashFuncs
        invariant data[..] == MarkKey(cfg, base, key, nGeneration, n)
        modifies data
      {
        MarkHash(n, key);
        n := n + 1;
      }
    }

    method Contains(key: K) returns (found: bool)
      requires Valid()
      ensures found == RollingBloom.Contains(cfg, data[..], key)
    {
      hide Or;
      var n := 0;
      while n < cfg.hashFuncs
        invariant 0 <= n <= cfg.hashFuncs
        invariant forall m: nat | m < n :: TagAt(data[..], SlotOf(cfg, m, key)) != 0
      {
        var h := cfg.Hash(n, key);
        var bit := h % 64;
        var pos := (h / 64) % data.Length;
        var even := pos - pos % 2;
        assert SlotOf(cfg, n, key) == Slot(even / 2, bit);
        if !Or(data[even], data[even + 1])[bit] {
          assert TagAt(data[..], SlotOf(cfg, n, key)) == 0;
          return false;
        }
        n := n + 1;
      }
      return true;
    }
  }
}
