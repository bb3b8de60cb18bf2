/** The rolling Bloom filter: every bit position carries a two-bit generation tag, split over a pair of words. A 64-bit
    word is the sequence of its bits, lowest first. */
module RollingBloom {

  type Word = w: seq<bool> | |w| == 64 witness seq(64, i => false)

  function And(x: Word, y: Word): (w: Word)
    ensures forall b | 0 <= b < 64 :: w[b] == (x[b] && y[b])
  {
    seq(64, b requires 0 <= b < 64 => x[b] && y[b])
  }

  function Or(x: Word, y: Word): (w: Word)
    ensures forall b | 0 <= b < 64 :: w[b] == (x[b] || y[b])
  {
    seq(64, b requires 0 <= b < 64 => x[b] || y[b])
  }

  function Xor(x: Word, y: Word): (w: Word)
    ensures forall b | 0 <= b < 64 :: w[b] == (x[b] != y[b])
  {
    seq(64, b requires 0 <= b < 64 => x[b] != y[b])
  }

  function Not(x: Word): (w: Word)
    ensures forall b | 0 <= b < 64 :: w[b] == !x[b]
  {
    seq(64, b requires 0 <= b < 64 => !x[b])
  }

  /** Zero minus a bit: all bits alike. */
  function Fill(on: bool): (w: Word)
    ensures forall b | 0 <= b < 64 :: w[b] == on
  {
    seq(64, b => on)
  }

  /** A bit shifted to place k. */
  function At(on: bool, k: nat): (w: Word)
    ensures forall b | 0 <= b < 64 :: w[b] == (on && b == k)
  {
    seq(64, b => on && b == k)
  }

  /** Replaces one bit. */
  function MarkWord(w: Word, b: nat, on: bool): Word {
    Or(And(w, Not(At(true, b))), At(on, b))
  }

  lemma MarkBit(w: Word, b: nat, on: bool)
    requires b < 64
    ensures MarkWord(w, b, on) == w[b := on]
  {
  }

  // Generations 1, 2 and 3; the bits of the number are the two bits of a tag

  type Generation = g: nat | 1 <= g <= 3 witness 1

  function Low(g: Generation): bool {
    g % 2 == 1
  }

  function High(g: Generation): bool {
    g / 2 == 1
  }

  function Next(g: Generation): Generation {
    if g == 3 then 1 else g + 1
  }

  function TagOf(p1: Word, p2: Word, b: nat): (t: nat)
    requires b < 64
    ensures t <= 3
  {
    (if p1[b] then 1 else 0) + (if p2[b] then 2 else 0)
  }

  /** The bits to keep when a generation is wiped. */
  function KeepMask(p1: Word, p2: Word, g: Generation): Word {
    Or(Xor(p1, Fill(Low(g))), Xor(p2, Fill(High(g))))
  }

  /** The mask clears exactly the positions tagged with the wiped generation. */
  lemma WipeTag(p1: Word, p2: Word, g: Generation, b: nat)
    requires b < 64
    ensures var mask := KeepMask(p1, p2, g);
            TagOf(And(p1, mask), And(p2, mask), b) == if TagOf(p1, p2, b) == g then 0 else TagOf(p1, p2, b)
  {
  }

  lemma MarkTag(p1: Word, p2: Word, g: Generation, b: nat, c: nat)
    requires b < 64 && c < 64
    ensures TagOf(MarkWord(p1, b, Low(g)), MarkWord(p2, b, High(g)), c) == if c == b then g else TagOf(p1, p2, c)
  {
    hide MarkWord;
    MarkBit(p1, b, Low(g));
    MarkBit(p2, b, High(g));
  }

  // The filter as a value

  /** The hash function keyed by a seed, the tweak the filter drew, and the sizes. */
  datatype Config<!K> = Config(murmur: (nat, K) -> nat, tweak: nat, hashFuncs: nat, pairs: nat, elements: nat) {
    /** RollingBloomHash, with the 32-bit seed wrapping around. */
    function Hash(n: nat, key: K): nat {
      murmur((n * 0xFBA4_C795 + tweak) % 0x1_0000_0000, key)
    }

    predicate Valid() {
      pairs >= 1
    }

    function PerGeneration(): nat {
      (elements + 1) / 2
    }
  }

  datatype State = State(data: seq<Word>, gen: Generation, entries: nat)

  datatype Slot = Slot(pair: nat, bit: nat)

  /** Where hash number n puts a key: the lowest bit of the word index is ignored. */
  function SlotOf<K>(cfg: Config<K>, n: nat, key: K): (slot: Slot)
    requires cfg.Valid()
    ensures slot.pair < cfg.pairs && slot.bit < 64
  {
    var h := cfg.Hash(n, key);
    Slot((h / 64) % (2 * cfg.pairs) / 2, h % 64)
  }

  ghost predicate SlotIn(data: seq<Word>, slot: Slot) {
    2 * slot.pair + 1 < |data| && slot.bit < 64
  }

  ghost function TagAt(data: seq<Word>, slot: Slot): (t: nat)
    requires SlotIn(data, slot)
    ensures t <= 3
  {
    TagOf(data[2 * slot.pair], data[2 * slot.pair + 1], slot.bit)
  }

  ghost function Mark(data: seq<Word>, slot: Slot, g: Generation): (d: seq<Word>)
    requires SlotIn(data, slot)
    ensures |d| == |data|
  {
    var p := 2 * slot.pair;
    data[p := MarkWord(data[p], slot.bit, Low(g))][p + 1 := MarkWord(data[p + 1], slot.bit, High(g))]
  }

  lemma MarkAt(data: seq<Word>, slot: Slot, g: Generation, other: Slot)
    requires SlotIn(data, slot) && SlotIn(data, other)
    ensures TagAt(Mark(data, slot, g), other) == if other == slot then g else TagAt(data, other)
  {
    hide MarkWord, TagOf;
    MarkTag(data[2 * slot.pair], data[2 * slot.pair + 1], g, slot.bit, other.bit);
  }

  /** The first k pairs without the tags of one generation. */
  ghost function Wipe(data: seq<Word>, g: Generation, k: nat): (d: seq<Word>)
    requires 2 * k <= |data|
    ensures |d| == |data|
    ensures forall i | 2 * k <= i < |data| :: d[i] == data[i]
  {
    if k == 0 then data else
      var d, p := Wipe(data, g, k - 1), 2 * (k - 1);
      var mask := KeepMask(data[p], data[p + 1], g);
      d[p := And(data[p], mask)][p + 1 := And(data[p + 1], mask)]
  }

  lemma {:induction false} WipeAt(data: seq<Word>, g: Generation, k: nat, slot: Slot)
    requires 2 * k <= |data| && SlotIn(data, slot)
    ensures TagAt(Wipe(data, g, k), slot)
         == if slot.pair < k && TagAt(data, slot) == g then 0 else TagAt(data, slot)
  {
    hide And, KeepMask, TagOf;
    if k > 0 {
      var p := 2 * (k - 1);
      if slot.pair == k - 1 {
        WipeTag(data[p], data[p + 1], g, slot.bit);
      } else {
        WipeAt(data, g, k - 1, slot);
      }
    }
  }

  ghost predicate Shaped<K>(cfg: Config<K>, st: State) {
    cfg.Valid() && |st.data| == 2 * cfg.pairs
  }

  /** Starts a new generation when the current one is full. */
  ghost function Roll<K>(cfg: Config<K>, st: State): (r: State)
    requires Shaped(cfg, st)
    ensures Shaped(cfg, r)
  {
    if st.entries != cfg.PerGeneration() then st
    else State(Wipe(st.data, Next(st.gen), cfg.pairs), Next(st.gen), 0)
  }

  /** Tags the places of the first n hashes of a key. */
  ghost function MarkKey<K>(cfg: Config<K>, data: seq<Word>, key: K, g: Generation, n: nat): (d: seq<Word>)
    requires cfg.Valid() && |data| == 2 * cfg.pairs
    ensures |d| == |data|
  {
    if n == 0 then data else Mark(MarkKey(cfg, data, key, g, n - 1), SlotOf(cfg, n - 1, key), g)
  }

  ghost function Insert<K>(cfg: Config<K>, st: State, key: K): (r: State)
    requires Shaped(cfg, st)
    ensures Shaped(cfg, r)
  {
    var r := Roll(cfg, st);
    State(MarkKey(cfg, r.data, key, r.gen, cfg.hashFuncs), r.gen, r.entries + 1)
  }

  ghost predicate Contains<K>(cfg: Config<K>, data: seq<Word>, key: K)
    requires cfg.Valid() && |data| == 2 * cfg.pairs
  {
    forall n: nat | n < cfg.hashFuncs :: TagAt(data, SlotOf(cfg, n, key)) != 0
  }

  // Recent keys stay

  /** A tag at most age generations old: only the tags 1 to 3 exist, so the oldest one is also the next to be reused. */
  ghost predicate Fresh(tag: nat, gen: Generation, age: nat) {
    tag != 0 && (age <= 1 ==> tag != Next(gen)) && (age == 0 ==> tag == gen)
  }

  ghost predicate Kept<K>(cfg: Config<K>, st: State, key: K, age: nat)
    requires Shaped(cfg, st)
  {
    forall n: nat | n < cfg.hashFuncs :: Fresh(TagAt(st.data, SlotOf(cfg, n, key)), st.gen, age)
  }

  /** How many of the latest keys are at most age generations old. */
  ghost function Span<K>(cfg: Config<K>, entries: nat, age: nat): nat {
    entries + (if age == 0 then 0 else if age == 1 then cfg.PerGeneration() else 2 * cfg.PerGeneration())
  }

  /** The keys of the generation being filled and of the two before it are all still marked. */
  ghost predicate Recent<K>(cfg: Config<K>, st: State, keys: seq<K>)
    requires Shaped(cfg, st)
  {
    forall i: nat, age: nat | i < |keys| && age <= 2 && |keys| - i <= Span(cfg, st.entries, age) ::
      Kept(cfg, st, keys[i], age)
  }

  lemma RollKept<K>(cfg: Config<K>, st: State, key: K, age: nat)
    requires Shaped(cfg, st) && st.entries == cfg.PerGeneration() && Kept(cfg, st, key, age) && age <= 1
    ensures Kept(cfg, Roll(cfg, st), key, age + 1)
  {
    hide Wipe, TagAt, SlotOf;
    var r := Roll(cfg, st);
    forall n: nat | n < cfg.hashFuncs
      ensures Fresh(TagAt(r.data, SlotOf(cfg, n, key)), r.gen, age + 1)
    {
      WipeAt(st.data, r.gen, cfg.pairs, SlotOf(cfg, n, key));
    }
  }

  lemma RollRecent<K>(cfg: Config<K>, st: State, keys: seq<K>)
    requires Shaped(cfg, st) && Recent(cfg, st, keys)
    ensures Recent(cfg, Roll(cfg, st), keys)
  {
    hide Kept, Shaped;
    if st.entries == cfg.PerGeneration() {
      var r := Roll(cfg, st);
      forall i: nat, age: nat | i < |keys| && age <= 2 && |keys| - i <= Span(cfg, r.entries, age)
        ensures Kept(cfg, r, keys[i], age)
      {
        assert |keys| - i <= Span(cfg, st.entries, age - 1);
        RollKept(cfg, st, keys[i], age - 1);
      }
    }
  }

  lemma {:induction false} MarkKeyAt<K>(cfg: Config<K>, data: seq<Word>, key: K, g: Generation, n: nat, slot: Slot)
    requires cfg.Valid() && |data| == 2 * cfg.pairs && SlotIn(data, slot)
    ensures var t := TagAt(MarkKey(cfg, data, key, g, n), slot);
            t == g || t == TagAt(data, slot)
    ensures forall m: nat | m < n && SlotOf(cfg, m, key) == slot :: TagAt(MarkKey(cfg, data, key, g, n), slot) == g
  {
    hide TagAt, SlotOf, Mark;
    if n > 0 {
      MarkKeyAt(cfg, data, key, g, n - 1, slot);
      MarkAt(MarkKey(cfg, data, key, g, n - 1), SlotOf(cfg, n - 1, key), g, slot);
    }
  }

  lemma InsertKept<K>(cfg: Config<K>, r: State, key: K, other: K, age: nat)
    requires Shaped(cfg, r) && (other == key || Kept(cfg, r, other, age)) && age <= 2
    ensures Kept(cfg, State(MarkKey(cfg, r.data, key, r.gen, cfg.hashFuncs), r.gen, r.entries + 1), other, age)
  {
    hide MarkKey, TagAt, SlotOf;
    var d := MarkKey(cfg, r.data, key, r.gen, cfg.hashFuncs);
    forall n: nat | n < cfg.hashFuncs
      ensures Fresh(TagAt(d, SlotOf(cfg, n, other)), r.gen, age)
    {
      MarkKeyAt(cfg, r.data, key, r.gen, cfg.hashFuncs, SlotOf(cfg, n, other));
      assert other == key ==> SlotOf(cfg, n, key) == SlotOf(cfg, n, other);
    }
  }

  lemma InsertRecent<K>(cfg: Config<K>, st: State, keys: seq<K>, key: K)
    requires Shaped(cfg, st) && Recent(cfg, st, keys)
    ensures Recent(cfg, Insert(cfg, st, key), keys + [key])
  {
    hide Kept, Shaped, Roll, MarkKey;
    var r, s := Roll(cfg, st), Insert(cfg, st, key);
    RollRecent(cfg, st, keys);
    var more := keys + [key];
    forall i: nat, age: nat | i < |more| && age <= 2 && |more| - i <= Span(cfg, s.entries, age)
      ensures Kept(cfg, s, more[i], age)
    {
      if i < |keys| {
        assert |keys| - i <= Span(cfg, r.entries, age);
        assert more[i] == keys[i];
      }
      InsertKept(cfg, r, key, more[i], age);
    }
  }

  ghost function Reset<K>(cfg: Config<K>): (st: State)
    requires cfg.Valid()
    ensures Shaped(cfg, st)
  {
    State(seq(2 * cfg.pairs, i => Fill(false)), 1, 0)
  }

  /** The filter after inserting the keys in order. */
  ghost function Run<K>(cfg: Config<K>, keys: seq<K>): (st: State)
    requires cfg.Valid()
    ensures Shaped(cfg, st)
  {
    if keys == [] then Reset(cfg) else Insert(cfg, Run(cfg, keys[..|keys| - 1]), keys[|keys| - 1])
  }

  lemma {:induction false} RunRecent<K>(cfg: Config<K>, keys: seq<K>)
    requires cfg.Valid()
    ensures Recent(cfg, Run(cfg, keys), keys)
  {
    hide Shaped, Insert;
    if keys != [] {
      var n := |keys| - 1;
      RunRecent(cfg, keys[..n]);
      InsertRecent(cfg, Run(cfg, keys[..n]), keys[..n], keys[n]);
      assert keys[..n] + [keys[n]] == keys;
    }
  }

  /** No false negatives: after any insertions the filter contains each of the latest keys it was sized for. */
  lemma LatestContained<K>(cfg: Config<K>, keys: seq<K>, i: nat)
    requires cfg.Valid() && i < |keys| && |keys| - i <= cfg.elements
    ensures Contains(cfg, Run(cfg, keys).data, keys[i])
  {
    hide Run, TagAt, SlotOf;
    RunRecent(cfg, keys);
    assert |keys| - i <= Span(cfg, Run(cfg, keys).entries, 2);
    assert Kept(cfg, Run(cfg, keys), keys[i], 2);
  }
}
