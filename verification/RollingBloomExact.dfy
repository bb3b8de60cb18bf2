/** What the rolling Bloom filter answers, exactly: the places marked by the keys of the last three generations. */
module RollingBloomExact {
  import opened RollingBloom

  /** The generation that key number i goes to. */
  function GenOf(per: nat, i: nat): nat {
    if per == 0 then 1 else i / per
  }

  function TagFor(g: nat): Generation {
    1 + g % 3
  }

  /** The generation being filled after k keys. */
  function Filling(per: nat, k: nat): nat {
    if k == 0 then 0 else GenOf(per, k - 1)
  }

  function EntriesAfter(per: nat, k: nat): int {
    if per == 0 || k == 0 then k else k - (k - 1) / per * per
  }

  ghost predicate Marks<K>(cfg: Config<K>, key: K, slot: Slot)
    requires cfg.Valid()
  {
    exists m: nat :: m < cfg.hashFuncs && SlotOf(cfg, m, key) == slot
  }

  /** Key number i of k is of the generation being filled or of one of the two before it. */
  predicate Live(per: nat, k: nat, i: nat) {
    i < k && GenOf(per, i) + 2 >= Filling(per, k)
  }

  lemma GenMonotone(per: nat, i: nat, j: nat)
    requires i <= j
    ensures GenOf(per, i) <= GenOf(per, j)
  {
    if per > 0 {
      var q, r := i / per, j / per;
      Quotients(per, i);
      Quotients(per, j);
      assert (r + 1) * per == r * per + per;
      LessFactor(q, r + 1, per);
    }
  }

  lemma Quotients(per: nat, i: nat)
    requires per > 0
    ensures i / per * per <= i < i / per * per + per
  {
    assert i == i / per * per + i % per;
  }

  lemma LessFactor(m: nat, n: nat, k: nat)
    requires m * k < n * k
    ensures m < n
  {}

  lemma QuotientIs(per: nat, i: nat, q: nat)
    requires per > 0 && q * per <= i < q * per + per
    ensures i / per == q
  {
    var r := i / per;
    Quotients(per, i);
    assert (r + 1) * per == r * per + per && (q + 1) * per == q * per + per;
    LessFactor(q, r + 1, per);
    LessFactor(r, q + 1, per);
  }

  /** A key starts a new generation exactly when the one being filled is full. */
  lemma GenStep(per: nat, k: nat)
    ensures var full := EntriesAfter(per, k) == per;
            && Filling(per, k + 1) == (if full then Filling(per, k) + 1 else Filling(per, k))
            && EntriesAfter(per, k + 1) == (if full then 0 else EntriesAfter(per, k)) + 1
            && 0 <= EntriesAfter(per, k)
  {
    if per > 0 && k > 0 {
      var q := (k - 1) / per;
      Quotients(per, k - 1);
      if k == q * per + per {
        assert (q + 1) * per == q * per + per;
        QuotientIs(per, k, q + 1);
      } else {
        QuotientIs(per, k, q);
      }
    }
  }

  lemma {:induction false} MarkKeyExact<K>(cfg: Config<K>, data: seq<Word>, key: K, g: Generation, n: nat, slot: Slot)
    requires cfg.Valid() && |data| == 2 * cfg.pairs && SlotIn(data, slot)
    ensures TagAt(MarkKey(cfg, data, key, g, n), slot)
         == if exists m: nat :: m < n && SlotOf(cfg, m, key) == slot then g else TagAt(data, slot)
  {
    hide TagAt, SlotOf, Mark;
    if n > 0 {
      MarkKeyExact(cfg, data, key, g, n - 1, slot);
      MarkAt(MarkKey(cfg, data, key, g, n - 1), SlotOf(cfg, n - 1, key), g, slot);
    }
  }

  /** The last key that marks the place. */
  ghost predicate LastMark<K>(cfg: Config<K>, keys: seq<K>, slot: Slot, i: nat)
    requires cfg.Valid()
  {
    i < |keys| && Marks(cfg, keys[i], slot) && forall j | i < j < |keys| :: !Marks(cfg, keys[j], slot)
  }

  /** The tag of a place when generation g is being filled: that of the last key that marks it, if that is live. */
  ghost predicate TagIs<K>(cfg: Config<K>, keys: seq<K>, g: nat, slot: Slot, t: nat)
    requires cfg.Valid()
  {
    var per := cfg.PerGeneration();
    if t == 0 then forall i: nat | i < |keys| && GenOf(per, i) + 2 >= g :: !Marks(cfg, keys[i], slot)
    else exists i: nat :: LastMark(cfg, keys, slot, i) && g <= GenOf(per, i) + 2 && GenOf(per, i) <= g
                          && t == TagFor(GenOf(per, i))
  }

  lemma ThreeTags(g: nat, h: nat)
    requires h <= g <= h + 2
    ensures TagFor(h) == TagFor(g + 1) <==> h + 2 == g
  {}

  lemma TagNext(g: nat)
    ensures Next(TagFor(g)) == TagFor(g + 1)
  {}

  /** Wiping the tags of the generation to come forgets exactly the oldest of the three. */
  lemma TagRolls<K>(cfg: Config<K>, keys: seq<K>, g: nat, slot: Slot, t: nat)
    requires cfg.Valid() && TagIs(cfg, keys, g, slot, t)
    ensures TagIs(cfg, keys, g + 1, slot, if t == TagFor(g + 1) then 0 else t)
  {
    hide Marks, GenOf, TagFor;
    var per := cfg.PerGeneration();
    if t != 0 {
      var i: nat :| LastMark(cfg, keys, slot, i) && g <= GenOf(per, i) + 2 && GenOf(per, i) <= g && t == TagFor(GenOf(per, i));
      ThreeTags(g, GenOf(per, i));
      if t == TagFor(g + 1) {
        forall j: nat | j < |keys| && GenOf(per, j) + 2 >= g + 1 ensures !Marks(cfg, keys[j], slot) {
          if j <= i {
            GenMonotone(per, j, i);
          }
        }
      }
    }
  }

  lemma TagMarked<K>(cfg: Config<K>, keys: seq<K>, key: K, g: nat, slot: Slot, t: nat)
    requires cfg.Valid() && TagIs(cfg, keys, g, slot, t) && g == GenOf(cfg.PerGeneration(), |keys|)
    ensures TagIs(cfg, keys + [key], g, slot, if Marks(cfg, key, slot) then TagFor(g) else t)
  {
    hide Marks, GenOf, TagFor;
    var per, more := cfg.PerGeneration(), keys + [key];
    if Marks(cfg, key, slot) {
      assert LastMark(cfg, more, slot, |keys|);
    } else if t != 0 {
      var i: nat :| LastMark(cfg, keys, slot, i) && g <= GenOf(per, i) + 2 && GenOf(per, i) <= g && t == TagFor(GenOf(per, i));
      assert LastMark(cfg, more, slot, i);
    }
  }

  ghost predicate Exact<K>(cfg: Config<K>, keys: seq<K>, st: State)
    requires Shaped(cfg, st)
  {
    var per := cfg.PerGeneration();
    && st.gen == TagFor(Filling(per, |keys|)) && st.entries == EntriesAfter(per, |keys|)
    && forall slot | SlotIn(st.data, slot) :: TagIs(cfg, keys, Filling(per, |keys|), slot, TagAt(st.data, slot))
  }

  lemma InsertExact<K>(cfg: Config<K>, keys: seq<K>, st: State, key: K)
    requires Shaped(cfg, st) && Exact(cfg, keys, st)
    ensures Exact(cfg, keys + [key], Insert(cfg, st, key))
  {
    hide Wipe, MarkKey, TagAt, TagIs, Filling, EntriesAfter, TagFor, Marks;
    var per := cfg.PerGeneration();
    var r, s, g := Roll(cfg, st), Insert(cfg, st, key), Filling(per, |keys|);
    var g' := Filling(per, |keys| + 1);
    GenStep(per, |keys|);
    TagNext(g);
    assert g' == GenOf(per, |keys|) by { FillingIs(per, |keys|); }
    forall slot | SlotIn(s.data, slot) ensures TagIs(cfg, keys + [key], g', slot, TagAt(s.data, slot)) {
      var t := TagAt(st.data, slot);
      if st.entries == per {
        WipeAt(st.data, Next(st.gen), cfg.pairs, slot);
        TagRolls(cfg, keys, g, slot, t);
      }
      MarksExact(cfg, r.data, key, r.gen, slot);
      TagMarked(cfg, keys, key, g', slot, TagAt(r.data, slot));
    }
  }

  lemma FillingIs(per: nat, k: nat)
    ensures Filling(per, k + 1) == GenOf(per, k)
  {}

  lemma MarksExact<K>(cfg: Config<K>, data: seq<Word>, key: K, g: Generation, slot: Slot)
    requires cfg.Valid() && |data| == 2 * cfg.pairs && SlotIn(data, slot)
    ensures TagAt(MarkKey(cfg, data, key, g, cfg.hashFuncs), slot) == if Marks(cfg, key, slot) then g else TagAt(data, slot)
  {
    hide TagAt, SlotOf, MarkKey;
    MarkKeyExact(cfg, data, key, g, cfg.hashFuncs, slot);
  }

  lemma {:induction false} RunExact<K>(cfg: Config<K>, keys: seq<K>)
    requires cfg.Valid()
    ensures Exact(cfg, keys, Run(cfg, keys))
  {
    hide Insert, Shaped;
    if keys == [] {
      ResetExact(cfg);
    } else {
      var n := |keys| - 1;
      RunExact(cfg, keys[..n]);
      InsertExact(cfg, keys[..n], Run(cfg, keys[..n]), keys[n]);
      assert keys[..n] + [keys[n]] == keys;
    }
  }

  lemma ResetExact<K>(cfg: Config<K>)
    requires cfg.Valid()
    ensures Exact(cfg, [], Reset(cfg))
  {}

  /** A live key marks the place. */
  ghost predicate Covered<K>(cfg: Config<K>, keys: seq<K>, slot: Slot)
    requires cfg.Valid()
  {
    exists i: nat :: i < |keys| && Live(cfg.PerGeneration(), |keys|, i) && Marks(cfg, keys[i], slot)
  }

  lemma TagLive<K>(cfg: Config<K>, keys: seq<K>, slot: Slot, t: nat)
    requires cfg.Valid() && TagIs(cfg, keys, Filling(cfg.PerGeneration(), |keys|), slot, t)
    ensures t != 0 <==> Covered(cfg, keys, slot)
  {
    hide Marks, GenOf, Filling, TagFor;
    var per := cfg.PerGeneration();
    if t != 0 {
      var i: nat :| LastMark(cfg, keys, slot, i) && Filling(per, |keys|) <= GenOf(per, i) + 2;
      assert Live(per, |keys|, i);
    }
  }

  /** After any insertions the filter contains a key exactly if each of its places is marked by a key of the last three
      generations: a recent key is always found, and any other only where live keys cover all its places. */
  lemma ContainsExact<K>(cfg: Config<K>, keys: seq<K>, key: K)
    requires cfg.Valid()
    ensures Contains(cfg, Run(cfg, keys).data, key) <==>
            forall n: nat | n < cfg.hashFuncs :: Covered(cfg, keys, SlotOf(cfg, n, key))
  {
    hide Run, TagAt, SlotOf, Covered, TagIs, Filling;
    RunExact(cfg, keys);
    forall n: nat | n < cfg.hashFuncs
      ensures TagAt(Run(cfg, keys).data, SlotOf(cfg, n, key)) != 0 <==> Covered(cfg, keys, SlotOf(cfg, n, key)) {
      TagLive(cfg, keys, SlotOf(cfg, n, key), TagAt(Run(cfg, keys).data, SlotOf(cfg, n, key)));
    }
  }
}
