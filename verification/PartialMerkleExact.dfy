/** What a partial Merkle tree holds and leaves out, and that its hashes are those of the block's Merkle tree. */
module PartialMerkleExact {
  import opened Common
  import opened Division
  import opened PartialMerkle

  // ----- the Merkle tree level by level

  /** The level above: neighbours are hashed together, the left one first, and a last one without neighbour with itself. */
  function LevelAbove(H: PairHash, level: seq<Hash>): (above: seq<Hash>)
    ensures |above| == (|level| + 1) / 2
  {
    seq((|level| + 1) / 2, i requires 0 <= i < (|level| + 1) / 2 =>
      H(level[2 * i], if 2 * i + 1 < |level| then level[2 * i + 1] else level[2 * i]))
  }

  function Level(H: PairHash, txids: seq<Hash>, h: nat): seq<Hash> {
    if h == 0 then txids else LevelAbove(H, Level(H, txids, h - 1))
  }

  lemma {:induction false} LevelWidth(H: PairHash, txids: seq<Hash>, h: nat)
    ensures |Level(H, txids, h)| == TreeWidth(|txids|, h)
  {
    if h == 0 {
      LeafWidth(|txids|);
    } else {
      LevelWidth(H, txids, h - 1);
      WidthHalves(|txids|, h);
    }
  }

  lemma LeafWidth(n: nat)
    ensures TreeWidth(n, 0) == n
  {
    assert Pow2(0) == 1;
  }

  /** The hash of every node is the one at its place in the level. */
  lemma {:induction false} HashIsLevel(H: PairHash, txids: seq<Hash>, h: nat, pos: nat)
    requires IsNode(|txids|, h, pos)
    ensures pos < |Level(H, txids, h)| && CalcHash(H, txids, h, pos) == Level(H, txids, h)[pos]
  {
    hide TreeWidth, LevelAbove, CalcHash;
    LevelWidth(H, txids, h);
    HashUnfold(H, txids, h, pos);
    if h > 0 {
      var below := Level(H, txids, h - 1);
      LevelWidth(H, txids, h - 1);
      HashIsLevel(H, txids, h - 1, 2 * pos);
      AboveAt(H, below, pos);
      if 2 * pos + 1 < |below| {
        HashIsLevel(H, txids, h - 1, 2 * pos + 1);
      }
    }
  }

  lemma AboveAt(H: PairHash, level: seq<Hash>, i: nat)
    requires i < |LevelAbove(H, level)|
    ensures 2 * i < |level|
    ensures LevelAbove(H, level)[i] == H(level[2 * i], if 2 * i + 1 < |level| then level[2 * i + 1] else level[2 * i])
  {}

  lemma HashUnfold(H: PairHash, txids: seq<Hash>, h: nat, pos: nat)
    requires IsNode(|txids|, h, pos)
    ensures h == 0 ==> pos < |txids| && CalcHash(H, txids, h, pos) == txids[pos]
    ensures h > 0 ==>
              && IsNode(|txids|, h - 1, 2 * pos)
              && var l := CalcHash(H, txids, h - 1, 2 * pos);
                 CalcHash(H, txids, h, pos) ==
                   if IsNode(|txids|, h - 1, 2 * pos + 1) then H(l, CalcHash(H, txids, h - 1, 2 * pos + 1)) else H(l, l)
  {
    if h == 0 {
      LeafWidth(|txids|);
    } else {
      Children(|txids|, h, pos);
    }
  }

  /** The root is what is left when neighbours are hashed together until one hash remains. */
  lemma RootIsLast(H: PairHash, txids: seq<Hash>)
    requires txids != []
    ensures var top := TreeHeight(|txids|);
            && Level(H, txids, top) == [MerkleRoot(H, txids)]
            && forall h: nat | h < top :: |Level(H, txids, h)| > 1
  {
    hide TreeWidth, CalcHash, Level, LevelAbove;
    var n := |txids|;
    var top := TreeHeight(n);
    RootNode(n);
    HashIsLevel(H, txids, top, 0);
    LevelWidth(H, txids, top);
    forall h: nat | h < top ensures |Level(H, txids, h)| > 1 {
      LevelWidth(H, txids, h);
      WideBelow(n, 0, h);
    }
  }

  lemma {:induction false} WideBelow(n: nat, from: nat, h: nat)
    requires from <= h < HeightFrom(n, from)
    ensures TreeWidth(n, h) > 1
    decreases h - from
  {
    if from < h {
      WideBelow(n, from + 1, h);
    }
  }

  // ----- what is written for a node

  /** Some leaf below the node is matched. */
  ghost predicate LeafMatched(match_: seq<bool>, h: nat, pos: nat) {
    exists p | 0 <= p < |match_| :: match_[p] && pos * Pow2(h) <= p < (pos + 1) * Pow2(h)
  }

  lemma ParentIs(match_: seq<bool>, h: nat, pos: nat)
    ensures ParentOfMatch(match_, h, pos) <==> LeafMatched(match_, h, pos)
  {
    FirstLeafShift(h, pos);
    FirstLeafShift(h, pos + 1);
  }

  /** A node without a matched leaf is written as one bit and its hash, whatever lies below. */
  lemma PrunedNode(H: PairHash, txids: seq<Hash>, match_: seq<bool>, h: nat, pos: nat)
    requires |txids| == |match_| && IsNode(|txids|, h, pos) && !LeafMatched(match_, h, pos)
    ensures Build(H, txids, match_, h, pos) == ([false], [CalcHash(H, txids, h, pos)])
  {
    hide CalcHash;
    ParentIs(match_, h, pos);
  }

  /** A matched leaf is written as one bit and its txid; a node above one as one bit and no hash, then its children. */
  lemma OpenNode(H: PairHash, txids: seq<Hash>, match_: seq<bool>, h: nat, pos: nat)
    requires |txids| == |match_| && IsNode(|txids|, h, pos) && LeafMatched(match_, h, pos)
    ensures h == 0 ==> pos < |txids| && Build(H, txids, match_, h, pos) == ([true], [txids[pos]])
    ensures h > 0 ==>
              && IsNode(|txids|, h - 1, 2 * pos)
              && var l := Build(H, txids, match_, h - 1, 2 * pos);
                 Build(H, txids, match_, h, pos) ==
                   if IsNode(|txids|, h - 1, 2 * pos + 1)
                   then var r := Build(H, txids, match_, h - 1, 2 * pos + 1); ([true] + l.0 + r.0, l.1 + r.1)
                   else ([true] + l.0, l.1)
  {
    ParentIs(match_, h, pos);
    if h == 0 {
      LeafWidth(|txids|);
    } else {
      Children(|txids|, h, pos);
    }
  }

  // ----- how much is written

  /** The number of matched leaves in a range. */
  function Matches(match_: seq<bool>, lo: nat, hi: nat): nat
    requires lo <= hi <= |match_|
    decreases hi - lo
  {
    if lo == hi then 0 else (if match_[lo] then 1 else 0) + Matches(match_, lo + 1, hi)
  }

  lemma {:induction false} MatchesSplit(match_: seq<bool>, lo: nat, mid: nat, hi: nat)
    requires lo <= mid <= hi <= |match_|
    ensures Matches(match_, lo, hi) == Matches(match_, lo, mid) + Matches(match_, mid, hi)
    decreases mid - lo
  {
    if lo < mid {
      MatchesSplit(match_, lo + 1, mid, hi);
    }
  }

  lemma {:induction false} SomeMatch(match_: seq<bool>, lo: nat, hi: nat)
    requires lo <= hi <= |match_|
    ensures Matches(match_, lo, hi) >= 1 <==> AnyMatch(match_, lo, hi)
    decreases hi - lo
  {
    if lo < hi {
      SomeMatch(match_, lo + 1, hi);
      if AnyMatch(match_, lo, hi) && !match_[lo] {
        var p :| lo <= p < hi && match_[p];
        assert AnyMatch(match_, lo + 1, hi);
      }
      if AnyMatch(match_, lo + 1, hi) {
        var p :| lo + 1 <= p < hi && match_[p];
        assert AnyMatch(match_, lo, hi);
      }
    }
  }

  function NodeMatches(match_: seq<bool>, h: nat, pos: nat): nat
    requires IsNode(|match_|, h, pos)
  {
    LeafRange(|match_|, h, pos);
    Matches(match_, FirstLeaf(h, pos), EndLeaf(|match_|, h, pos))
  }

  lemma NodeMatchesSplit(match_: seq<bool>, h: nat, pos: nat)
    requires h > 0 && IsNode(|match_|, h, pos)
    ensures IsNode(|match_|, h - 1, 2 * pos)
    ensures NodeMatches(match_, h, pos) == NodeMatches(match_, h - 1, 2 * pos)
              + if IsNode(|match_|, h - 1, 2 * pos + 1) then NodeMatches(match_, h - 1, 2 * pos + 1) else 0
  {
    hide IsNode, Matches, EndLeaf, FirstLeaf;
    var n := |match_|;
    Children(n, h, pos);
    LeafRange(n, h, pos);
    LeafRange(n, h - 1, 2 * pos);
    if IsNode(n, h - 1, 2 * pos + 1) {
      LeafRange(n, h - 1, 2 * pos + 1);
      MatchesSplit(match_, FirstLeaf(h, pos), FirstLeaf(h - 1, 2 * pos + 1), EndLeaf(n, h, pos));
    }
  }

  lemma ParentCounts(match_: seq<bool>, h: nat, pos: nat)
    requires IsNode(|match_|, h, pos)
    ensures ParentOfMatch(match_, h, pos) <==> NodeMatches(match_, h, pos) >= 1
  {
    LeafRange(|match_|, h, pos);
    SomeMatch(match_, FirstLeaf(h, pos), EndLeaf(|match_|, h, pos));
  }

  /** A subtree of height h with m matches is written in at most m * h + 1 hashes and 2 * m * h + 1 bits. */
  lemma {:induction false} BuildSmall(H: PairHash, txids: seq<Hash>, match_: seq<bool>, h: nat, pos: nat)
    requires |txids| == |match_| && IsNode(|txids|, h, pos)
    ensures var (tb, th) := Build(H, txids, match_, h, pos);
            |th| <= Times(NodeMatches(match_, h, pos), h) + 1 && |tb| <= 2 * Times(NodeMatches(match_, h, pos), h) + 1
  {
    hide IsNode, NodeMatches, Times, ParentOfMatch, CalcHash;
    var n, m := |txids|, NodeMatches(match_, h, pos);
    ParentCounts(match_, h, pos);
    if h > 0 && ParentOfMatch(match_, h, pos) {
      Children(n, h, pos);
      NodeMatchesSplit(match_, h, pos);
      BuildSmall(H, txids, match_, h - 1, 2 * pos);
      var a := NodeMatches(match_, h - 1, 2 * pos);
      if IsNode(n, h - 1, 2 * pos + 1) {
        BuildSmall(H, txids, match_, h - 1, 2 * pos + 1);
        OneLevel(a, NodeMatches(match_, h - 1, 2 * pos + 1), h);
      } else {
        OneLevel(a, 0, h);
      }
    }
  }

  lemma OneLevel(a: nat, b: nat, h: nat)
    requires h >= 1 && a + b >= 1
    ensures Times(a, h - 1) + Times(b, h - 1) + 1 <= Times(a + b, h) && Times(b, h - 1) >= 0
  {
    assert (a + b) * h == a * (h - 1) + b * (h - 1) + (a + b);
  }

  /** The whole tree: for m matched transactions at most m times the height, and one more, hashes. */
  lemma TreeSmall(H: PairHash, txids: seq<Hash>, match_: seq<bool>)
    requires txids != [] && |txids| == |match_|
    ensures var t, m, h := BuildTree(H, txids, match_), Matches(match_, 0, |match_|), TreeHeight(|txids|);
            |t.vHash| <= m * h + 1 && |t.vBits| <= 2 * (m * h) + 1
    ensures Matches(match_, 0, |match_|) == 0 ==>
              BuildTree(H, txids, match_) == Tree(|txids|, [false], [MerkleRoot(H, txids)])
  {
    hide IsNode, Matches, CalcHash, TreeHeight, ParentOfMatch;
    var h := TreeHeight(|txids|);
    RootNode(|txids|);
    BuildSmall(H, txids, match_, h, 0);
    ParentCounts(match_, h, 0);
  }

  // ----- what an accepted tree looks like

  /** An accepted tree is for between one and 16666 transactions, holds no more hashes than transactions or bits, and was
      read to its last hash and into its last byte without two equal children. */
  lemma AcceptedShape(H: PairHash, t: Tree)
    ensures var e := Extract(H, t.nTransactions, t.vBits, t.vHash, TreeHeight(t.nTransactions), 0, 0, 0);
            ExtractMatches(H, t).Accepted? <==>
              && 1 <= t.nTransactions <= 16666 && |t.vHash| <= t.nTransactions && |t.vHash| <= |t.vBits|
              && !e.fBad && e.nHashUsed == |t.vHash| && |t.vBits| <= (e.nBitsUsed + 7) / 8 * 8
              && e.nBitsUsed <= (|t.vBits| + 7) / 8 * 8
    ensures var e := Extract(H, t.nTransactions, t.vBits, t.vHash, TreeHeight(t.nTransactions), 0, 0, 0);
            ExtractMatches(H, t).Accepted? ==> ExtractMatches(H, t) == Accepted(e.hash, e.vMatch, e.vnIndex)
  {
    hide Extract, TreeHeight;
  }
}
