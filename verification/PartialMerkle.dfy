/** Partial Merkle trees (BIP 37): what TraverseAndBuild writes and TraverseAndExtract reads, as functions of the
    tree position. The hash of two concatenated hashes is a parameter. */
module PartialMerkle {
  import opened Common
  import opened Division

  type Hash = nat

  type PairHash = (Hash, Hash) -> Hash

  const MAX_BLOCK_WEIGHT: nat := 4000000
  const MIN_TRANSACTION_WEIGHT: nat := 240

  // ----- the shape of the tree

  /** CalcTreeWidth: the number of nodes at a height above `n` leaves. */
  function TreeWidth(n: nat, h: nat): nat {
    (n + Pow2(h) - 1) / Pow2(h)
  }

  lemma WidthHalves(n: nat, h: nat)
    requires h > 0
    ensures TreeWidth(n, h) == (TreeWidth(n, h - 1) + 1) / 2
  {
    var p := Pow2(h - 1);
    assert n + Pow2(h) - 1 == (n + p - 1) + p;
    DivTwice(n + 2 * p - 1, p);
    DivStep(n + p - 1, p);
  }

  /** The first leaf below node `pos` at height `h`. */
  function FirstLeaf(h: nat, pos: nat): nat {
    if h == 0 then pos else FirstLeaf(h - 1, 2 * pos)
  }

  lemma {:induction false} FirstLeafShift(h: nat, pos: nat)
    ensures FirstLeaf(h, pos) == pos * Pow2(h)
  {
    if h > 0 {
      FirstLeafShift(h - 1, 2 * pos);
      assert 2 * pos * Pow2(h - 1) == pos * (2 * Pow2(h - 1));
    }
  }

  /** A node exists exactly when its first leaf does. */
  lemma {:induction false} InTree(n: nat, h: nat, pos: nat)
    ensures pos < TreeWidth(n, h) <==> FirstLeaf(h, pos) < n
  {
    if h > 0 {
      WidthHalves(n, h);
      InTree(n, h - 1, 2 * pos);
    }
  }

  lemma {:induction false} FirstLeafMonotone(h: nat, pos: nat)
    ensures FirstLeaf(h, pos) < FirstLeaf(h, pos + 1)
  {
    if h > 0 {
      FirstLeafMonotone(h - 1, 2 * pos);
      FirstLeafMonotone(h - 1, 2 * pos + 1);
    }
  }

  /** One past the last leaf below a node. */
  function EndLeaf(n: nat, h: nat, pos: nat): nat {
    Min(FirstLeaf(h, pos + 1), n)
  }

  predicate IsNode(n: nat, h: nat, pos: nat) {
    pos < TreeWidth(n, h)
  }

  lemma Children(n: nat, h: nat, pos: nat)
    requires h > 0 && IsNode(n, h, pos)
    ensures IsNode(n, h - 1, 2 * pos)
    ensures FirstLeaf(h, pos) == FirstLeaf(h - 1, 2 * pos) < n
    ensures IsNode(n, h - 1, 2 * pos + 1) ==>
              EndLeaf(n, h - 1, 2 * pos) == FirstLeaf(h - 1, 2 * pos + 1) && EndLeaf(n, h - 1, 2 * pos + 1) == EndLeaf(n, h, pos)
    ensures !IsNode(n, h - 1, 2 * pos + 1) ==> EndLeaf(n, h - 1, 2 * pos) == EndLeaf(n, h, pos)
    ensures FirstLeaf(h, pos) < EndLeaf(n, h, pos)
  {
    WidthHalves(n, h);
    InTree(n, h, pos);
    InTree(n, h - 1, 2 * pos + 1);
    FirstLeafMonotone(h - 1, 2 * pos);
    FirstLeafMonotone(h - 1, 2 * pos + 1);
  }

  lemma LeafRange(n: nat, h: nat, pos: nat)
    requires IsNode(n, h, pos)
    ensures FirstLeaf(h, pos) < EndLeaf(n, h, pos) <= n
  {
    InTree(n, h, pos);
    FirstLeafMonotone(h, pos);
  }

  // ----- building

  function CalcHash(H: PairHash, txids: seq<Hash>, h: nat, pos: nat): Hash
    requires IsNode(|txids|, h, pos)
  {
    if h == 0 then
      assert TreeWidth(|txids|, 0) == |txids|;
      txids[pos]
    else
      Children(|txids|, h, pos);
      var left := CalcHash(H, txids, h - 1, 2 * pos);
      var right := if IsNode(|txids|, h - 1, 2 * pos + 1) then CalcHash(H, txids, h - 1, 2 * pos + 1) else left;
      H(left, right)
  }

  predicate AnyMatch(match_: seq<bool>, lo: nat, hi: nat)
    requires hi <= |match_|
  {
    exists p :: lo <= p < hi && match_[p]
  }

  /** Whether the node is the parent of a matched leaf. */
  predicate ParentOfMatch(match_: seq<bool>, h: nat, pos: nat) {
    AnyMatch(match_, FirstLeaf(h, pos), EndLeaf(|match_|, h, pos))
  }

  /** The flag bits and hashes written for the subtree of a node. */
  function Build(H: PairHash, txids: seq<Hash>, match_: seq<bool>, h: nat, pos: nat): (seq<bool>, seq<Hash>)
    requires |txids| == |match_| && IsNode(|txids|, h, pos)
  {
    var parent := ParentOfMatch(match_, h, pos);
    if h == 0 || !parent then ([parent], [CalcHash(H, txids, h, pos)])
    else
      Children(|txids|, h, pos);
      var (lb, lh) := Build(H, txids, match_, h - 1, 2 * pos);
      if IsNode(|txids|, h - 1, 2 * pos + 1) then
        var (rb, rh) := Build(H, txids, match_, h - 1, 2 * pos + 1);
        ([parent] + lb + rb, lh + rh)
      else ([parent] + lb, lh)
  }

  // ----- extracting

  datatype Ext = Ext(hash: Hash, nBitsUsed: nat, nHashUsed: nat, vMatch: seq<Hash>, vnIndex: seq<nat>, fBad: bool)

  /** Reading the subtree of a node from the given places in the bits and hashes. */
  function Extract(H: PairHash, n: nat, bits: seq<bool>, hashes: seq<Hash>, h: nat, pos: nat, b: nat, k: nat): Ext
    decreases h
  {
    if b >= |bits| then Ext(0, b, k, [], [], true)
    else
      var parent := bits[b];
      if h == 0 || !parent then
        if k >= |hashes| then Ext(0, b + 1, k, [], [], true)
        else if h == 0 && parent then Ext(hashes[k], b + 1, k + 1, [hashes[k]], [pos], false)
        else Ext(hashes[k], b + 1, k + 1, [], [], false)
      else
        var l := Extract(H, n, bits, hashes, h - 1, 2 * pos, b + 1, k);
        if IsNode(n, h - 1, 2 * pos + 1) then
          var r := Extract(H, n, bits, hashes, h - 1, 2 * pos + 1, l.nBitsUsed, l.nHashUsed);
          Ext(H(l.hash, r.hash), r.nBitsUsed, r.nHashUsed, l.vMatch + r.vMatch, l.vnIndex + r.vnIndex,
              l.fBad || r.fBad || r.hash == l.hash)
        else Ext(H(l.hash, l.hash), l.nBitsUsed, l.nHashUsed, l.vMatch, l.vnIndex, l.fBad)
  }

  // ----- the round trip

  /** The matched leaves of a range, with their indices, in order. */
  function MatchedIndexes(match_: seq<bool>, lo: nat, hi: nat): (s: seq<nat>)
    requires lo <= hi <= |match_|
    ensures forall k | 0 <= k < |s| :: lo <= s[k] < hi
    decreases hi - lo
  {
    if lo == hi then [] else (if match_[lo] then [lo] else []) + MatchedIndexes(match_, lo + 1, hi)
  }

  function Select(txids: seq<Hash>, indexes: seq<nat>): seq<Hash>
    requires forall k | 0 <= k < |indexes| :: indexes[k] < |txids|
  {
    seq(|indexes|, k requires 0 <= k < |indexes| => txids[indexes[k]])
  }

  lemma {:induction false} MatchedSplit(match_: seq<bool>, lo: nat, mid: nat, hi: nat)
    requires lo <= mid <= hi <= |match_|
    ensures MatchedIndexes(match_, lo, hi) == MatchedIndexes(match_, lo, mid) + MatchedIndexes(match_, mid, hi)
    decreases mid - lo
  {
    if lo < mid {
      MatchedSplit(match_, lo + 1, mid, hi);
    }
  }

  lemma {:induction false} MatchedNone(match_: seq<bool>, lo: nat, hi: nat)
    requires lo <= hi <= |match_| && !AnyMatch(match_, lo, hi)
    ensures MatchedIndexes(match_, lo, hi) == []
    decreases hi - lo
  {
    if lo < hi {
      MatchedNone(match_, lo + 1, hi);
    }
  }

  lemma SelectAppend(txids: seq<Hash>, a: seq<nat>, b: seq<nat>)
    requires forall k | 0 <= k < |a| :: a[k] < |txids|
    requires forall k | 0 <= k < |b| :: b[k] < |txids|
    ensures Select(txids, a + b) == Select(txids, a) + Select(txids, b)
  {}

  /** No node the builder descends into has two children with equal hashes. */
  ghost predicate Clean(H: PairHash, txids: seq<Hash>, match_: seq<bool>, h: nat, pos: nat)
    requires |txids| == |match_| && IsNode(|txids|, h, pos)
  {
    if h == 0 || !ParentOfMatch(match_, h, pos) then true
    else
      Children(|txids|, h, pos);
      && Clean(H, txids, match_, h - 1, 2 * pos)
      && (IsNode(|txids|, h - 1, 2 * pos + 1) ==>
            && Clean(H, txids, match_, h - 1, 2 * pos + 1)
            && CalcHash(H, txids, h - 1, 2 * pos) != CalcHash(H, txids, h - 1, 2 * pos + 1))
  }

  predicate At<T(==)>(whole: seq<T>, k: nat, part: seq<T>) {
    k + |part| <= |whole| && whole[k..k + |part|] == part
  }

  lemma AtSplit<T>(whole: seq<T>, k: nat, a: seq<T>, b: seq<T>)
    requires At(whole, k, a + b)
    ensures At(whole, k, a) && At(whole, k + |a|, b)
  {
    assert whole[k..k + |a|] == (a + b)[..|a|] == a;
    assert whole[k + |a|..k + |a| + |b|] == (a + b)[|a|..] == b;
  }

  /** The matched leaves below a node. */
  function NodeIndexes(match_: seq<bool>, h: nat, pos: nat): (s: seq<nat>)
    requires IsNode(|match_|, h, pos)
    ensures forall k | 0 <= k < |s| :: s[k] < |match_|
  {
    LeafRange(|match_|, h, pos);
    MatchedIndexes(match_, FirstLeaf(h, pos), EndLeaf(|match_|, h, pos))
  }

  /** What extraction makes of the bits and hashes built for a node: it reads exactly those, finds the node's hash
      and matches, and complains exactly when a node it descends into has equal children. */
  ghost function Expected(H: PairHash, txids: seq<Hash>, match_: seq<bool>, h: nat, pos: nat, b: nat, k: nat): Ext
    requires |txids| == |match_| && IsNode(|txids|, h, pos)
  {
    var (bits, hashes) := Build(H, txids, match_, h, pos);
    var idx := NodeIndexes(match_, h, pos);
    Ext(CalcHash(H, txids, h, pos), b + |bits|, k + |hashes|, Select(txids, idx), idx, !Clean(H, txids, match_, h, pos))
  }

  lemma LeafIndexes(match_: seq<bool>, pos: nat)
    requires IsNode(|match_|, 0, pos)
    ensures pos < |match_| && ParentOfMatch(match_, 0, pos) == match_[pos]
    ensures NodeIndexes(match_, 0, pos) == if match_[pos] then [pos] else []
  {
    assert Pow2(0) == 1;
    assert EndLeaf(|match_|, 0, pos) == pos + 1;
    assert MatchedIndexes(match_, pos + 1, pos + 1) == [];
  }

  lemma InnerIndexes(match_: seq<bool>, h: nat, pos: nat)
    requires h > 0 && IsNode(|match_|, h, pos)
    ensures IsNode(|match_|, h - 1, 2 * pos)
    ensures NodeIndexes(match_, h, pos) ==
              if IsNode(|match_|, h - 1, 2 * pos + 1)
              then NodeIndexes(match_, h - 1, 2 * pos) + NodeIndexes(match_, h - 1, 2 * pos + 1)
              else NodeIndexes(match_, h - 1, 2 * pos)
  {
    var n := |match_|;
    Children(n, h, pos);
    LeafRange(n, h - 1, 2 * pos);
    if IsNode(n, h - 1, 2 * pos + 1) {
      LeafRange(n, h - 1, 2 * pos + 1);
      MatchedSplit(match_, FirstLeaf(h, pos), FirstLeaf(h - 1, 2 * pos + 1), EndLeaf(n, h, pos));
    }
  }

  lemma ExtractStop(H: PairHash, txids: seq<Hash>, match_: seq<bool>, bits: seq<bool>, hashes: seq<Hash>, h: nat, pos: nat, b: nat, k: nat)
    requires |txids| == |match_| && IsNode(|txids|, h, pos)
    requires h == 0 || !ParentOfMatch(match_, h, pos)
    requires var (tb, th) := Build(H, txids, match_, h, pos); At(bits, b, tb) && At(hashes, k, th)
    ensures Extract(H, |txids|, bits, hashes, h, pos, b, k) == Expected(H, txids, match_, h, pos, b, k)
  {
    LeafRange(|txids|, h, pos);
    assert bits[b] == bits[b..b + 1][0] && hashes[k] == hashes[k..k + 1][0];
    if h == 0 {
      LeafIndexes(match_, pos);
    } else {
      MatchedNone(match_, FirstLeaf(h, pos), EndLeaf(|txids|, h, pos));
    }
  }

  /** The bits and hashes of the children lie where reading the node goes on. */
  lemma ChildrenAt(H: PairHash, txids: seq<Hash>, match_: seq<bool>, bits: seq<bool>, hashes: seq<Hash>, h: nat, pos: nat, b: nat, k: nat)
    requires |txids| == |match_| && IsNode(|txids|, h, pos) && h > 0 && ParentOfMatch(match_, h, pos)
    requires var (tb, th) := Build(H, txids, match_, h, pos); At(bits, b, tb) && At(hashes, k, th)
    ensures b < |bits| && bits[b] && IsNode(|txids|, h - 1, 2 * pos)
    ensures var (lb, lh) := Build(H, txids, match_, h - 1, 2 * pos);
            && At(bits, b + 1, lb) && At(hashes, k, lh)
            && (IsNode(|txids|, h - 1, 2 * pos + 1) ==>
                  var (rb, rh) := Build(H, txids, match_, h - 1, 2 * pos + 1);
                  At(bits, b + 1 + |lb|, rb) && At(hashes, k + |lh|, rh))
  {
    Children(|txids|, h, pos);
    var (lb, lh) := Build(H, txids, match_, h - 1, 2 * pos);
    if IsNode(|txids|, h - 1, 2 * pos + 1) {
      var (rb, rh) := Build(H, txids, match_, h - 1, 2 * pos + 1);
      AtSplit(bits, b, [true] + lb, rb);
      AtSplit(hashes, k, lh, rh);
    }
    AtSplit(bits, b, [true], lb);
    assert bits[b] == bits[b..b + 1][0];
  }

  lemma ExtractJoinOne(H: PairHash, txids: seq<Hash>, match_: seq<bool>, bits: seq<bool>, hashes: seq<Hash>, h: nat, pos: nat, b: nat, k: nat)
    requires |txids| == |match_| && IsNode(|txids|, h, pos) && h > 0 && ParentOfMatch(match_, h, pos)
    requires b < |bits| && bits[b] && IsNode(|txids|, h - 1, 2 * pos) && !IsNode(|txids|, h - 1, 2 * pos + 1)
    requires Extract(H, |txids|, bits, hashes, h - 1, 2 * pos, b + 1, k) == Expected(H, txids, match_, h - 1, 2 * pos, b + 1, k)
    ensures Extract(H, |txids|, bits, hashes, h, pos, b, k) == Expected(H, txids, match_, h, pos, b, k)
  {
    hide IsNode, NodeIndexes, ParentOfMatch, Select;
    InnerIndexes(match_, h, pos);
  }

  lemma ExtractJoinTwo(H: PairHash, txids: seq<Hash>, match_: seq<bool>, bits: seq<bool>, hashes: seq<Hash>, h: nat, pos: nat, b: nat, k: nat)
    requires |txids| == |match_| && IsNode(|txids|, h, pos) && h > 0 && ParentOfMatch(match_, h, pos)
    requires b < |bits| && bits[b] && IsNode(|txids|, h - 1, 2 * pos) && IsNode(|txids|, h - 1, 2 * pos + 1)
    requires Extract(H, |txids|, bits, hashes, h - 1, 2 * pos, b + 1, k) == Expected(H, txids, match_, h - 1, 2 * pos, b + 1, k)
    requires var l := Expected(H, txids, match_, h - 1, 2 * pos, b + 1, k);
             Extract(H, |txids|, bits, hashes, h - 1, 2 * pos + 1, l.nBitsUsed, l.nHashUsed)
               == Expected(H, txids, match_, h - 1, 2 * pos + 1, l.nBitsUsed, l.nHashUsed)
    ensures Extract(H, |txids|, bits, hashes, h, pos, b, k) == Expected(H, txids, match_, h, pos, b, k)
  {
    hide IsNode, NodeIndexes, ParentOfMatch, Select;
    InnerIndexes(match_, h, pos);
    SelectAppend(txids, NodeIndexes(match_, h - 1, 2 * pos), NodeIndexes(match_, h - 1, 2 * pos + 1));
  }

  lemma {:induction false} ExtractBuild(
    H: PairHash, txids: seq<Hash>, match_: seq<bool>, bits: seq<bool>, hashes: seq<Hash>, h: nat, pos: nat, b: nat, k: nat)
    requires |txids| == |match_| && IsNode(|txids|, h, pos)
    requires var (tb, th) := Build(H, txids, match_, h, pos); At(bits, b, tb) && At(hashes, k, th)
    ensures Extract(H, |txids|, bits, hashes, h, pos, b, k) == Expected(H, txids, match_, h, pos, b, k)
    decreases h
  {
    hide IsNode, Build, At, ParentOfMatch, Extract;
    if h == 0 || !ParentOfMatch(match_, h, pos) {
      ExtractStop(H, txids, match_, bits, hashes, h, pos, b, k);
    } else {
      ChildrenAt(H, txids, match_, bits, hashes, h, pos, b, k);
      ExtractBuild(H, txids, match_, bits, hashes, h - 1, 2 * pos, b + 1, k);
      var l := Expected(H, txids, match_, h - 1, 2 * pos, b + 1, k);
      if IsNode(|txids|, h - 1, 2 * pos + 1) {
        ExtractBuild(H, txids, match_, bits, hashes, h - 1, 2 * pos + 1, l.nBitsUsed, l.nHashUsed);
        ExtractJoinTwo(H, txids, match_, bits, hashes, h, pos, b, k);
      } else {
        ExtractJoinOne(H, txids, match_, bits, hashes, h, pos, b, k);
      }
    }
  }

  /** At most one hash per leaf, and at least one bit per hash. */
  lemma {:induction false} BuildSizes(H: PairHash, txids: seq<Hash>, match_: seq<bool>, h: nat, pos: nat)
    requires |txids| == |match_| && IsNode(|txids|, h, pos)
    ensures var (tb, th) := Build(H, txids, match_, h, pos);
            1 <= |th| <= EndLeaf(|txids|, h, pos) - FirstLeaf(h, pos) && |th| <= |tb|
  {
    LeafRange(|txids|, h, pos);
    if h > 0 && ParentOfMatch(match_, h, pos) {
      Children(|txids|, h, pos);
      BuildSizes(H, txids, match_, h - 1, 2 * pos);
      if IsNode(|txids|, h - 1, 2 * pos + 1) {
        BuildSizes(H, txids, match_, h - 1, 2 * pos + 1);
      }
    }
  }

  // ----- the whole tree

  /** The height at which the width is at most one. */
  function HeightFrom(n: nat, h: nat): (top: nat)
    ensures top >= h && TreeWidth(n, top) <= 1
    decreases TreeWidth(n, h)
  {
    if TreeWidth(n, h) > 1 then
      WidthHalves(n, h + 1);
      HeightFrom(n, h + 1)
    else h
  }

  function TreeHeight(n: nat): nat {
    HeightFrom(n, 0)
  }

  lemma RootNode(n: nat)
    requires n > 0
    ensures IsNode(n, TreeHeight(n), 0)
    ensures FirstLeaf(TreeHeight(n), 0) == 0 && EndLeaf(n, TreeHeight(n), 0) == n
  {
    var h := TreeHeight(n);
    FirstLeafShift(h, 0);
    InTree(n, h, 0);
    InTree(n, h, 1);
  }

  function MerkleRoot(H: PairHash, txids: seq<Hash>): Hash
    requires txids != []
  {
    RootNode(|txids|);
    CalcHash(H, txids, TreeHeight(|txids|), 0)
  }

  datatype Tree = Tree(nTransactions: nat, vBits: seq<bool>, vHash: seq<Hash>)

  function BuildTree(H: PairHash, txids: seq<Hash>, match_: seq<bool>): Tree
    requires txids != [] && |txids| == |match_|
  {
    RootNode(|txids|);
    var (tb, th) := Build(H, txids, match_, TreeHeight(|txids|), 0);
    Tree(|txids|, tb, th)
  }

  datatype Extraction = Rejected | Accepted(root: Hash, vMatch: seq<Hash>, vnIndex: seq<nat>)

  /** ExtractMatches: the guards before and after the traversal. */
  function ExtractMatches(H: PairHash, t: Tree): Extraction {
    if t.nTransactions == 0 then Rejected
    else if t.nTransactions > MAX_BLOCK_WEIGHT / MIN_TRANSACTION_WEIGHT then Rejected
    else if |t.vHash| > t.nTransactions then Rejected
    else if |t.vBits| < |t.vHash| then Rejected
    else
      var e := Extract(H, t.nTransactions, t.vBits, t.vHash, TreeHeight(t.nTransactions), 0, 0, 0);
      if e.fBad then Rejected
      else if (e.nBitsUsed + 7) / 8 != (|t.vBits| + 7) / 8 then Rejected
      else if e.nHashUsed != |t.vHash| then Rejected
      else Accepted(e.hash, e.vMatch, e.vnIndex)
  }

  /** Bits that come back from a byte vector: the same, then zeros up to a whole number of bytes. */
  predicate PaddedTo(bits: seq<bool>, padded: seq<bool>) {
    && |padded| == (|bits| + 7) / 8 * 8 && padded[..|bits|] == bits
    && forall i | |bits| <= i < |padded| :: !padded[i]
  }

  ghost predicate TreeClean(H: PairHash, txids: seq<Hash>, match_: seq<bool>)
    requires txids != [] && |txids| == |match_|
  {
    RootNode(|txids|);
    Clean(H, txids, match_, TreeHeight(|txids|), 0)
  }

  lemma BuiltSizes(H: PairHash, txids: seq<Hash>, match_: seq<bool>, bits: seq<bool>)
    requires txids != [] && |txids| == |match_|
    requires var t := BuildTree(H, txids, match_); bits == t.vBits || PaddedTo(t.vBits, bits)
    ensures var t := BuildTree(H, txids, match_);
            |t.vHash| <= |txids| && |t.vHash| <= |bits| && (|t.vBits| + 7) / 8 == (|bits| + 7) / 8
  {
    RootNode(|txids|);
    BuildSizes(H, txids, match_, TreeHeight(|txids|), 0);
  }

  lemma RoundTripTop(H: PairHash, txids: seq<Hash>, match_: seq<bool>, bits: seq<bool>)
    requires txids != [] && |txids| == |match_|
    requires var t := BuildTree(H, txids, match_); bits == t.vBits || PaddedTo(t.vBits, bits)
    ensures var t := BuildTree(H, txids, match_);
            var idx := MatchedIndexes(match_, 0, |txids|);
            Extract(H, |txids|, bits, t.vHash, TreeHeight(|txids|), 0, 0, 0)
              == Ext(MerkleRoot(H, txids), |t.vBits|, |t.vHash|, Select(txids, idx), idx, !TreeClean(H, txids, match_))
  {
    hide Build, Extract, CalcHash, Clean, IsNode, MatchedIndexes, Select, TreeHeight, EndLeaf, FirstLeaf;
    var t := BuildTree(H, txids, match_);
    RootNode(|txids|);
    assert At(bits, 0, t.vBits) && At(t.vHash, 0, t.vHash);
    ExtractBuild(H, txids, match_, bits, t.vHash, TreeHeight(|txids|), 0, 0, 0);
  }

  /** A built tree, straight or after its bits went through bytes, is accepted exactly when no node descended into
      has equal children, and then gives the true root and exactly the matched txids with their indices in order. */
  lemma RoundTrip(H: PairHash, txids: seq<Hash>, match_: seq<bool>, bits: seq<bool>)
    requires txids != [] && |txids| == |match_| && |txids| <= MAX_BLOCK_WEIGHT / MIN_TRANSACTION_WEIGHT
    requires var t := BuildTree(H, txids, match_); bits == t.vBits || PaddedTo(t.vBits, bits)
    ensures ExtractMatches(H, BuildTree(H, txids, match_).(vBits := bits)) ==
              if TreeClean(H, txids, match_)
              then var idx := MatchedIndexes(match_, 0, |txids|); Accepted(MerkleRoot(H, txids), Select(txids, idx), idx)
              else Rejected
  {
    hide Build, Extract, CalcHash, Clean, IsNode, MatchedIndexes, Select, TreeHeight, EndLeaf, FirstLeaf, PaddedTo;
    RoundTripTop(H, txids, match_, bits);
    BuiltSizes(H, txids, match_, bits);
  }

  lemma TreeOfTwo()
    ensures TreeHeight(2) == 1 && IsNode(2, 1, 0) && IsNode(2, 0, 0) && IsNode(2, 0, 1)
    ensures FirstLeaf(1, 0) == 0 && EndLeaf(2, 1, 0) == 2
  {
    assert Pow2(0) == 1 && Pow2(1) == 2;
    assert TreeWidth(2, 0) == 2 && TreeWidth(2, 1) == 1;
    RootNode(2);
  }

  /** Two equal transaction ids, the first matched: the tree built from them is refused, whatever the hash. */
  lemma RefusedExample(H: PairHash, id: Hash)
    ensures ExtractMatches(H, BuildTree(H, [id, id], [true, false])) == Rejected
  {
    var txids, match_ := [id, id], [true, false];
    var t := BuildTree(H, txids, match_);
    TreeOfTwo();
    assert !TreeClean(H, txids, match_) by {
      hide TreeHeight, IsNode, FirstLeaf, EndLeaf;
      assert match_[0];
      assert AnyMatch(match_, 0, 2);
      assert CalcHash(H, txids, 0, 0) == id == CalcHash(H, txids, 0, 1);
    }
    hide TreeClean, BuildTree, ExtractMatches;
    RoundTrip(H, txids, match_, t.vBits);
    assert t == t.(vBits := t.vBits);
  }

  /** The indices come out strictly increasing, and are exactly the matched ones. */
  lemma {:induction false} MatchedExact(match_: seq<bool>, lo: nat, hi: nat)
    requires lo <= hi <= |match_|
    ensures var s := MatchedIndexes(match_, lo, hi);
            && (forall i, j | 0 <= i < j < |s| :: s[i] < s[j])
            && (forall x :: x in s <==> lo <= x < hi && match_[x])
    decreases hi - lo
  {
    if lo < hi {
      MatchedExact(match_, lo + 1, hi);
    }
  }

  // ----- soundness against the true root

  ghost predicate Injective(H: PairHash) {
    forall a, b, c, d :: H(a, b) == H(c, d) ==> a == c && b == d
  }

  /** Every reported txid is the transaction at the reported index. */
  ghost predicate Genuine(txids: seq<Hash>, vMatch: seq<Hash>, vnIndex: seq<nat>) {
    && |vMatch| == |vnIndex|
    && forall i | 0 <= i < |vMatch| :: vnIndex[i] < |txids| && vMatch[i] == txids[vnIndex[i]]
  }

  lemma GenuineAppend(txids: seq<Hash>, m: seq<Hash>, i: seq<nat>, m': seq<Hash>, i': seq<nat>)
    requires Genuine(txids, m, i) && Genuine(txids, m', i')
    ensures Genuine(txids, m + m', i + i')
  {}

  lemma StopSound(H: PairHash, txids: seq<Hash>, bits: seq<bool>, hashes: seq<Hash>, h: nat, pos: nat, b: nat, k: nat)
    requires IsNode(|txids|, h, pos) && (b >= |bits| || h == 0 || !bits[b])
    requires Extract(H, |txids|, bits, hashes, h, pos, b, k).hash == CalcHash(H, txids, h, pos)
    ensures var e := Extract(H, |txids|, bits, hashes, h, pos, b, k); Genuine(txids, e.vMatch, e.vnIndex)
  {
    if h == 0 {
      assert TreeWidth(|txids|, 0) == |txids|;
    }
  }

  /** Somewhere in the traversal the hashes of the two children are not the true ones and yet combine to the true
      hash of their parent. */
  ghost predicate Forged(
    H: PairHash, txids: seq<Hash>, bits: seq<bool>, hashes: seq<Hash>, h: nat, pos: nat, b: nat, k: nat)
    requires IsNode(|txids|, h, pos)
    decreases h
  {
    if b >= |bits| || h == 0 || !bits[b] then false
    else
      Children(|txids|, h, pos);
      var n, c := |txids|, CalcHash(H, txids, h - 1, 2 * pos);
      var l := Extract(H, n, bits, hashes, h - 1, 2 * pos, b + 1, k);
      || Forged(H, txids, bits, hashes, h - 1, 2 * pos, b + 1, k)
      || if IsNode(n, h - 1, 2 * pos + 1) then
           var r := Extract(H, n, bits, hashes, h - 1, 2 * pos + 1, l.nBitsUsed, l.nHashUsed);
           || Collide(H, l.hash, r.hash, c, CalcHash(H, txids, h - 1, 2 * pos + 1))
           || Forged(H, txids, bits, hashes, h - 1, 2 * pos + 1, l.nBitsUsed, l.nHashUsed)
         else Collide(H, l.hash, l.hash, c, c)
  }

  /** Two different pairs with the same hash. */
  ghost predicate Collide(H: PairHash, a: Hash, b: Hash, c: Hash, d: Hash) {
    H(a, b) == H(c, d) && (a, b) != (c, d)
  }

  lemma {:induction false} ForgedCollides(
    H: PairHash, txids: seq<Hash>, bits: seq<bool>, hashes: seq<Hash>, h: nat, pos: nat, b: nat, k: nat)
    requires IsNode(|txids|, h, pos) && Forged(H, txids, bits, hashes, h, pos, b, k)
    ensures !Injective(H)
    decreases h
  {
    hide IsNode, Extract, CalcHash;
    Children(|txids|, h, pos);
    var l := Extract(H, |txids|, bits, hashes, h - 1, 2 * pos, b + 1, k);
    if Forged(H, txids, bits, hashes, h - 1, 2 * pos, b + 1, k) {
      ForgedCollides(H, txids, bits, hashes, h - 1, 2 * pos, b + 1, k);
    } else if IsNode(|txids|, h - 1, 2 * pos + 1)
              && Forged(H, txids, bits, hashes, h - 1, 2 * pos + 1, l.nBitsUsed, l.nHashUsed) {
      ForgedCollides(H, txids, bits, hashes, h - 1, 2 * pos + 1, l.nBitsUsed, l.nHashUsed);
    }
  }

  /** Whatever the bits and hashes are: a subtree whose computed hash is the true one yields true txids only, or holds
      a forged pair. */
  lemma {:induction false} ExtractSound(
    H: PairHash, txids: seq<Hash>, bits: seq<bool>, hashes: seq<Hash>, h: nat, pos: nat, b: nat, k: nat)
    requires IsNode(|txids|, h, pos)
    requires Extract(H, |txids|, bits, hashes, h, pos, b, k).hash == CalcHash(H, txids, h, pos)
    ensures var e := Extract(H, |txids|, bits, hashes, h, pos, b, k);
            Genuine(txids, e.vMatch, e.vnIndex) || Forged(H, txids, bits, hashes, h, pos, b, k)
    decreases h
  {
    hide IsNode, Genuine;
    var n := |txids|;
    if b >= |bits| || h == 0 || !bits[b] {
      StopSound(H, txids, bits, hashes, h, pos, b, k);
    } else if !Forged(H, txids, bits, hashes, h, pos, b, k) {
      Children(n, h, pos);
      var l := Extract(H, n, bits, hashes, h - 1, 2 * pos, b + 1, k);
      ExtractSound(H, txids, bits, hashes, h - 1, 2 * pos, b + 1, k);
      if IsNode(n, h - 1, 2 * pos + 1) {
        var r := Extract(H, n, bits, hashes, h - 1, 2 * pos + 1, l.nBitsUsed, l.nHashUsed);
        ExtractSound(H, txids, bits, hashes, h - 1, 2 * pos + 1, l.nBitsUsed, l.nHashUsed);
        GenuineAppend(txids, l.vMatch, l.vnIndex, r.vMatch, r.vnIndex);
      }
    }
  }

  /** For every pair hash, any accepted tree over the true number of transactions that has the true root yields only
      transactions of the block, each at its own index, or holds a pair that is not the true one of its node and has
      the same hash. With an injective pair hash the second is impossible. */
  lemma AcceptedIsGenuine(H: PairHash, txids: seq<Hash>, t: Tree)
    requires txids != [] && t.nTransactions == |txids|
    requires ExtractMatches(H, t).Accepted? && ExtractMatches(H, t).root == MerkleRoot(H, txids)
    ensures IsNode(|txids|, TreeHeight(|txids|), 0)
    ensures var forged := Forged(H, txids, t.vBits, t.vHash, TreeHeight(|txids|), 0, 0, 0);
            && (Genuine(txids, ExtractMatches(H, t).vMatch, ExtractMatches(H, t).vnIndex) || forged)
            && (Injective(H) ==> !forged)
  {
    hide Genuine, Forged, Injective;
    RootNode(|txids|);
    var height := TreeHeight(|txids|);
    ExtractSound(H, txids, t.vBits, t.vHash, height, 0, 0, 0);
    if Forged(H, txids, t.vBits, t.vHash, height, 0, 0, 0) {
      ForgedCollides(H, txids, t.vBits, t.vHash, height, 0, 0, 0);
    }
  }
}
