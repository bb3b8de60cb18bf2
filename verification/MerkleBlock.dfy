/** CPartialMerkleTree as an object that is filled and read step by step, and the packing of its bits into bytes. */
module MerkleBlock {
  import opened Common
  import opened Bits
  import opened PartialMerkle

  // ----- bits in bytes, least significant first

  /** The bytes hold the first `p` bits and are zero beyond. */
  ghost predicate Packed(vBytes: seq<bv8>, vBits: seq<bool>, p: nat) {
    && |vBytes| == (|vBits| + 7) / 8
    && forall q | 0 <= q < 8 * |vBytes| :: BitAt(vBytes[q / 8], q % 8) == (q < p && q < |vBits| && vBits[q])
  }

  method PackBits(vBits: seq<bool>) returns (vBytes: seq<bv8>)
    ensures Packed(vBytes, vBits, |vBits|)
  {
    vBytes := seq((|vBits| + 7) / 8, _ => 0);
    PackedNone(vBits);
    hide Packed;
    var p := 0;
    while p < |vBits|
      invariant 0 <= p <= |vBits| && Packed(vBytes, vBits, p) && |vBytes| == (|vBits| + 7) / 8
    {
      PackedNext(vBytes, vBits, p);
      if vBits[p] {
        vBytes := vBytes[p / 8 := vBytes[p / 8] | Mask(p % 8)];
      }
      p := p + 1;
    }
  }

  lemma PackedNone(vBits: seq<bool>)
    ensures Packed(seq((|vBits| + 7) / 8, _ => 0), vBits, 0)
  {}

  lemma SamePlace(p: nat, q: nat)
    ensures q / 8 == p / 8 && q % 8 == p % 8 <==> q == p
  {}

  /** One bit set in one byte changes that bit only. */
  lemma BitSetIn(bytes: seq<bv8>, c: nat, k: nat, set_: bool, i: nat, j: nat)
    requires c < |bytes| && i < |bytes| && k < 8 && j < 8
    ensures var out := if set_ then bytes[c := bytes[c] | Mask(k)] else bytes;
            BitAt(out[i], j) == (BitAt(bytes[i], j) || (set_ && i == c && j == k))
  {
    hide BitAt, Mask;
    BitUpdate(bytes[c], k, j);
  }

  lemma PackedNext(vBytes: seq<bv8>, vBits: seq<bool>, p: nat)
    requires Packed(vBytes, vBits, p) && p < |vBits|
    ensures Packed(if vBits[p] then vBytes[p / 8 := vBytes[p / 8] | Mask(p % 8)] else vBytes, vBits, p + 1)
  {
    hide BitAt, Mask;
    var out := if vBits[p] then vBytes[p / 8 := vBytes[p / 8] | Mask(p % 8)] else vBytes;
    forall q | 0 <= q < 8 * |vBytes| ensures BitAt(out[q / 8], q % 8) == (q < p + 1 && q < |vBits| && vBits[q]) {
      SamePlace(p, q);
      BitSetIn(vBytes, p / 8, p % 8, vBits[p], q / 8, q % 8);
    }
  }

  method UnpackBits(vBytes: seq<bv8>) returns (vBits: seq<bool>)
    ensures |vBits| == 8 * |vBytes| && forall p | 0 <= p < |vBits| :: vBits[p] == BitAt(vBytes[p / 8], p % 8)
  {
    vBits := [];
    var p := 0;
    while p < 8 * |vBytes|
      invariant 0 <= p <= 8 * |vBytes| && |vBits| == p
      invariant forall q | 0 <= q < p :: vBits[q] == BitAt(vBytes[q / 8], q % 8)
    {
      vBits := vBits + [vBytes[p / 8] & Mask(p % 8) != 0];
      p := p + 1;
    }
  }

  /** Writing the bits to bytes and reading them back only pads them with zeros. */
  method RepackBits(vBits: seq<bool>) returns (read: seq<bool>)
    ensures PaddedTo(vBits, read)
  {
    var vBytes := PackBits(vBits);
    read := UnpackBits(vBytes);
  }

  class PartialMerkleTree {
    const H: PairHash
    var nTransactions: nat
    var vBits: seq<bool>
    var vHash: seq<Hash>
    var fBad: bool

    ghost function Abs(): Tree
      reads this
    {
      Tree(nTransactions, vBits, vHash)
    }

    method IsParentOfMatch(height: nat, pos: nat, vMatch: seq<bool>) returns (fParentOfMatch: bool)
      requires nTransactions == |vMatch|
      ensures fParentOfMatch == ParentOfMatch(vMatch, height, pos)
    {
      fParentOfMatch := false;
      FirstLeafShift(height, pos);
      FirstLeafShift(height, pos + 1);
      var lo, hi := pos * Pow2(height), (pos + 1) * Pow2(height);
      var p := lo;
      while p < hi && p < nTransactions
        invariant lo <= p && (p <= hi || p == lo)
        invariant fParentOfMatch <==> exists q :: lo <= q < p && q < |vMatch| && vMatch[q]
      {
        fParentOfMatch := fParentOfMatch || vMatch[p];
        p := p + 1;
      }
    }

    method TraverseAndBuild(height: nat, pos: nat, vTxid: seq<Hash>, vMatch: seq<bool>)
      requires nTransactions == |vTxid| == |vMatch| && IsNode(nTransactions, height, pos)
      modifies this
      ensures nTransactions == old(nTransactions) && fBad == old(fBad)
      ensures vBits == old(vBits) + Build(H, vTxid, vMatch, height, pos).0
      ensures vHash == old(vHash) + Build(H, vTxid, vMatch, height, pos).1
      decreases height
    {
      hide IsNode, ParentOfMatch, CalcHash;
      BuildUnfold(H, vTxid, vMatch, height, pos);
      hide Build;
      var fParentOfMatch := IsParentOfMatch(height, pos, vMatch);
      vBits := vBits + [fParentOfMatch];
      if height == 0 || !fParentOfMatch {
        vHash := vHash + [CalcHash(H, vTxid, height, pos)];
      } else {
        TraverseAndBuild(height - 1, pos * 2, vTxid, vMatch);
        if IsNode(nTransactions, height - 1, pos * 2 + 1) {
          TraverseAndBuild(height - 1, pos * 2 + 1, vTxid, vMatch);
        }
      }
    }

    method CalcHeight() returns (nHeight: nat)
      ensures nHeight == TreeHeight(nTransactions)
    {
      nHeight := 0;
      while TreeWidth(nTransactions, nHeight) > 1
        invariant HeightFrom(nTransactions, nHeight) == TreeHeight(nTransactions)
        decreases TreeWidth(nTransactions, nHeight)
      {
        WidthHalves(nTransactions, nHeight + 1);
        nHeight := nHeight + 1;
      }
    }

    constructor (H: PairHash, vTxid: seq<Hash>, vMatch: seq<bool>)
      requires vTxid != [] && |vTxid| == |vMatch|
      ensures this.H == H && !fBad && Abs() == BuildTree(H, vTxid, vMatch)
    {
      this.H := H;
      nTransactions, vBits, vHash, fBad := |vTxid|, [], [], false;
      new;
      var nHeight := CalcHeight();
      RootNode(nTransactions);
      TraverseAndBuild(nHeight, 0, vTxid, vMatch);
    }

    method TraverseAndExtract(height: nat, pos: nat, nBitsUsed0: nat, nHashUsed0: nat, vMatch0: seq<Hash>, vnIndex0: seq<nat>)
      returns (hash: Hash, nBitsUsed: nat, nHashUsed: nat, vMatch: seq<Hash>, vnIndex: seq<nat>)
      modifies this`fBad
      ensures var e := Extract(H, nTransactions, vBits, vHash, height, pos, nBitsUsed0, nHashUsed0);
              && hash == e.hash && nBitsUsed == e.nBitsUsed && nHashUsed == e.nHashUsed
              && vMatch == vMatch0 + e.vMatch && vnIndex == vnIndex0 + e.vnIndex && fBad == (old(fBad) || e.fBad)
      decreases height
    {
      hide IsNode, Extract;
      ExtractUnfold(H, nTransactions, vBits, vHash, height, pos, nBitsUsed0, nHashUsed0);
      nBitsUsed, nHashUsed, vMatch, vnIndex := nBitsUsed0, nHashUsed0, vMatch0, vnIndex0;
      if nBitsUsed >= |vBits| {
        fBad := true;
        hash := 0;
        return;
      }
      var fParentOfMatch := vBits[nBitsUsed];
      nBitsUsed := nBitsUsed + 1;
      if height == 0 || !fParentOfMatch {
        if nHashUsed >= |vHash| {
          fBad := true;
          hash := 0;
          return;
        }
        hash := vHash[nHashUsed];
        nHashUsed := nHashUsed + 1;
        if height == 0 && fParentOfMatch {
          vMatch := vMatch + [hash];
          vnIndex := vnIndex + [pos];
        }
      } else {
        var left, right;
        left, nBitsUsed, nHashUsed, vMatch, vnIndex :=
          TraverseAndExtract(height - 1, pos * 2, nBitsUsed, nHashUsed, vMatch, vnIndex);
        if IsNode(nTransactions, height - 1, pos * 2 + 1) {
          right, nBitsUsed, nHashUsed, vMatch, vnIndex :=
            TraverseAndExtract(height - 1, pos * 2 + 1, nBitsUsed, nHashUsed, vMatch, vnIndex);
          if right == left {
            fBad := true;
          }
        } else {
          right := left;
        }
        hash := H(left, right);
      }
    }

    /** The root, or 0 when the tree is refused or was bad before. The matched hashes replace the caller's; their
        positions are added after the caller's. */
    method ExtractMatches(vnIndex0: seq<nat>) returns (root: Hash, vMatch: seq<Hash>, vnIndex: seq<nat>)
      modifies this`fBad
      ensures var e := PartialMerkle.ExtractMatches(H, old(Abs()));
              if e.Accepted? && !old(fBad)
              then root == e.root && vMatch == e.vMatch && vnIndex == vnIndex0 + e.vnIndex && !fBad
              else root == 0
    {
      vMatch, vnIndex := [], vnIndex0;
      if nTransactions == 0 {
        return 0, vMatch, vnIndex;
      }
      if nTransactions > MAX_BLOCK_WEIGHT / MIN_TRANSACTION_WEIGHT {
        return 0, vMatch, vnIndex;
      }
      if |vHash| > nTransactions {
        return 0, vMatch, vnIndex;
      }
      if |vBits| < |vHash| {
        return 0, vMatch, vnIndex;
      }
      var nHeight := CalcHeight();
      var nBitsUsed, nHashUsed;
      root, nBitsUsed, nHashUsed, vMatch, vnIndex := TraverseAndExtract(nHeight, 0, 0, 0, vMatch, vnIndex);
      if fBad {
        return 0, vMatch, vnIndex;
      }
      if (nBitsUsed + 7) / 8 != (|vBits| + 7) / 8 {
        return 0, vMatch, vnIndex;
      }
      if nHashUsed != |vHash| {
        return 0, vMatch, vnIndex;
      }
    }
  }

  lemma BuildUnfold(H: PairHash, txids: seq<Hash>, match_: seq<bool>, h: nat, pos: nat)
    requires |txids| == |match_| && IsNode(|txids|, h, pos)
    ensures h > 0 ==> IsNode(|txids|, h - 1, 2 * pos)
    ensures Build(H, txids, match_, h, pos) ==
              if h == 0 || !ParentOfMatch(match_, h, pos) then ([ParentOfMatch(match_, h, pos)], [CalcHash(H, txids, h, pos)])
              else
                var l := Build(H, txids, match_, h - 1, 2 * pos);
                if IsNode(|txids|, h - 1, 2 * pos + 1)
                then var r := Build(H, txids, match_, h - 1, 2 * pos + 1); ([true] + l.0 + r.0, l.1 + r.1)
                else ([true] + l.0, l.1)
  {
    if h > 0 {
      Children(|txids|, h, pos);
    }
  }

  lemma ExtractUnfold(H: PairHash, n: nat, bits: seq<bool>, hashes: seq<Hash>, h: nat, pos: nat, b: nat, k: nat)
    ensures var e := Extract(H, n, bits, hashes, h, pos, b, k);
            if b >= |bits| then e == Ext(0, b, k, [], [], true)
            else if h == 0 || !bits[b] then
              e == if k >= |hashes| then Ext(0, b + 1, k, [], [], true)
                   else if h == 0 && bits[b] then Ext(hashes[k], b + 1, k + 1, [hashes[k]], [pos], false)
                   else Ext(hashes[k], b + 1, k + 1, [], [], false)
            else
              var l := Extract(H, n, bits, hashes, h - 1, 2 * pos, b + 1, k);
              if IsNode(n, h - 1, 2 * pos + 1) then
                var r := Extract(H, n, bits, hashes, h - 1, 2 * pos + 1, l.nBitsUsed, l.nHashUsed);
                e == Ext(H(l.hash, r.hash), r.nBitsUsed, r.nHashUsed, l.vMatch + r.vMatch, l.vnIndex + r.vnIndex,
                         l.fBad || r.fBad || r.hash == l.hash)
              else e == Ext(H(l.hash, l.hash), l.nBitsUsed, l.nHashUsed, l.vMatch, l.vnIndex, l.fBad)
  {}
}
