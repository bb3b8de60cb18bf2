/** The block index tree with its skip pointers, and the active chain over it. */
module Chain {
  import opened Common
  import opened Division
  import opened SkipHeights

  // ----- the tree of blocks

  class BlockIndex {
    const nHeight: nat
    const pprev: BlockIndex?
    var pskip: BlockIndex?
    /** The blocks from genesis to this one. */
    ghost const path: seq<BlockIndex>

    /** The path is the walk over pprev, heights count along it, and every skip pointer that is set leads to the
        block at its skip height. */
    ghost predicate Valid()
      reads path
    {
      && |path| == nHeight + 1 && path[nHeight] == this
      && forall i | 0 <= i <= nHeight :: NodeAt(i)
    }

    ghost predicate NodeAt(i: int)
      requires 0 <= i < |path|
      reads path
    {
      && path[i].nHeight == i && path[i].path == path[..i + 1]
      && path[i].pprev == (if i == 0 then null else path[i - 1])
      && (path[i].pskip != null ==> i > 0 && path[i].pskip == path[GetSkipHeight(i)])
    }

    /** A block without skip pointer yet, on top of its predecessor. */
    constructor (pprev: BlockIndex?)
      requires pprev != null ==> pprev.Valid()
      ensures Valid() && this.pprev == pprev && pskip == null
      ensures nHeight == (if pprev == null then 0 else pprev.nHeight + 1)
      ensures path == (if pprev == null then [] else pprev.path) + [this]
    {
      this.pprev, pskip := pprev, null;
      nHeight := if pprev == null then 0 else pprev.nHeight + 1;
      path := (if pprev == null then [] else pprev.path) + [this];
      new;
      forall i | 0 <= i <= nHeight ensures NodeAt(i) {
        if i < nHeight {
          assert pprev.NodeAt(i);
          assert path[..i + 1] == pprev.path[..i + 1];
        }
      }
    }

    lemma AncestorValid(i: nat)
      requires Valid() && i <= nHeight
      ensures path[i].Valid() && path[i].nHeight == i && path[i].path == path[..i + 1]
    {
      assert NodeAt(i);
      forall j | 0 <= j <= i ensures path[i].NodeAt(j) {
        assert NodeAt(j);
        assert path[..i + 1][..j + 1] == path[..j + 1];
      }
    }

    lemma Link(i: nat)
      requires Valid() && i <= nHeight
      ensures path[i].nHeight == i && path[i].pprev == (if i == 0 then null else path[i - 1])
    {
      assert NodeAt(i);
    }

    lemma AncestorPath(i: nat, j: nat)
      requires Valid() && j <= i <= nHeight
      ensures path[i].Valid() && path[i].nHeight == i && path[j].nHeight == j
      ensures path[i].path[j] == path[j]
    {
      AncestorValid(i);
      AncestorValid(j);
    }

    /** Every block of the path above genesis has its skip pointer. */
    ghost predicate Built()
      reads path
    {
      Valid() && forall i | 0 < i <= nHeight :: path[i].pskip != null
    }

    /** Whichever mix of skip and parent steps it takes, the walk ends at the ancestor the parent walk reaches; `steps`
        counts them. */
    method GetAncestor(height: int) returns (r: BlockIndex?, ghost steps: nat)
      requires Valid()
      ensures height > nHeight || height < 0 ==> r == null && steps == 0
      ensures 0 <= height <= nHeight ==> r == path[height] && steps <= nHeight - height
      ensures 0 <= height <= nHeight && Built() ==> steps == Steps(nHeight, height)
      ensures nHeight <= 262144 && Built() ==> steps <= 110
    {
      steps := 0;
      if height > nHeight || height < 0 {
        return null, 0;
      }
      var pindexWalk: BlockIndex, heightWalk := this, nHeight;
      while heightWalk > height
        invariant height <= heightWalk <= nHeight && pindexWalk == path[heightWalk]
        invariant steps <= nHeight - heightWalk
        invariant Built() ==> steps + Steps(heightWalk, height) == Steps(nHeight, height)
        decreases heightWalk
      {
        steps := steps + 1;
        assert NodeAt(heightWalk);
        var heightSkip := GetSkipHeight(heightWalk);
        var heightSkipPrev := GetSkipHeight(heightWalk - 1);
        if pindexWalk.pskip != null &&
           (heightSkip == height ||
            (heightSkip > height && !(heightSkipPrev < heightSkip - 2 && heightSkipPrev >= height))) {
          pindexWalk := pindexWalk.pskip;
          heightWalk := heightSkip;
        } else {
          pindexWalk := pindexWalk.pprev;
          heightWalk := heightWalk - 1;
        }
      }
      r := pindexWalk;
      if nHeight <= 262144 {
        AtMost110(nHeight, height);
      }
    }

    /** Set the skip pointer of a block whose ancestors have theirs. */
    method BuildSkip()
      requires Valid()
      modifies this`pskip
      ensures Valid()
      ensures pskip == if nHeight == 0 then old(pskip) else path[GetSkipHeight(nHeight)]
      ensures pprev == null || old(pprev.Built()) ==> Built()
      ensures forall b: BlockIndex | old(allocated(b)) && old(b.Valid()) :: b.Valid()
    {
      assert NodeAt(nHeight);
      if pprev != null {
        AncestorValid(nHeight - 1);
        ghost var steps;
        pskip, steps := pprev.GetAncestor(GetSkipHeight(nHeight));
      }
      forall b: BlockIndex | old(allocated(b)) && old(b.Valid()) ensures b.Valid() {
        forall i | 0 <= i <= b.nHeight ensures b.NodeAt(i) {
          assert old(b.NodeAt(i));
          if b.path[i] == this {
            assert b.path[..i + 1][GetSkipHeight(i)] == b.path[GetSkipHeight(i)];
          }
        }
      }
      if pprev != null && old(pprev.Built()) {
        forall i | 0 < i <= nHeight ensures path[i].pskip != null {
          assert NodeAt(i);
          if i < nHeight {
            assert path[i] == pprev.path[i] && old(path[i].pskip) != null;
          }
        }
      }
    }
  }

  /** The height of the highest block two paths share, -1 if they share none. */
  ghost function ForkHeight(a: seq<BlockIndex>, b: seq<BlockIndex>): (h: int)
    ensures -1 <= h < |a| && h < |b|
    ensures h >= 0 ==> a[h] == b[h]
    ensures forall i | h < i < |a| && i < |b| :: a[i] != b[i]
  {
    ForkBelow(a, b, |a|)
  }

  ghost function ForkBelow(a: seq<BlockIndex>, b: seq<BlockIndex>, n: nat): (h: int)
    requires n <= |a|
    ensures -1 <= h < n && h < |b|
    ensures h >= 0 ==> a[h] == b[h]
    ensures forall i | h < i < n && i < |b| :: a[i] != b[i]
  {
    if n == 0 then -1
    else if n - 1 < |b| && a[n - 1] == b[n - 1] then n - 1
    else ForkBelow(a, b, n - 1)
  }

  /** Two valid blocks share every block below one they share. */
  lemma SharedBelow(a: BlockIndex, b: BlockIndex, h: nat)
    requires a.Valid() && b.Valid() && h <= a.nHeight && h <= b.nHeight && a.path[h] == b.path[h]
    ensures a.path[..h + 1] == b.path[..h + 1]
  {
    assert a.NodeAt(h) && b.NodeAt(h);
  }

  lemma SharedPrefix(a: BlockIndex, b: BlockIndex, h: nat)
    requires a.Valid() && b.Valid() && h <= a.nHeight && h <= b.nHeight && a.path[h] == b.path[h]
    ensures forall i | 0 <= i <= h :: a.path[i] == b.path[i]
  {
    SharedBelow(a, b, h);
    forall i | 0 <= i <= h ensures a.path[i] == b.path[i] {
      assert a.path[..h + 1][i] == b.path[..h + 1][i];
    }
  }

  // ----- the active chain

  class ActiveChain {
    var vChain: seq<BlockIndex?>

    /** The chain is the path of its tip. */
    ghost predicate Valid()
      reads this, set b: BlockIndex | b in vChain, set b: BlockIndex, c: BlockIndex | b in vChain && c in b.path :: c
    {
      vChain == [] || IsPathOf(vChain[|vChain| - 1])
    }

    ghost predicate IsPathOf(tip: BlockIndex?)
      reads this, if tip == null then {} else (set c | c in tip.path)
    {
      tip != null && tip.Valid() && vChain == tip.path
    }

    method SetTip(pindex0: BlockIndex?)
      requires Valid() && (pindex0 != null ==> pindex0.Valid())
      modifies this
      ensures Valid()
      ensures pindex0 == null ==> vChain == []
      ensures pindex0 != null ==> vChain == pindex0.path
    {
      hide GetSkipHeight, BlockIndex.NodeAt;
      if pindex0 == null {
        vChain := [];
        return;
      }
      ghost var before := vChain;
      var n := pindex0.nHeight + 1;
      vChain := if n <= |vChain| then vChain[..n] else vChain + seq(n - |vChain|, _ => null);
      var pindex: BlockIndex? := pindex0;
      ghost var h := pindex0.nHeight;
      while pindex != null && vChain[pindex.nHeight] != pindex
        invariant -1 <= h <= pindex0.nHeight && |vChain| == n
        invariant if h == -1 then pindex == null else pindex == pindex0.path[h] && pindex.nHeight == h
        invariant forall i | h < i < n :: vChain[i] == pindex0.path[i]
        invariant forall i | 0 <= i <= h :: vChain[i] == (if i < |before| then before[i] else null)
        decreases h
      {
        pindex0.Link(h);
        vChain := vChain[pindex.nHeight := pindex];
        pindex := pindex.pprev;
        h := h - 1;
        if h >= 0 {
          pindex0.Link(h);
        }
      }
      if h >= 0 {
        pindex0.Link(h);
        assert vChain[h] == before[h] == pindex;
        SharedPrefix(before[|before| - 1], pindex0, h);
      }
      assert vChain == pindex0.path;
    }

    method Contains(pindex: BlockIndex) returns (r: bool)
      ensures r == (pindex.nHeight < |vChain| && vChain[pindex.nHeight] == pindex)
    {
      r := pindex.nHeight < |vChain| && vChain[pindex.nHeight] == pindex;
    }

    /** The highest block of the chain that is an ancestor of `pindex0` or that block itself. */
    method FindFork(pindex0: BlockIndex?) returns (fork: BlockIndex?)
      requires Valid() && (pindex0 != null ==> pindex0.Valid())
      ensures pindex0 == null ==> fork == null
      ensures pindex0 != null && vChain != [] ==>
                var h := ForkHeight(pindex0.path, vChain[|vChain| - 1].path);
                fork == if h < 0 then null else pindex0.path[h]
      ensures vChain == [] ==> fork == null
    {
      hide GetSkipHeight, BlockIndex.NodeAt;
      if pindex0 == null {
        return null;
      }
      var pindex: BlockIndex? := pindex0;
      ghost var h := pindex0.nHeight;
      if pindex0.nHeight > |vChain| - 1 {
        ghost var steps;
        pindex, steps := pindex0.GetAncestor(|vChain| - 1);
        h := |vChain| - 1;
      }
      while pindex != null
        invariant -1 <= h <= pindex0.nHeight && h < |vChain|
        invariant if h == -1 then pindex == null else pindex == pindex0.path[h]
        invariant forall i | h < i <= pindex0.nHeight && i < |vChain| :: vChain[i] != pindex0.path[i]
        decreases h
      {
        pindex0.Link(h);
        var found := Contains(pindex);
        if found {
          break;
        }
        pindex := pindex.pprev;
        h := h - 1;
      }
      if vChain != [] {
        ForkUnique(pindex0.path, vChain[|vChain| - 1].path, h);
      }
      return pindex;
    }

    /** The block at a height below `pindex`, through the chain vector where that is possible. */
    method StepBack(pindex: BlockIndex, nHeight: nat) returns (r: BlockIndex)
      requires Valid() && pindex.Valid() && nHeight <= pindex.nHeight
      ensures r == pindex.path[nHeight]
    {
      var inChain := Contains(pindex);
      if inChain {
        var tip: BlockIndex := vChain[|vChain| - 1];
        SharedBelow(tip, pindex, pindex.nHeight);
        assert tip.path[..pindex.nHeight + 1][nHeight] == pindex.path[..pindex.nHeight + 1][nHeight];
        r := vChain[nHeight];
      } else {
        var a, steps := pindex.GetAncestor(nHeight);
        r := a;
      }
    }

    method LocatorFrom(start: BlockIndex) returns (vHave: seq<BlockIndex>)
      requires Valid() && start.Valid()
      ensures vHave == BlocksAt(start.path, LocatorHeights(start.nHeight, 1, 0))
    {
      hide LocatorHeights, BlocksAt;
      var nStep: nat := 1;
      vHave := [];
      var pindex := start;
      ghost var goal := LocatorHeights(start.nHeight, 1, 0);
      BlocksNone(start.path);
      while true
        invariant pindex.nHeight <= start.nHeight && pindex == start.path[pindex.nHeight] && nStep >= 1
        invariant |vHave| <= |goal| && goal[|vHave|..] == LocatorHeights(pindex.nHeight, nStep, |vHave|)
        invariant vHave == BlocksAt(start.path, goal[..|vHave|])
        decreases pindex.nHeight
      {
        LocatorUnfold(pindex.nHeight, nStep, |vHave|, goal);
        BlocksNext(start.path, goal, |vHave|);
        vHave := vHave + [pindex];
        if pindex.nHeight == 0 {
          break;
        }
        var nHeight := Max0(pindex.nHeight - nStep);
        start.AncestorPath(pindex.nHeight, nHeight);
        pindex := StepBack(pindex, nHeight);
        if |vHave| > 10 {
          nStep := nStep * 2;
        }
      }
      assert goal[..|vHave|] == goal;
    }

    /** The blocks at the locator heights below the given block, or below the tip when none is given; the chain
        vector makes no difference to the result. */
    method GetLocator(pindex0: BlockIndex?) returns (vHave: seq<BlockIndex>)
      requires Valid() && (pindex0 != null ==> pindex0.Valid())
      ensures var start := if pindex0 != null then pindex0 else if vChain == [] then null else vChain[|vChain| - 1];
              vHave == if start == null then [] else BlocksAt(start.path, LocatorHeights(|start.path| - 1, 1, 0))
    {
      hide GetSkipHeight, BlockIndex.NodeAt, BlocksAt, LocatorHeights;
      var pindex := pindex0;
      if pindex == null {
        if vChain == [] {
          return [];
        }
        pindex := vChain[|vChain| - 1];
      }
      vHave := LocatorFrom(pindex);
    }
  }

  lemma BlocksNone(path: seq<BlockIndex>)
    ensures BlocksAt(path, []) == []
  {}

  lemma BlocksNext(path: seq<BlockIndex>, goal: seq<nat>, n: nat)
    requires n < |goal| && forall i | 0 <= i < |goal| :: goal[i] < |path|
    ensures BlocksAt(path, goal[..n + 1]) == BlocksAt(path, goal[..n]) + [path[goal[n]]]
  {}

  function Max0(x: int): nat {
    if x < 0 then 0 else x
  }

  /** The heights of a locator from height `h`, when `have` entries precede: single steps for the first ten
      entries, then steps that double. */
  function LocatorHeights(h: nat, step: nat, have: nat): (s: seq<nat>)
    requires step >= 1
    ensures |s| >= 1 && forall i | 0 <= i < |s| :: s[i] <= h
    decreases h
  {
    [h] + (if h == 0 then [] else LocatorHeights(Max0(h - step), if have + 1 > 10 then 2 * step else step, have + 1))
  }

  lemma LocatorUnfold(h: nat, step: nat, have: nat, goal: seq<nat>)
    requires step >= 1 && have <= |goal| && goal[have..] == LocatorHeights(h, step, have)
    ensures have < |goal| && goal[have] == h && goal[..have + 1] == goal[..have] + [h]
    ensures goal[have + 1..] ==
              if h == 0 then [] else LocatorHeights(Max0(h - step), if have + 1 > 10 then 2 * step else step, have + 1)
  {
    assert goal[have] == goal[have..][0];
    assert goal[have + 1..] == goal[have..][1..];
  }

  function BlocksAt(path: seq<BlockIndex>, heights: seq<nat>): seq<BlockIndex>
    requires forall i | 0 <= i < |heights| :: heights[i] < |path|
  {
    seq(|heights|, i requires 0 <= i < |heights| => path[heights[i]])
  }

  /** A locator starts at its block, goes down strictly and ends at genesis. */
  lemma {:induction false} LocatorDescends(h: nat, step: nat, have: nat)
    requires step >= 1
    ensures var s := LocatorHeights(h, step, have);
            && s[0] == h && s[|s| - 1] == 0 && forall i, j | 0 <= i < j < |s| :: s[i] > s[j]
    decreases h
  {
    if h > 0 {
      var step' := if have + 1 > 10 then 2 * step else step;
      LocatorDescends(Max0(h - step), step', have + 1);
    }
  }

  /** The first eleven steps of a locator are single, each one after that twice the one before, none below genesis. */
  lemma {:induction false} LocatorExact(h: nat, step: nat, have: nat, i: nat)
    requires step == Pow2(Max0(have - 10)) && i + 1 < |LocatorHeights(h, step, have)|
    ensures var s := LocatorHeights(h, step, have);
            s[i] > 0 && s[i + 1] == Max0(s[i] - Pow2(Max0(have + i - 10)))
    decreases i
  {
    hide Pow2;
    var step' := if have + 1 > 10 then 2 * step else step;
    StepDoubles(have);
    var s, t := LocatorHeights(h, step, have), LocatorHeights(Max0(h - step), step', have + 1);
    assert s == [h] + t;
    if i > 0 {
      LocatorExact(Max0(h - step), step', have + 1, i - 1);
      assert s[i] == t[i - 1] && s[i + 1] == t[i];
    }
  }

  lemma StepDoubles(have: nat)
    ensures Pow2(Max0(have + 1 - 10)) == if have + 1 > 10 then 2 * Pow2(Max0(have - 10)) else Pow2(Max0(have - 10))
  {}

  function Log2(n: nat): nat
    requires n >= 1
  {
    if n == 1 then 0 else 1 + Log2(n / 2)
  }

  lemma {:induction false} Log2Monotone(a: nat, b: nat)
    requires 1 <= a <= b
    ensures Log2(a) <= Log2(b)
  {
    if a > 1 {
      Log2Monotone(a / 2, b / 2);
    }
  }

  /** Once the steps double, few entries are left. */
  lemma {:induction false} LocatorTail(h: nat, step: nat, have: nat)
    requires step >= 1 && have >= 10
    ensures |LocatorHeights(h, step, have)| <= if h < step then 2 else 3 + Log2(h / step)
    decreases h
  {
    if h == 0 {
    } else if h < step {
      LocatorTail(0, 2 * step, have + 1);
    } else {
      LocatorTail(h - step, 2 * step, have + 1);
      TailStep(h, step);
      if h - step >= 2 * step {
        var q := h / step;
        assert (h - step) / (2 * step) == (q - 1) / 2;
        Log2Monotone((q - 1) / 2, q / 2);
      }
    }
  }

  lemma TailStep(h: nat, step: nat)
    requires 1 <= step <= h
    ensures h / step >= 1
    ensures (h - step) / (2 * step) == (h / step - 1) / 2
    ensures h - step >= 2 * step <==> h / step >= 3
  {
    DivStep(h - step, step);
    DivTwice(h - step, step);
    DivPositive(h, step);
    DivPositive(h - step, 2 * step);
  }

  lemma {:induction false} LocatorHead(h: nat, have: nat)
    requires have <= 10
    ensures |LocatorHeights(h, 1, have)| <= 10 - have + 3 + Log2(h + 1)
    decreases h
  {
    if h == 0 {
    } else if have == 10 {
      LocatorTail(h, 1, have);
      Log2Monotone(h, h + 1);
    } else {
      LocatorHead(h - 1, have + 1);
      Log2Monotone(h, h + 1);
    }
  }

  /** A locator has at most 13 + log2(height + 1) entries. */
  lemma LocatorShort(h: nat)
    ensures |LocatorHeights(h, 1, 0)| <= 13 + Log2(h + 1)
  {
    LocatorHead(h, 0);
  }

  lemma ForkUnique(a: seq<BlockIndex>, b: seq<BlockIndex>, h: int)
    requires -1 <= h < |a| && h < |b| && (h >= 0 ==> a[h] == b[h])
    requires forall i | h < i < |a| && i < |b| :: b[i] != a[i]
    ensures ForkHeight(a, b) == h
  {}

  /** The highest block two blocks of one tree have in common. */
  method LastCommonAncestor(pa0: BlockIndex, pb0: BlockIndex) returns (r: BlockIndex)
    requires pa0.Valid() && pb0.Valid() && pa0.path[0] == pb0.path[0]
    ensures var h := ForkHeight(pa0.path, pb0.path); h >= 0 && r == pa0.path[h] == pb0.path[h]
  {
    var pa: BlockIndex?, pb: BlockIndex? := pa0, pb0;
    ghost var h := if pa0.nHeight < pb0.nHeight then pa0.nHeight else pb0.nHeight;
    if pa0.nHeight > pb0.nHeight {
      ghost var steps;
      pa, steps := pa0.GetAncestor(pb0.nHeight);
    } else if pb0.nHeight > pa0.nHeight {
      ghost var steps;
      pb, steps := pb0.GetAncestor(pa0.nHeight);
    }
    while pa != pb && pa != null && pb != null
      invariant 0 <= h <= pa0.nHeight && h <= pb0.nHeight
      invariant pa == pa0.path[h] && pb == pb0.path[h]
      invariant forall i | h < i < |pa0.path| && i < |pb0.path| :: pb0.path[i] != pa0.path[i]
      decreases h
    {
      assert pa0.NodeAt(h) && pb0.NodeAt(h);
      pa, pb := pa.pprev, pb.pprev;
      h := h - 1;
    }
    ForkUnique(pa0.path, pb0.path, h);
    r := pa;
  }
}
