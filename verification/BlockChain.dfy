/** The block tree with its skip pointers, and the active chain as a vector. */
module BlockChain {
  import opened Powers
  import opened SkipList

  class BlockIndex {
    const pprev: BlockIndex?
    const nHeight: nat
    var pskip: BlockIndex?

    /** Heights count the steps back to a block without predecessor. */
    ghost predicate InTree()
      decreases nHeight
    {
      if pprev == null then nHeight == 0
      else nHeight == pprev.nHeight + 1 && pprev.InTree()
    }

    /** The block reached by following pprev down to a height. */
    ghost function Ancestor(height: nat): (b: BlockIndex)
      requires InTree() && height <= nHeight
      ensures b.InTree() && b.nHeight == height
      decreases nHeight
    {
      if height == nHeight then this else pprev.Ancestor(height)
    }

    ghost predicate SkipOk()
      requires InTree()
      reads this
    {
      pskip != null ==> nHeight > 0 && pskip == Ancestor(GetSkipHeight(nHeight))
    }

    constructor (pprev: BlockIndex?)
      requires pprev != null ==> pprev.InTree()
      ensures this.pprev == pprev && pskip == null && InTree()
    {
      this.pprev := pprev;
      nHeight := if pprev == null then 0 else pprev.nHeight + 1;
      pskip := null;
    }

    /** Finds an ancestor along skip pointers, in few steps if every block has one. */
    method GetAncestor(height: int, ghost tree: set<BlockIndex>) returns (b: BlockIndex?, ghost steps: nat)
      requires this in tree && InTree() && TreeOk(tree)
      ensures b == if 0 <= height <= nHeight then Ancestor(height) else null
      ensures b != null ==> b in tree
      ensures AllSkip(tree) ==> forall k: nat {:trigger Pow2(k)} :: nHeight < Pow2(k) ==> steps <= k * k / 4 + 2 * k
    {
      steps := 0;
      if height > nHeight || height < 0 { return null, 0; }
      var pindexWalk: BlockIndex := this;
      var heightWalk: nat := nHeight;
      while heightWalk > height
        invariant height <= heightWalk <= nHeight
        invariant pindexWalk in tree && pindexWalk == Ancestor(heightWalk)
        invariant AllSkip(tree) ==> steps + WalkLength(heightWalk, height) == WalkLength(nHeight, height)
        decreases heightWalk
      {
        assert BlockOk(pindexWalk, tree);
        var heightSkip := GetSkipHeight(heightWalk);
        var heightSkipPrev := GetSkipHeight(heightWalk - 1);
        OneStep(heightWalk, height, heightSkip, heightSkipPrev);
        assert AllSkip(tree) ==> HasSkip(pindexWalk);
        steps := steps + 1;
        if pindexWalk.pskip != null &&
           (heightSkip == height ||
            (heightSkip > height && !(heightSkipPrev < heightSkip - 2 && heightSkipPrev >= height))) {
          AncestorTwice(this, heightWalk, heightSkip);
          AncestorInTree(tree, pindexWalk, heightSkip);
          pindexWalk := pindexWalk.pskip;
          heightWalk := heightSkip;
        } else {
          assert pindexWalk.pprev != null;
          AncestorTwice(this, heightWalk, heightWalk - 1);
          pindexWalk := pindexWalk.pprev;
          heightWalk := heightWalk - 1;
        }
      }
      b := pindexWalk;
      if AllSkip(tree) {
        EveryWalkIsShort(nHeight, height, steps);
      }
    }

    /** Sets the skip pointer of a block that joined the tree. */
    method BuildSkip(ghost tree: set<BlockIndex>)
      requires this in tree && InTree() && TreeOk(tree)
      modifies this
      ensures TreeOk(tree)
      ensures pskip == if pprev == null then old(pskip) else Ancestor(GetSkipHeight(nHeight))
    {
      assert BlockOk(this, tree);
      if pprev != null {
        ghost var steps;
        var b;
        b, steps := pprev.GetAncestor(GetSkipHeight(nHeight), tree);
        pskip := b;
        forall c | c in tree ensures BlockOk(c, tree) {
          assert old(BlockOk(c, tree));
        }
      }
    }
  }

  /** A set of blocks closed under predecessors whose skip pointers are right. */
  ghost predicate TreeOk(tree: set<BlockIndex>)
    reads tree
  {
    forall b {:trigger BlockOk(b, tree)} :: b in tree ==> BlockOk(b, tree)
  }

  ghost predicate BlockOk(b: BlockIndex, tree: set<BlockIndex>)
    reads b
  {
    b.InTree() && (b.pprev != null ==> b.pprev in tree) && b.SkipOk()
  }

  ghost predicate HasSkip(b: BlockIndex)
    reads b
  {
    b.pprev != null ==> b.pskip != null
  }

  /** Every block above the first has its skip pointer. */
  ghost predicate AllSkip(tree: set<BlockIndex>)
    reads tree
  {
    forall b {:trigger HasSkip(b)} :: b in tree ==> HasSkip(b)
  }

  /** A block without a skip pointer may join under a block of the tree. */
  lemma TreeGrows(tree: set<BlockIndex>, b: BlockIndex)
    requires TreeOk(tree) && b.InTree() && b.pskip == null
    requires b.pprev != null ==> b.pprev in tree
    ensures TreeOk(tree + {b})
  {
    forall c | c in tree + {b} ensures BlockOk(c, tree + {b}) {
      assert c in tree ==> BlockOk(c, tree);
    }
  }

  lemma {:induction false} AncestorTwice(b: BlockIndex, h: nat, k: nat)
    requires b.InTree() && k <= h <= b.nHeight
    ensures b.Ancestor(h).Ancestor(k) == b.Ancestor(k)
    decreases b.nHeight
  {
    if h < b.nHeight {
      AncestorTwice(b.pprev, h, k);
    }
  }

  lemma {:induction false} AncestorInTree(tree: set<BlockIndex>, b: BlockIndex, h: nat)
    requires b in tree && TreeOk(tree) && b.InTree() && h <= b.nHeight
    ensures BlockOk(b, tree) && b.Ancestor(h) in tree
    decreases b.nHeight
  {
    assert BlockOk(b, tree);
    if h < b.nHeight {
      AncestorInTree(tree, b.pprev, h);
    }
  }

  /** A block met on the way down from b, null once past the first block. */
  ghost predicate OnPath(b: BlockIndex, p: BlockIndex?) {
    b.InTree() && (p != null ==> p.InTree() && p.nHeight <= b.nHeight && p == b.Ancestor(p.nHeight))
  }

  function LevelOf(p: BlockIndex?): int {
    if p == null then -1 else p.nHeight
  }

  lemma OneDown(b: BlockIndex, p: BlockIndex)
    requires OnPath(b, p)
    ensures OnPath(b, p.pprev) && LevelOf(p.pprev) == p.nHeight - 1
  {
    if p.nHeight > 0 {
      AncestorTwice(b, p.nHeight, p.nHeight - 1);
    }
  }

  /** The active chain. */
  class Chain {
    var vChain: seq<BlockIndex?>

    /** Slot i holds the height-i ancestor of the tip. */
    ghost predicate Valid()
      reads this
    {
      vChain != [] ==> IsPath(vChain, vChain[|vChain| - 1])
    }

    constructor ()
      ensures Valid() && vChain == []
    {
      vChain := [];
    }

    function Height(): int
      reads this
    {
      |vChain| - 1
    }

    function Tip(): BlockIndex?
      reads this
    {
      if |vChain| > 0 then vChain[|vChain| - 1] else null
    }

    function At(height: int): BlockIndex?
      reads this
    {
      if height < 0 || height >= |vChain| then null else vChain[height]
    }

    predicate Contains(b: BlockIndex)
      reads this
    {
      At(b.nHeight) == b
    }

    function Next(b: BlockIndex): BlockIndex?
      reads this
    {
      if Contains(b) then At(b.nHeight + 1) else null
    }

    /** Writes ancestors into their slots, from the tip down to the first slot that is already right. */
    method WriteDown(tip: BlockIndex) returns (stop: BlockIndex?)
      requires tip.InTree() && |vChain| == tip.nHeight + 1
      modifies this
      ensures |vChain| == tip.nHeight + 1 && OnPath(tip, stop) && (stop != null ==> vChain[stop.nHeight] == stop)
      ensures forall i :: LevelOf(stop) < i <= tip.nHeight ==> vChain[i] == tip.Ancestor(i)
      ensures forall i :: 0 <= i <= LevelOf(stop) ==> vChain[i] == old(vChain)[i]
    {
      stop := tip;
      while stop != null && vChain[stop.nHeight] != stop
        invariant |vChain| == tip.nHeight + 1 && OnPath(tip, stop)
        invariant forall i :: LevelOf(stop) < i <= tip.nHeight ==> vChain[i] == tip.Ancestor(i)
        invariant forall i :: 0 <= i <= LevelOf(stop) ==> vChain[i] == old(vChain)[i]
        decreases LevelOf(stop) + 1
      {
        vChain := vChain[stop.nHeight := stop];
        OneDown(tip, stop);
        stop := stop.pprev;
      }
    }

    /** Makes a block the tip. The loop stops at the first slot that is already
        right: everything below it then is too. */
    method SetTip(tip: BlockIndex?)
      requires Valid()
      requires tip != null ==> tip.InTree()
      modifies this
      ensures Valid() && Tip() == tip
      ensures tip == null ==> vChain == []
      ensures tip != null ==> IsPath(vChain, tip)
    {
      if tip == null {
        vChain := [];
        return;
      }
      ghost var before := vChain;
      vChain := Resized(vChain, tip.nHeight + 1);
      var stop := WriteDown(tip);
      if stop != null {
        PathBelow(before, stop);
        forall i | 0 <= i <= stop.nHeight ensures vChain[i] == tip.Ancestor(i) {
          AncestorTwice(tip, stop.nHeight, i);
        }
      }
    }

    /** No ancestor of a block above a height lies in the chain. */
    ghost predicate NoneAbove(b: BlockIndex, height: int)
      requires b.InTree()
      reads this
    {
      forall h :: 0 <= h && height < h <= b.nHeight ==> !Contains(b.Ancestor(h))
    }

    /** The highest ancestor of a block that lies in the chain, or null. */
    method FindFork(b: BlockIndex?, ghost tree: set<BlockIndex>) returns (fork: BlockIndex?)
      requires Valid() && TreeOk(tree) && (b != null ==> b in tree && b.InTree())
      ensures b == null ==> fork == null
      ensures b != null ==> OnPath(b, fork) && NoneAbove(b, LevelOf(fork))
      ensures fork != null ==> Contains(fork)
    {
      if b == null { return null; }
      fork := b;
      if b.nHeight > Height() {
        ghost var steps;
        fork, steps := b.GetAncestor(Height(), tree);
      }
      while fork != null && !Contains(fork)
        invariant OnPath(b, fork) && NoneAbove(b, LevelOf(fork))
        decreases LevelOf(fork) + 1
      {
        OneDown(b, fork);
        fork := fork.pprev;
      }
    }
  }

  ghost predicate IsPath(chain: seq<BlockIndex?>, tip: BlockIndex?) {
    && tip != null && tip.InTree() && |chain| == tip.nHeight + 1
    && forall i :: 0 <= i < |chain| ==> chain[i] == tip.Ancestor(i)
  }

  function Resized(s: seq<BlockIndex?>, n: nat): (r: seq<BlockIndex?>)
    ensures |r| == n
    ensures forall i :: 0 <= i < n ==> r[i] == if i < |s| then s[i] else null
  {
    if n <= |s| then s[..n] else s + seq(n - |s|, _ => null)
  }

  /** A block found in its own slot has all its ancestors in theirs. */
  lemma PathBelow(chain: seq<BlockIndex?>, b: BlockIndex)
    requires chain != [] ==> IsPath(chain, chain[|chain| - 1])
    requires b.nHeight < |chain| && chain[b.nHeight] == b && b.InTree()
    ensures forall i :: 0 <= i <= b.nHeight ==> chain[i] == b.Ancestor(i)
  {
    var tip := chain[|chain| - 1];
    forall i | 0 <= i <= b.nHeight ensures chain[i] == b.Ancestor(i) {
      AncestorTwice(tip, b.nHeight, i);
    }
  }

  /** Above a height two blocks share no ancestor. */
  ghost predicate ApartAbove(a: BlockIndex, b: BlockIndex, height: int)
    requires a.InTree() && b.InTree()
  {
    forall h :: 0 <= h && height < h <= a.nHeight && h <= b.nHeight ==> a.Ancestor(h) != b.Ancestor(h)
  }

  /** The last block two blocks' histories share, null if they share none; the
      source's closing assertion always holds. */
  method LastCommonAncestor(a: BlockIndex, b: BlockIndex, ghost tree: set<BlockIndex>) returns (c: BlockIndex?)
    requires a in tree && b in tree && a.InTree() && b.InTree() && TreeOk(tree)
    ensures OnPath(a, c) && OnPath(b, c) && ApartAbove(a, b, LevelOf(c))
  {
    var pa: BlockIndex?, pb: BlockIndex? := a, b;
    ghost var steps;
    if a.nHeight > b.nHeight {
      pa, steps := a.GetAncestor(b.nHeight, tree);
    } else if b.nHeight > a.nHeight {
      pb, steps := b.GetAncestor(a.nHeight, tree);
    }
    while pa != pb && pa != null && pb != null
      invariant OnPath(a, pa) && OnPath(b, pb) && LevelOf(pa) == LevelOf(pb)
      invariant ApartAbove(a, b, LevelOf(pa))
      decreases LevelOf(pa) + 1
    {
      OneDown(a, pa);
      OneDown(b, pb);
      pa := pa.pprev;
      pb := pb.pprev;
    }
    assert pa == pb;
    return pa;
  }

  /** Ancestors of a block, each below the one before. */
  ghost predicate Descending(have: seq<BlockIndex>, index: BlockIndex)
    requires index.InTree()
  {
    && (forall i :: 0 <= i < |have| ==> have[i].nHeight <= index.nHeight && have[i] == index.Ancestor(have[i].nHeight))
    && (forall i :: 0 < i < |have| ==> have[i].nHeight < have[i - 1].nHeight)
    && (have != [] ==> have[0] == index)
  }

  lemma DescendingOn(have: seq<BlockIndex>, index: BlockIndex, b: BlockIndex)
    requires index.InTree() && Descending(have, index) && have != []
    requires b.nHeight < have[|have| - 1].nHeight && b.nHeight <= index.nHeight && b == index.Ancestor(b.nHeight)
    ensures Descending(have + [b], index)
  {
  }

  function LocatorStep(n: nat): nat {
    if n <= 10 then 1 else Pow2(n - 10)
  }

  /** How far below the tip the n-th locator entry lies. */
  function LocatorDepth(n: nat): nat {
    if n <= 10 then n else Pow2(n - 10) + 9
  }

  lemma LocatorDepthStep(n: nat)
    ensures LocatorDepth(n + 1) == LocatorDepth(n) + LocatorStep(n)
    ensures LocatorStep(n + 1) == if n + 1 > 10 then LocatorStep(n) * 2 else LocatorStep(n)
  {
    if n >= 10 {
      assert Pow2(n + 1 - 10) == 2 * Pow2(n - 10);
    }
  }

  function HeightAt(tip: nat, depth: nat): nat {
    if tip > depth then tip - depth else 0
  }

  /** The locator lists ever sparser ancestors from the block itself down to the
      first block, and is logarithmically short. */
  method LocatorEntries(index: BlockIndex?, ghost tree: set<BlockIndex>) returns (have: seq<BlockIndex>)
    requires TreeOk(tree) && (index != null ==> index in tree && index.InTree())
    ensures index == null ==> have == []
    ensures index != null ==>
        && have != [] && have[0] == index && have[|have| - 1].nHeight == 0
        && Descending(have, index)
        && (forall i :: 0 <= i < |have| ==> have[i].nHeight == HeightAt(index.nHeight, LocatorDepth(i)))
        && (|have| >= 12 ==> Pow2(|have| - 12) + 9 < index.nHeight)
  {
    have := [];
    if index == null { return; }
    var step := 1;
    var walk: BlockIndex := index;
    while true
      invariant walk in tree && walk.nHeight <= index.nHeight && walk == index.Ancestor(walk.nHeight)
      invariant Descending(have + [walk], index)
      invariant step == LocatorStep(|have|)
      invariant walk.nHeight == HeightAt(index.nHeight, LocatorDepth(|have|))
      invariant forall i :: 0 <= i < |have| ==> have[i].nHeight == HeightAt(index.nHeight, LocatorDepth(i))
      invariant |have| > 0 ==> LocatorDepth(|have| - 1) < index.nHeight
      decreases walk.nHeight
    {
      have := have + [walk];
      if walk.nHeight == 0 { return; }
      var height := if walk.nHeight - step > 0 then walk.nHeight - step else 0;
      AncestorTwice(index, walk.nHeight, height);
      var next;
      ghost var steps;
      next, steps := walk.GetAncestor(height, tree);
      LocatorDepthStep(|have| - 1);
      DescendingOn(have, index, next);
      walk := next;
      if |have| > 10 { step := step * 2; }
    }
  }
}
