/**
 * The block index tree of src/chain.{h,cpp}: blocks linked to their predecessors, skip
 * pointers that are built with the very search they speed up, and the active chain as an
 * array of blocks by height.
 */
module BlockChain {
  import opened Bits

  // ---------- skip heights ----------

  /** n & (n - 1). */
  function InvertLowestOne(n: nat): (r: nat)
    ensures r <= n && (n > 0 ==> r < n)
  {
    if n == 0 then 0 else And(n, n - 1)
  }

  function GetSkipHeight(height: int): (r: nat)
    ensures height >= 1 ==> r < height
  {
    if height < 2 then 0
    else if height % 2 == 1 then InvertLowestOne(InvertLowestOne(height - 1)) + 1
    else InvertLowestOne(height)
  }

  function TrailingZeros(n: nat): nat
    requires n > 0
  {
    if n % 2 == 1 then 0 else 1 + TrailingZeros(n / 2)
  }

  lemma {:induction false} AndSelf(n: nat)
    ensures And(n, n) == n
    decreases n
  {
    if n > 0 { AndSelf(n / 2); }
  }

  /** InvertLowestOne clears exactly the lowest set bit. */
  lemma {:induction false} LowestOneCleared(n: nat)
    requires n > 0
    ensures InvertLowestOne(n) == n - Pow2(TrailingZeros(n))
    decreases n
  {
    if n % 2 == 1 {
      AndSelf(n / 2);
      assert (n - 1) / 2 == n / 2;
    } else {
      LowestOneCleared(n / 2);
      assert (n - 1) / 2 == n / 2 - 1;
    }
  }

  /** An even height loses its lowest set bit; an odd one loses its second and third lowest and stays odd, or goes to 1. */
  lemma SkipHeightIs(height: nat)
    requires height >= 2
    ensures height % 2 == 0 ==> GetSkipHeight(height) == height - Pow2(TrailingZeros(height))
    ensures height % 2 == 1 ==>
              var n := height - 1 - Pow2(TrailingZeros(height - 1));
              GetSkipHeight(height) == if n <= 0 then 1 else height - Pow2(TrailingZeros(height - 1)) - Pow2(TrailingZeros(n))
  {
    hide InvertLowestOne, Pow2;
    if height % 2 == 0 {
      LowestOneCleared(height);
    } else {
      LowestOneCleared(height - 1);
      var n := InvertLowestOne(height - 1);
      if n > 0 { LowestOneCleared(n); } else { NothingToClear(); }
    }
  }

  lemma NothingToClear()
    ensures InvertLowestOne(0) == 0
  {
  }

  // ---------- the tree ----------

  class BlockIndex {
    const pprev: BlockIndex?
    const nHeight: nat
    var pskip: BlockIndex?

    constructor (prev: BlockIndex?)
      ensures pprev == prev && pskip == null
      ensures nHeight == if prev == null then 0 else prev.nHeight + 1
    {
      pprev := prev;
      nHeight := if prev == null then 0 else prev.nHeight + 1;
      pskip := null;
    }
  }

  /** Heights count the predecessors down to a genesis block. */
  ghost predicate Linked(b: BlockIndex)
    decreases b.nHeight
  {
    if b.pprev == null then b.nHeight == 0
    else b.pprev.nHeight < b.nHeight && b.nHeight == b.pprev.nHeight + 1 && Linked(b.pprev)
  }

  /** The plain walk along pprev. */
  ghost function Ancestor(b: BlockIndex, h: nat): (a: BlockIndex)
    requires Linked(b) && h <= b.nHeight
    ensures Linked(a) && a.nHeight == h
    decreases b.nHeight
  {
    if h == b.nHeight then b else Ancestor(b.pprev, h)
  }

  ghost function Lineage(b: BlockIndex): (s: set<BlockIndex>)
    requires Linked(b)
    ensures forall a :: a in s ==> Linked(a) && a.nHeight <= b.nHeight && a == Ancestor(b, a.nHeight)
    decreases b.nHeight
  {
    if b.pprev == null then {b} else {b} + Lineage(b.pprev)
  }

  lemma {:induction false} AncestorTwice(b: BlockIndex, h: nat, k: nat)
    requires Linked(b) && k <= h <= b.nHeight
    ensures Ancestor(Ancestor(b, h), k) == Ancestor(b, k)
    decreases b.nHeight
  {
    if h < b.nHeight { AncestorTwice(b.pprev, h, k); }
  }

  lemma {:induction false} AncestorInLineage(b: BlockIndex, h: nat)
    requires Linked(b) && h <= b.nHeight
    ensures Ancestor(b, h) in Lineage(b) && Lineage(Ancestor(b, h)) <= Lineage(b)
    decreases b.nHeight
  {
    if h < b.nHeight { AncestorInLineage(b.pprev, h); }
  }

  ghost predicate SkipOk(b: BlockIndex)
    requires Linked(b)
    reads b
  {
    b.pskip == null || (b.nHeight > 0 && b.pskip == Ancestor(b, GetSkipHeight(b.nHeight)))
  }

  /** Every skip pointer on the way to genesis is absent or leads where it should. */
  ghost predicate SkipsOk(b: BlockIndex)
    requires Linked(b)
    reads Lineage(b)
  {
    forall a :: a in Lineage(b) ==> SkipOk(a)
  }

  lemma SkipsOkBelow(b: BlockIndex, h: nat)
    requires Linked(b) && SkipsOk(b) && h <= b.nHeight
    ensures SkipsOk(Ancestor(b, h))
  {
    AncestorInLineage(b, h);
  }

  /** GetAncestor: the search with skip pointers finds what the plain walk finds. */
  method GetAncestor(b: BlockIndex, height: int) returns (r: BlockIndex?)
    requires Linked(b) && SkipsOk(b)
    ensures r == if 0 <= height <= b.nHeight then Ancestor(b, height) else null
    ensures r != null ==> SkipsOk(r)
  {
    if height > b.nHeight || height < 0 {
      return null;
    }
    var walk: BlockIndex, heightWalk: nat := b, b.nHeight;
    while heightWalk > height
      invariant Linked(walk) && SkipsOk(walk) && heightWalk == walk.nHeight >= height
      invariant Ancestor(walk, height) == Ancestor(b, height)
    {
      assert walk in Lineage(walk) && SkipOk(walk);
      var heightSkip := GetSkipHeight(heightWalk);
      var heightSkipPrev := GetSkipHeight(heightWalk - 1);
      if walk.pskip != null && (heightSkip == height
                                || (heightSkip > height && !(heightSkipPrev < heightSkip - 2 && heightSkipPrev >= height))) {
        AncestorTwice(walk, heightSkip, height);
        SkipsOkBelow(walk, heightSkip);
        walk, heightWalk := walk.pskip, heightSkip;
      } else {
        assert walk.pprev != null;
        walk, heightWalk := walk.pprev, heightWalk - 1;
      }
    }
    return walk;
  }

  /** BuildSkip, given that the predecessor's skip pointers are right. */
  method BuildSkip(b: BlockIndex)
    requires Linked(b) && (b.pprev != null ==> SkipsOk(b.pprev)) && b.pskip == null
    modifies b
    ensures SkipsOk(b)
    ensures b.pprev != null ==> b.pskip == Ancestor(b, GetSkipHeight(b.nHeight))
  {
    hide GetSkipHeight;
    if b.pprev != null {
      ghost var below := Lineage(b.pprev);
      assert forall a :: a in below ==> SkipOk(a) && a.nHeight < b.nHeight;
      var s := GetAncestor(b.pprev, GetSkipHeight(b.nHeight));
      assert Lineage(b) == {b} + below && b !in below;
      b.pskip := s;
      forall a | a in below ensures SkipOk(a) {
        assert a != b && old(SkipOk(a));
      }
      assert SkipOk(b);
    }
  }

  /** A block tree: closed under predecessors, all skip pointers built and right. */
  ghost predicate Tree(blocks: set<BlockIndex>)
    reads blocks
  {
    forall b :: b in blocks ==>
      Linked(b) && Lineage(b) <= blocks && (b.nHeight > 0 ==> b.pskip == Ancestor(b, GetSkipHeight(b.nHeight))) && (b.nHeight == 0 ==> b.pskip == null)
  }

  lemma TreeSkips(blocks: set<BlockIndex>, b: BlockIndex)
    requires Tree(blocks) && b in blocks
    ensures Linked(b) && SkipsOk(b)
  {
  }

  /** Growing a tree by one block, as the index does for every new header. */
  method Grow(ghost blocks: set<BlockIndex>, prev: BlockIndex?) returns (b: BlockIndex)
    requires Tree(blocks) && (prev != null ==> prev in blocks)
    ensures fresh(b) && b.pprev == prev && Tree(blocks + {b})
  {
    b := new BlockIndex(prev);
    if prev != null {
      TreeSkips(blocks, prev);
      assert Lineage(prev) <= blocks;
    }
    BuildSkip(b);
    forall c | c in blocks + {b}
      ensures Linked(c) && Lineage(c) <= blocks + {b}
      ensures (c.nHeight > 0 ==> c.pskip == Ancestor(c, GetSkipHeight(c.nHeight))) && (c.nHeight == 0 ==> c.pskip == null)
    {
      if c != b { assert c in blocks; }
    }
  }

  // ---------- locators ----------

  /** The heights a locator visits: the steps back start to double after eleven entries. */
  function LocatorHeights(h: nat, step: nat, count: nat): (r: seq<nat>)
    requires step > 0
    ensures |r| > 0
    decreases h
  {
    [h] + if h == 0 then [] else
      LocatorHeights(if h - step > 0 then h - step else 0, if count + 1 > 10 then step * 2 else step, count + 1)
  }

  lemma LocatorStep(h: nat, step: nat, count: nat)
    requires step > 0
    ensures var r := LocatorHeights(h, step, count);
            && r[0] == h
            && r[1..] == if h == 0 then [] else
                 LocatorHeights(if h - step > 0 then h - step else 0, if count + 1 > 10 then step * 2 else step, count + 1)
  {
  }

  /** How far below the start the i-th locator entry is, before clamping at genesis. */
  function LocatorOffset(i: nat): nat {
    if i <= 11 then i else 9 + Pow2(i - 10)
  }

  function LocatorStepSize(i: nat): (r: nat)
    ensures r > 0
  {
    if i <= 10 then 1 else Pow2(i - 10)
  }

  lemma LocatorOffsetStep(i: nat)
    ensures LocatorOffset(i + 1) == LocatorOffset(i) + LocatorStepSize(i)
    ensures LocatorStepSize(i + 1) == if i + 1 > 10 then LocatorStepSize(i) * 2 else LocatorStepSize(i)
  {
  }

  function HeightBelow(top: nat, offset: nat): nat {
    if top > offset then top - offset else 0
  }

  ghost predicate LocatorFrom(r: seq<nat>, top: nat, count: nat) {
    && |r| > 0
    && r[|r| - 1] == 0
    && forall i :: 0 <= i < |r| ==> r[i] == HeightBelow(top, LocatorOffset(count + i)) && (i < |r| - 1 ==> r[i] > 0)
  }

  /** The i-th entry has a closed form, and the last entry, and only the last, is genesis. */
  lemma {:induction false} LocatorClosedForm(top: nat, count: nat)
    ensures LocatorFrom(LocatorHeights(HeightBelow(top, LocatorOffset(count)), LocatorStepSize(count), count), top, count)
    decreases HeightBelow(top, LocatorOffset(count))
  {
    hide LocatorHeights, LocatorOffset, LocatorStepSize;
    var h := HeightBelow(top, LocatorOffset(count));
    var r := LocatorHeights(h, LocatorStepSize(count), count);
    LocatorStep(h, LocatorStepSize(count), count);
    var tail := r[1..];
    if h > 0 {
      LocatorOffsetStep(count);
      LocatorClosedForm(top, count + 1);
      forall i | 0 < i < |r| ensures r[i] == HeightBelow(top, LocatorOffset(count + i)) && (i < |r| - 1 ==> r[i] > 0) {
        assert r[i] == tail[i - 1];
      }
    }
  }

  lemma {:induction false} OffsetIncreases(i: nat, j: nat)
    requires i < j
    ensures LocatorOffset(i) < LocatorOffset(j)
  {
    hide LocatorOffset, LocatorStepSize;
    LocatorOffsetStep(j - 1);
    if i < j - 1 { OffsetIncreases(i, j - 1); }
  }

  /** A locator starts at the given height, descends strictly and ends at genesis. */
  lemma LocatorDescends(top: nat)
    ensures var r := LocatorHeights(top, 1, 0);
            && r[0] == top && r[|r| - 1] == 0
            && (forall i :: 0 <= i < |r| ==> r[i] == HeightBelow(top, LocatorOffset(i)))
            && forall i, j :: 0 <= i < j < |r| ==> r[i] > r[j]
  {
    hide LocatorHeights;
    LocatorClosedForm(top, 0);
    var r := LocatorHeights(top, 1, 0);
    forall i, j | 0 <= i < j < |r| ensures r[i] > r[j] {
      OffsetIncreases(i, j);
    }
  }

  // ---------- the active chain ----------

  /** All blocks from genesis to b, by height. */
  ghost function Path(b: BlockIndex): (p: seq<BlockIndex?>)
    requires Linked(b)
    ensures |p| == b.nHeight + 1 && forall i :: 0 <= i < |p| ==> p[i] == Ancestor(b, i)
    decreases b.nHeight
  {
    (if b.pprev == null then [] else Path(b.pprev)) + [b]
  }

  class Chain {
    var vChain: seq<BlockIndex?>

    /** Empty, or the path to some block. */
    ghost predicate Valid()
      reads this
    {
      vChain == [] || (var tip := vChain[|vChain| - 1]; tip != null && Linked(tip) && vChain == Path(tip))
    }

    constructor ()
      ensures Valid() && vChain == []
    {
      vChain := [];
    }

    function Height(): int
      reads this
    {
      |vChain| - 1
    }

    function At(height: int): (r: BlockIndex?)
      reads this
    {
      if height < 0 || height >= |vChain| then null else vChain[height]
    }

    predicate Contains(b: BlockIndex)
      reads this
    {
      At(b.nHeight) == b
    }

    function Next(b: BlockIndex): BlockIndex?
      reads this
    {
      if Contains(b) then At(b.nHeight + 1) else null
    }

    /** SetTip: only the differing blocks are rewritten, and that is enough. */
    method SetTip(tip: BlockIndex?)
      requires Valid() && (tip != null ==> Linked(tip))
      modifies this
      ensures Valid() && vChain == if tip == null then [] else Path(tip)
    {
      hide Path, Ancestor, Linked, Steps;
      if tip == null {
        vChain := [];
        return;
      }
      PathSteps(tip);
      ghost var was := vChain;
      var size := tip.nHeight + 1;
      vChain := if size <= |vChain| then vChain[..size] else vChain + seq(size - |vChain|, _ => null);
      ghost var low := Overwrite(tip, Path(tip));
      if low > 0 {
        OldPart(was, tip, low - 1);
      }
      assert vChain == Path(tip);
      assert vChain[|vChain| - 1] == tip;
    }

    /** The loop of SetTip: write the path down from its end until a block is already there. */
    method Overwrite(tip: BlockIndex, ghost path: seq<BlockIndex?>) returns (ghost low: nat)
      requires |vChain| == |path| == tip.nHeight + 1 && path[tip.nHeight] == tip
      requires Steps(path)
      modifies this
      ensures |vChain| == |path| && low <= |path| && forall i :: low <= i < |path| ==> vChain[i] == path[i]
      ensures vChain[..low] == old(vChain)[..low]
      ensures low > 0 ==> vChain[low - 1] == path[low - 1]
    {
      var pindex: BlockIndex? := tip;
      low := |path|;
      while pindex != null && vChain[pindex.nHeight] != pindex
        invariant |vChain| == |path| && low == (if pindex == null then 0 else pindex.nHeight + 1) <= |path|
        invariant pindex != null ==> pindex == path[low - 1]
        invariant forall i :: low <= i < |path| ==> vChain[i] == path[i]
        invariant vChain[..low] == old(vChain)[..low]
        decreases low
      {
        assert low > 1 ==> path[low - 1].pprev == path[low - 2] && path[low - 2].nHeight == low - 2;
        vChain := vChain[pindex.nHeight := pindex];
        pindex, low := pindex.pprev, low - 1;
      }
    }

    /** FindFork: the highest block of the chain that is the given block or an ancestor of it. */
    method FindFork(start: BlockIndex?) returns (r: BlockIndex?)
      requires Valid() && (start != null ==> Linked(start) && SkipsOk(start))
      ensures start == null ==> r == null
      ensures r != null ==> start != null && r.nHeight <= start.nHeight && r == Ancestor(start, r.nHeight) && Contains(r)
      ensures start != null ==> forall h :: (if r == null then 0 else r.nHeight + 1) <= h <= start.nHeight ==> !Contains(Ancestor(start, h))
    {
      if start == null {
        return null;
      }
      var pindex: BlockIndex? := start;
      if start.nHeight > Height() {
        pindex := GetAncestor(start, Height());
      }
      while pindex != null && !Contains(pindex)
        invariant pindex != null ==> Linked(pindex) && pindex.nHeight <= start.nHeight && pindex == Ancestor(start, pindex.nHeight)
        invariant forall h :: (if pindex == null then 0 else pindex.nHeight + 1) <= h <= start.nHeight ==> !Contains(Ancestor(start, h))
        decreases if pindex == null then 0 else pindex.nHeight + 1
      {
        AncestorTwice(start, pindex.nHeight, if pindex.nHeight == 0 then 0 else pindex.nHeight - 1);
        pindex := pindex.pprev;
      }
      return pindex;
    }

    /** One step back from a block: by height in the chain if it is there, else with the skip pointers. */
    method StepBack(b: BlockIndex, height: nat) returns (r: BlockIndex?)
      requires Valid() && Linked(b) && SkipsOk(b) && height <= b.nHeight
      ensures r == Ancestor(b, height) && SkipsOk(r)
    {
      SkipsOkBelow(b, height);
      if Contains(b) {
        AncestorTwice(vChain[|vChain| - 1], b.nHeight, height);
        r := At(height);
      } else {
        r := GetAncestor(b, height);
      }
    }

    /** GetLocator: the given block (or the tip) and its ancestors at the locator heights. */
    method GetLocator(start: BlockIndex?) returns (have: seq<BlockIndex>)
      requires Valid() && (start != null ==> Linked(start) && SkipsOk(start))
      requires vChain != [] ==> SkipsOk(vChain[|vChain| - 1])
      ensures var from := if start != null then start else if vChain == [] then null else vChain[|vChain| - 1];
              if from == null then have == []
              else
                && AncestorsAt(from, LocatorHeights(from.nHeight, 1, 0), have)
                && |have| > 0 && have[0] == from && have[|have| - 1].pprev == null
                && (forall i :: 0 <= i < |have| ==> have[i].nHeight == HeightBelow(from.nHeight, LocatorOffset(i)))
                && forall i, j :: 0 <= i < j < |have| ==> have[i].nHeight > have[j].nHeight
    {
      hide LocatorHeights, LocatorOffset, HeightBelow, Path, Ancestor, Linked, SkipsOk;
      have := [];
      var pindex: BlockIndex? := if start != null then start else if vChain == [] then null else vChain[|vChain| - 1];
      if pindex == null {
        return;
      }
      var step := 1;
      ghost var from: BlockIndex, heights := pindex, LocatorHeights(pindex.nHeight, 1, 0);
      AncestorSelf(from);
      while true
        invariant pindex != null && pindex.nHeight <= from.nHeight && pindex == Ancestor(from, pindex.nHeight) && SkipsOk(pindex)
        invariant |have| < |heights| && AncestorsAt(from, heights[..|have|], have)
        invariant step > 0 && heights[|have|..] == LocatorHeights(pindex.nHeight, step, |have|)
        decreases pindex.nHeight
      {
        LocatorStep(pindex.nHeight, step, |have|);
        assert heights[|have|..][0] == pindex.nHeight && heights[|have|..][1..] == heights[|have| + 1..];
        have := have + [pindex];
        if pindex.nHeight == 0 {
          assert heights[..|have|] == heights;
          LocatorBlocks(from, have);
          return;
        }
        var height := if pindex.nHeight - step > 0 then pindex.nHeight - step else 0;
        AncestorTwice(from, pindex.nHeight, height);
        pindex := StepBack(pindex, height);
        if |have| > 10 {
          step := step * 2;
        }
      }
    }
  }

  ghost predicate AncestorsAt(from: BlockIndex, heights: seq<nat>, have: seq<BlockIndex>)
    requires Linked(from)
  {
    |have| == |heights| && forall i :: 0 <= i < |have| ==> heights[i] <= from.nHeight && have[i] == Ancestor(from, heights[i])
  }

  lemma LocatorBlocks(from: BlockIndex, have: seq<BlockIndex>)
    requires Linked(from) && AncestorsAt(from, LocatorHeights(from.nHeight, 1, 0), have)
    ensures |have| > 0 && have[0] == from && have[|have| - 1].pprev == null
    ensures forall i :: 0 <= i < |have| ==> have[i].nHeight == HeightBelow(from.nHeight, LocatorOffset(i))
    ensures forall i, j :: 0 <= i < j < |have| ==> have[i].nHeight > have[j].nHeight
  {
    hide LocatorHeights, LocatorOffset, HeightBelow, Ancestor;
    var heights := LocatorHeights(from.nHeight, 1, 0);
    LocatorDescends(from.nHeight);
    AncestorSelf(from);
    forall i | 0 <= i < |have| ensures have[i].nHeight == heights[i] {
      assert have[i] == Ancestor(from, heights[i]);
    }
    assert Linked(have[|have| - 1]);
  }

  lemma AncestorSelf(b: BlockIndex)
    requires Linked(b)
    ensures Ancestor(b, b.nHeight) == b
  {
  }

  /** Whether two blocks have the same ancestor at a height. */
  ghost predicate Share(a: BlockIndex, b: BlockIndex, h: nat)
    requires Linked(a) && Linked(b)
  {
    h <= a.nHeight && h <= b.nHeight && Ancestor(a, h) == Ancestor(b, h)
  }

  /**
   * LastCommonAncestor: the highest shared ancestor. The closing assertion of the walk always
   * holds; a null answer means that the two blocks do not even share a genesis block.
   */
  method LastCommonAncestor(a: BlockIndex, b: BlockIndex) returns (r: BlockIndex?)
    requires Linked(a) && SkipsOk(a) && Linked(b) && SkipsOk(b)
    ensures r != null ==> Share(a, b, r.nHeight) && r == Ancestor(a, r.nHeight)
    ensures forall h: nat :: Share(a, b, h) <==> r != null && h <= r.nHeight
  {
    var pa: BlockIndex?, pb: BlockIndex? := a, b;
    if a.nHeight > b.nHeight {
      pa := GetAncestor(a, b.nHeight);
    } else if b.nHeight > a.nHeight {
      pb := GetAncestor(b, a.nHeight);
    }
    ghost var top := pa.nHeight;
    ghost var h: int := top;
    while pa != pb && pa != null && pb != null
      invariant -1 <= h <= top <= a.nHeight && top <= b.nHeight && (top == a.nHeight || top == b.nHeight)
      invariant pa == (if h < 0 then null else Ancestor(a, h)) && pb == (if h < 0 then null else Ancestor(b, h))
      invariant forall k: nat :: h < k ==> !Share(a, b, k)
      decreases h
    {
      AncestorTwice(a, h, if h == 0 then 0 else h - 1);
      AncestorTwice(b, h, if h == 0 then 0 else h - 1);
      pa, pb, h := pa.pprev, pb.pprev, h - 1;
    }
    assert pa == pb;
    forall k: nat | k <= h ensures Share(a, b, k) {
      AncestorTwice(a, h, k);
      AncestorTwice(b, h, k);
    }
    return pa;
  }

  /** A sequence of blocks linked by pprev, from a genesis block upwards. */
  ghost predicate Steps(p: seq<BlockIndex?>) {
    forall i :: 0 <= i < |p| ==> p[i] != null && p[i].nHeight == i && p[i].pprev == if i == 0 then null else p[i - 1]
  }

  lemma PathSteps(tip: BlockIndex)
    requires Linked(tip)
    ensures Steps(Path(tip)) && Path(tip)[tip.nHeight] == tip
  {
    var p := Path(tip);
    forall i | 0 <= i < |p| ensures p[i] != null && p[i].nHeight == i && p[i].pprev == if i == 0 then null else p[i - 1] {
      AncestorTwice(tip, i, if i == 0 then 0 else i - 1);
    }
  }

  /** Two chains that share a block share everything below it. */
  lemma OldPart(was: seq<BlockIndex?>, tip: BlockIndex, h: nat)
    requires Linked(tip) && h <= tip.nHeight
    requires was == [] || (var last := was[|was| - 1]; last != null && Linked(last) && was == Path(last))
    requires h < |was| && was[h] == Path(tip)[h]
    ensures forall i :: 0 <= i <= h ==> was[i] == Path(tip)[i]
  {
    var before := was[|was| - 1];
    forall i | 0 <= i <= h ensures was[i] == Path(tip)[i] {
      AncestorTwice(before, h, i);
      AncestorTwice(tip, h, i);
    }
  }
}
