/** The block index with its skip pointers, and the active chain kept as an array of blocks by height. */
module Chain {
  import opened Numbers
  import opened SkipWalk

  // ---------------------------------------------------------------------------------------------
  // The block index
  // ---------------------------------------------------------------------------------------------

  class BlockIndex {
    const pprev: BlockIndex?
    const nHeight: nat
    var pskip: BlockIndex?

    /** The blocks from the first one up to this one, by height. */
    ghost const path: seq<BlockIndex>

    ghost predicate Rooted()
      decreases |path|
    {
      && |path| == nHeight + 1 && path[nHeight] == this
      && (if pprev == null then nHeight == 0
          else |pprev.path| == nHeight && pprev.path == path[..nHeight] && pprev.Rooted())
    }

    /** A skip pointer, where there is one, leads to the ancestor at the skip height. */
    ghost predicate SkipOk()
      requires Rooted()
      reads this
    {
      pskip != null ==> pskip == path[GetSkipHeight(nHeight)]
    }

    ghost predicate SkipsOk()
      requires Rooted()
      reads path
    {
      forall i :: 0 <= i < |path| ==> path[i].Rooted() && path[i].SkipOk()
    }

    /** A block on the path has the path up to it. */
    lemma {:induction false} PathOf(i: nat)
      requires Rooted() && i <= nHeight
      ensures path[i].Rooted() && path[i].nHeight == i && path[i].path == path[..i + 1]
      decreases nHeight
    {
      if i < nHeight {
        pprev.PathOf(i);
        assert path[..nHeight][..i + 1] == path[..i + 1];
      } else {
        assert path[..i + 1] == path;
      }
    }

    lemma ParentOf(i: nat)
      requires Rooted() && i < |path|
      ensures path[i].Rooted() && path[i].nHeight == i && path[i].pprev == (if i == 0 then null else path[i - 1])
    {
      PathOf(i);
      if i > 0 { path[i].PathOf(i - 1); }
    }

    constructor (pprev: BlockIndex?)
      requires pprev != null ==> pprev.Rooted() && pprev.SkipsOk()
      ensures Rooted() && SkipsOk() && this.pprev == pprev && pskip == null
      ensures pprev != null ==> path == pprev.path + [this]
    {
      this.pprev := pprev;
      nHeight := if pprev == null then 0 else pprev.nHeight + 1;
      path := (if pprev == null then [] else pprev.path) + [this];
      pskip := null;
    }

    ghost predicate AllSkips()
      requires Rooted()
      reads path
    {
      forall i :: 0 < i < |path| ==> path[i].pskip != null
    }

    /** The ancestor at a height, by skip pointers where they help: the one that single steps reach. */
    method GetAncestor(height: int) returns (r: BlockIndex?, ghost steps: nat)
      requires Rooted() && SkipsOk()
      ensures if 0 <= height <= nHeight then r == path[height] else r == null
      ensures AllSkips() ==> steps == if 0 <= height <= nHeight then Steps(nHeight, height) else 0
    {
      hide GetSkipHeight;
      steps := 0;
      if height > nHeight || height < 0 { return null, 0; }
      var walk := this;
      var heightWalk := nHeight;
      PathOf(nHeight);
      while heightWalk > height
        invariant height <= heightWalk <= nHeight && walk == path[heightWalk]
        invariant AllSkips() ==> steps + Steps(heightWalk, height) == Steps(nHeight, height)
      {
        steps := steps + 1;
        PathOf(heightWalk);
        var heightSkip := GetSkipHeight(heightWalk);
        var heightSkipPrev := GetSkipHeight(heightWalk - 1);
        if walk.pskip != null &&
           (heightSkip == height ||
            (heightSkip > height && !(heightSkipPrev < heightSkip - 2 && heightSkipPrev >= height))) {
          assert path[heightWalk].SkipOk();
          walk := walk.pskip;
          heightWalk := heightSkip;
        } else {
          walk.PathOf(heightWalk - 1);
          walk := walk.pprev;
          heightWalk := heightWalk - 1;
        }
      }
      r := walk;
    }

    method BuildSkip()
      requires Rooted() && SkipsOk()
      modifies this
      ensures SkipsOk()
      ensures pprev != null ==> pskip == path[GetSkipHeight(nHeight)]
    {
      if pprev != null {
        ghost var steps;
        pskip, steps := pprev.GetAncestor(GetSkipHeight(nHeight));
      }
    }
  }

  // ---------------------------------------------------------------------------------------------
  // Locator steps
  // ---------------------------------------------------------------------------------------------

  /** The step down from the entry after `n` others. */
  function StepAfter(n: nat): nat { if n <= 10 then 1 else Pow(2, n - 10) }

  /** The height of the entry after `n` others. */
  function HeightAt(h: nat, n: nat): nat
  {
    var down := if n <= 10 then n else 9 + Pow(2, n - 10);
    if down > h then 0 else h - down
  }

  lemma HeightStep(h: nat, n: nat)
    ensures StepAfter(n) > 0
    ensures HeightAt(h, n + 1) == if HeightAt(h, n) < StepAfter(n) then 0 else HeightAt(h, n) - StepAfter(n)
    ensures StepAfter(n + 1) == if n + 1 > 10 then StepAfter(n) * 2 else StepAfter(n)
  {
    if n > 10 { PowPositive(2, n - 10); }
    if n == 10 { assert Pow(2, 1) == 2; }
  }

  /** An entry above the lowest height bounds the number of entries. */
  lemma EntriesBound(h: nat, n: nat)
    requires n > 0 && HeightAt(h, n - 1) > 0
    ensures n + 1 <= 12 || Pow(2, n - 11) <= h
  {}

  // ---------------------------------------------------------------------------------------------
  // The active chain
  // ---------------------------------------------------------------------------------------------

  lemma TipPath(b: BlockIndex)
    requires b.Rooted()
    ensures |b.path| == b.nHeight + 1 && b.path[b.nHeight] == b
  {}

  /** Paths that share a block share everything below it. */
  lemma SharedBelow(a: BlockIndex, b: BlockIndex, h: nat)
    requires a.Rooted() && b.Rooted() && h <= a.nHeight && h <= b.nHeight && a.path[h] == b.path[h]
    ensures forall i :: 0 <= i <= h ==> a.path[i] == b.path[i]
  {
    a.PathOf(h);
    b.PathOf(h);
    forall i | 0 <= i <= h ensures a.path[i] == b.path[i] {
      assert a.path[..h + 1][i] == b.path[..h + 1][i];
    }
  }

  class ActiveChain {
    var vChain: seq<BlockIndex?>

    constructor ()
      ensures vChain == [] && Valid()
    {
      vChain := [];
    }

    /** The array holds the tip's ancestors, each at its height. */
    ghost predicate Valid()
      reads this
    {
      vChain != [] ==>
        var tip := vChain[|vChain| - 1];
        tip != null && tip.Rooted() && vChain == tip.path
    }

    function Tip(): BlockIndex?
      reads this
    {
      if vChain == [] then null else vChain[|vChain| - 1]
    }

    function At(height: int): BlockIndex?
      reads this
    {
      if height < 0 || height >= |vChain| then null else vChain[height]
    }

    predicate Contains(b: BlockIndex)
      reads this
    {
      At(b.nHeight) == b
    }

    function Height(): int
      reads this
    {
      |vChain| - 1
    }

    /** A block of the chain has the chain up to it as its path. */
    lemma ContainsPath(b: BlockIndex)
      requires Valid() && b.Rooted() && Contains(b)
      ensures vChain[..b.nHeight + 1] == b.path
    {
      Tip().PathOf(b.nHeight);
    }

    /** A list made longer with nulls or cut off. */
    static function Resized(s: seq<BlockIndex?>, size: nat): (r: seq<BlockIndex?>)
      ensures |r| == size && forall i :: 0 <= i < size ==> r[i] == if i < |s| then s[i] else null
    {
      if size <= |s| then s[..size] else s + seq(size - |s|, i => null)
    }

    /** Sets a new tip, rewriting only the part above the point where the old chain agrees. */
    method SetTip(tip: BlockIndex?)
      requires Valid() && (tip != null ==> tip.Rooted())
      modifies this
      ensures Valid()
      ensures if tip == null then vChain == [] else vChain == tip.path
    {
      if tip == null {
        vChain := [];
        return;
      }
      hide BlockIndex.Rooted, Resized;
      ghost var was := vChain;
      var size := tip.nHeight + 1;
      vChain := Resized(vChain, size);
      ghost var resized, top := vChain, size;
      TipPath(tip);
      var p: BlockIndex? := tip;
      while p != null && vChain[p.nHeight] != p
        invariant 0 <= top <= size == |vChain| == |resized| == |tip.path|
        invariant if top == 0 then p == null else p != null && p == tip.path[top - 1] && p.nHeight == top - 1
        invariant forall i :: top <= i < size ==> vChain[i] == tip.path[i]
        invariant forall i :: 0 <= i < top ==> vChain[i] == resized[i]
        decreases top
      {
        tip.ParentOf(top - 1);
        if top > 1 { tip.ParentOf(top - 2); }
        vChain := vChain[p.nHeight := p];
        p := p.pprev;
        top := top - 1;
      }
      if p != null {
        TipPath(was[|was| - 1]);
        SharedBelow(was[|was| - 1], tip, top - 1);
      }
      assert vChain == tip.path;
    }

    /** The highest block that a block's path shares with the chain. */
    method FindFork(b: BlockIndex?) returns (r: BlockIndex?)
      requires Valid() && (b != null ==> b.Rooted() && b.SkipsOk())
      ensures b == null ==> r == null
      ensures b != null && r == null ==> forall i :: 0 <= i < |vChain| && i < |b.path| ==> vChain[i] != b.path[i]
      ensures b != null && r != null ==>
        && r.nHeight < |vChain| && r.nHeight < |b.path| && vChain[r.nHeight] == r == b.path[r.nHeight]
        && forall i :: r.nHeight < i < |vChain| && i < |b.path| ==> vChain[i] != b.path[i]
    {
      if b == null { return null; }
      hide BlockIndex.Rooted;
      TipPath(b);
      r := b;
      if b.nHeight > Height() {
        ghost var steps;
        r, steps := b.GetAncestor(Height());
        if r != null { b.ParentOf(Height()); }
      }
      while r != null && !Contains(r)
        invariant r != null ==> r.nHeight < |b.path| && r == b.path[r.nHeight]
        invariant forall i ::
          (if r == null then -1 else r.nHeight) < i < |vChain| && i < |b.path| ==> vChain[i] != b.path[i]
        decreases if r == null then 0 else r.nHeight + 1
      {
        b.ParentOf(r.nHeight);
        if r.nHeight > 0 { b.ParentOf(r.nHeight - 1); }
        r := r.pprev;
      }
    }

    /** The ancestor at a lower height, from the array if the block is in it. */
    method StepBack(p: BlockIndex, height: nat) returns (r: BlockIndex)
      requires Valid() && p.Rooted() && p.SkipsOk() && height <= p.nHeight
      ensures r == p.path[height]
    {
      if Contains(p) {
        ContainsPath(p);
        r := At(height);
      } else {
        ghost var steps;
        r, steps := p.GetAncestor(height);
      }
    }

    /** Blocks of one path at falling heights, in steps that double after the tenth, down to the first:
        no more than twelve and the logarithm of the height. */
    method GetLocator(start: BlockIndex?) returns (have: seq<BlockIndex>)
      requires Valid() && (start != null ==> start.Rooted() && start.SkipsOk())
      requires vChain != [] ==> Tip().SkipsOk()
      ensures
        var b := if start == null then Tip() else start;
        if b == null then have == []
        else
          && have != [] && have[0] == b && have[|have| - 1].nHeight == 0 && Falling(b, have)
          && (b.nHeight > 0 ==> |have| <= 12 || Pow(2, |have| - 12) <= b.nHeight)
          && Descending(have)
    {
      hide Falling, StepAfter, Descending, Located, BlockIndex.Rooted, BlockIndex.SkipsOk;
      have := [];
      var first := if start == null then Tip() else start;
      if first == null { return; }
      var p: BlockIndex := first;
      ghost var b := p;
      var nStep := 1;
      LocatedStart(b);
      while true
        invariant p.Rooted() && p.SkipsOk() && Located(b, have + [p]) && nStep == StepAfter(|have|)
        decreases p.nHeight
      {
        have := have + [p];
        LocatedIs(b, have);
        if p.nHeight == 0 { break; }
        p := NextEntry(p, nStep);
        LocatedStep(b, have, p, nStep);
        if |have| > 10 { nStep := nStep * 2; }
      }
    }

    /** The ancestor a step further down, or the first block. */
    method NextEntry(p: BlockIndex, nStep: nat) returns (r: BlockIndex)
      requires Valid() && p.Rooted() && p.SkipsOk()
      ensures r.Rooted() && r.SkipsOk() && r.nHeight <= p.nHeight && r == p.path[r.nHeight]
      ensures r.nHeight == if p.nHeight - nStep < 0 then 0 else p.nHeight - nStep
    {
      hide BlockIndex.Rooted, BlockIndex.SkipsOk;
      TipPath(p);
      var nHeight := if p.nHeight - nStep < 0 then 0 else p.nHeight - nStep;
      AncestorSkips(p, nHeight);
      r := StepBack(p, nHeight);
    }
  }

  /** Blocks of the path of `b` at falling heights. */
  ghost predicate Falling(b: BlockIndex, have: seq<BlockIndex>)
  {
    && (forall i :: 0 <= i < |have| ==> have[i].nHeight < |b.path| && have[i] == b.path[have[i].nHeight])
    && (forall i, j :: 0 <= i < j < |have| ==> have[i].nHeight > have[j].nHeight)
  }

  /** Entry `n` is above the first block. The next one is one below it, up to entry 10, then 2, 4, 8 and so on below it,
      but never below the first block. */
  ghost predicate Descends(have: seq<BlockIndex>, n: nat)
    requires n < |have| - 1
  {
    var a, b, step := have[n].nHeight, have[n + 1].nHeight, if n <= 10 then 1 else Pow(2, n - 10);
    a >= 1 && if a <= step then b == 0 else a - b == step
  }

  ghost predicate Descending(have: seq<BlockIndex>) { forall n :: 0 <= n < |have| - 1 ==> Descends(have, n) }

  lemma DescendingStep(have: seq<BlockIndex>, p: BlockIndex, step: nat)
    requires have != [] && Descending(have) && step == StepAfter(|have| - 1)
    requires var a := have[|have| - 1].nHeight; a > 0 && p.nHeight == if a - step < 0 then 0 else a - step
    ensures Descending(have + [p])
  {
    forall n | 0 <= n < |have| ensures Descends(have + [p], n) {
      if n < |have| - 1 { assert Descends(have, n); }
    }
  }

  /** The entries of a locator so far. */
  ghost predicate Located(b: BlockIndex, have: seq<BlockIndex>)
  {
    && have != [] && have[0] == b && Falling(b, have) && Descending(have)
    && have[|have| - 1].nHeight == HeightAt(b.nHeight, |have| - 1)
    && (|have| > 1 ==> HeightAt(b.nHeight, |have| - 2) > 0)
  }

  lemma LocatedStart(b: BlockIndex)
    requires b.Rooted()
    ensures [] + [b] == [b] && Located(b, [b]) && StepAfter(0) == 1
  {}

  lemma LocatedIs(b: BlockIndex, have: seq<BlockIndex>)
    requires Located(b, have)
    ensures have != [] && have[0] == b && Falling(b, have) && Descending(have)
    ensures b.nHeight > 0 ==> |have| <= 12 || Pow(2, |have| - 12) <= b.nHeight
  {
    if |have| > 1 { EntriesBound(b.nHeight, |have| - 1); }
  }

  lemma LocatedStep(b: BlockIndex, have: seq<BlockIndex>, p: BlockIndex, step: nat)
    requires Located(b, have) && b.Rooted() && step == StepAfter(|have| - 1)
    requires var q := have[|have| - 1];
      && q.Rooted() && q.nHeight > 0 && p.nHeight == (if q.nHeight - step < 0 then 0 else q.nHeight - step)
      && p == q.path[p.nHeight]
    ensures Located(b, have + [p]) && p.nHeight < have[|have| - 1].nHeight
    ensures StepAfter(|have|) == if |have| > 10 then step * 2 else step
  {
    hide Falling, Descending, StepAfter, HeightAt;
    HeightStep(b.nHeight, |have| - 1);
    FallingStep(b, have, p.nHeight);
    DescendingStep(have, p, step);
  }

  lemma FallingStep(b: BlockIndex, have: seq<BlockIndex>, height: nat)
    requires b.Rooted() && Falling(b, have) && have != [] && have[|have| - 1].Rooted()
    requires height < have[|have| - 1].nHeight
    ensures Falling(b, have + [have[|have| - 1].path[height]])
  {
    var p := have[|have| - 1];
    b.PathOf(p.nHeight);
    b.PathOf(height);
    assert p.path[height] == b.path[..p.nHeight + 1][height];
  }

  lemma AncestorSkips(p: BlockIndex, height: nat)
    requires p.Rooted() && p.SkipsOk() && height <= p.nHeight
    ensures p.path[height].Rooted() && p.path[height].SkipsOk() && p.path[height].nHeight == height
  {
    p.PathOf(height);
    var q := p.path[height];
    forall i | 0 <= i < |q.path| ensures q.path[i].Rooted() && q.path[i].SkipOk() {
      assert q.path[i] == p.path[..height + 1][i];
    }
  }
}
