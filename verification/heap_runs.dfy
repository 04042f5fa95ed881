/**
  Whole runs of mallocs and frees over the heap model: safety of every run, and the fact that the
  free list depends only on what is live and what was granted, not on how the run got there.
 */
module HeapRuns {
  import opened Options
  import opened FreeList
  import opened HeapModel

  datatype Op = Alloc(nbytes: nat) | Dealloc(block: int)

  /** A client may free live blocks only. */
  predicate Legal(h: Heap, op: Op) {
    op.Dealloc? ==> op.block in h.live
  }

  function Step(h: Heap, answers: Answers, op: Op): Heap
    requires Valid(h) && Legal(h, op)
  {
    match op
    case Alloc(nbytes) => Malloc(h, answers, Units(nbytes)).0
    case Dealloc(a) => Free(h, a)
  }

  ghost predicate StepsTo(h: Heap, answers: Answers, op: Op, h': Heap) {
    Valid(h) ==> Legal(h, op) && h' == Step(h, answers, op)
  }

  /** hs are the heaps a client sees that performs ops from the initial heap, freeing live blocks only. */
  ghost predicate IsRun(base: int, answers: Answers, ops: seq<Op>, hs: seq<Heap>) {
    && |hs| == |ops| + 1
    && hs[0] == Initial(base, Os({}, 0))
    && forall i :: 0 <= i < |ops| ==> StepsTo(hs[i], answers, ops[i], hs[i + 1])
  }

  /** Every heap of every run is valid: one address-ordered cycle, free and live blocks tiling the granted units. */
  lemma {:induction false} RunsStayValid(base: int, answers: Answers, ops: seq<Op>, hs: seq<Heap>, i: nat)
    requires IsRun(base, answers, ops, hs) && i < |hs|
    ensures Valid(hs[i]) && hs[i].Base() == base
  {
    if i == 0 {
      InitialIsValid(base, 0);
    } else {
      RunsStayValid(base, answers, ops, hs, i - 1);
      var h := hs[i - 1];
      assert StepsTo(h, answers, ops[i - 1], hs[i - 1 + 1]);
      match ops[i - 1]
      case Alloc(nbytes) => MallocIsSafe(h, answers, Units(nbytes));
      case Dealloc(a) => FreeKeepsValid(h, a);
    }
  }

  /** The free blocks are determined by the granted units and the live blocks alone. */
  lemma FreeListIsDetermined(g: Heap, h: Heap)
    requires Valid(g) && Valid(h) && g.Base() == h.Base()
    requires g.live == h.live && g.os.granted == h.os.granted
    ensures g.ring.blocks == h.ring.blocks
  {
    forall u
      ensures Covers(g.ring.blocks, u) <==> Covers(h.ring.blocks, u)
    {
      FreeOrLive(g, u);
      FreeOrLive(h, u);
    }
    SameUnitsSameBlocks(g.ring, h.ring);
  }

  lemma FreeOrLive(h: Heap, u: int)
    requires Valid(h)
    ensures Covers(h.ring.blocks, u) <==> u in h.os.granted && !LiveHas(h.live, u)
  {
    if LiveHas(h.live, u) {
      var a :| a in h.live && Block(a, h.live[a]).Has(u);
      ApartUnits(h.ring, Block(a, h.live[a]));
    }
  }

  /** Two clients of the same system that end with the same grants and live blocks see the same free blocks. */
  lemma RunsAreHistoryIndependent(
      base: int, answers: Answers, ops: seq<Op>, hs: seq<Heap>, ops': seq<Op>, hs': seq<Heap>)
    requires IsRun(base, answers, ops, hs) && IsRun(base, answers, ops', hs')
    requires hs[|ops|].live == hs'[|ops'|].live && hs[|ops|].os.granted == hs'[|ops'|].os.granted
    ensures hs[|ops|].ring.blocks == hs'[|ops'|].ring.blocks
  {
    RunsStayValid(base, answers, ops, hs, |ops|);
    RunsStayValid(base, answers, ops', hs', |ops'|);
    FreeListIsDetermined(hs[|ops|], hs'[|ops'|]);
  }

  /** Free the given live blocks, one after the other. */
  function FreeAll(h: Heap, order: seq<int>): (g: Heap)
    requires Valid(h) && (forall a :: a in order ==> a in h.live)
    requires forall i, j :: 0 <= i < j < |order| ==> order[i] != order[j]
    ensures Valid(g) && g.Base() == h.Base() && g.os == h.os
    ensures forall a :: a in g.live <==> a in h.live && a !in order
    ensures forall a :: a in g.live ==> g.live[a] == h.live[a]
    decreases |order|
  {
    hide Valid, WellFormed, Separated, Apart, Release;
    if order == [] then h
    else
      FreeKeepsValid(h, order[0]);
      FreeAll(Free(h, order[0]), order[1..])
  }

  /** Freeing a set of live blocks gives the same free list in whatever order it is done. */
  lemma FreeingOrderIsIrrelevant(h: Heap, order: seq<int>, order': seq<int>)
    requires Valid(h) && (forall a :: a in order <==> a in order') && (forall a :: a in order ==> a in h.live)
    requires forall i, j :: 0 <= i < j < |order| ==> order[i] != order[j]
    requires forall i, j :: 0 <= i < j < |order'| ==> order'[i] != order'[j]
    ensures FreeAll(h, order).ring.blocks == FreeAll(h, order').ring.blocks
    ensures FreeAll(h, order).live == FreeAll(h, order').live
  {
    hide Valid, FreeAll;
    assert FreeAll(h, order).live == FreeAll(h, order').live;
    FreeListIsDetermined(FreeAll(h, order), FreeAll(h, order'));
  }

  /** A malloc the list could serve, undone by a free, restores the free blocks and the live blocks exactly. */
  lemma FreeUndoesMalloc(h: Heap, answers: Answers, n: nat)
    requires Valid(h) && 1 <= n && NextFit(h.ring, n).Some?
    ensures var (g, a) := Malloc(h, answers, n);
            && Valid(g) && a.Some? && a.value in g.live
            && Free(g, a.value).ring.blocks == h.ring.blocks
            && Free(g, a.value).live == h.live && Free(g, a.value).os == h.os
  {
    hide WellFormed, Separated, Apart, Release, NextFit, Covers, LiveHas;
    MallocIsSafe(h, answers, n);
    MallocAsksOnlyWhenFull(h, answers, n);
    var (g, a) := Malloc(h, answers, n);
    FreeKeepsValid(g, a.value);
    assert Free(g, a.value).live == h.live;
    FreeListIsDetermined(Free(g, a.value), h);
  }

  /** The maximal runs of the given units: in order, none empty, no two touching, and nothing else covered. */
  ghost predicate MaximalRuns(blocks: seq<Block>, units: iset<int>) {
    Separated(blocks) && (forall b :: b in blocks ==> 1 <= b.size) && forall u :: Covers(blocks, u) <==> u in units
  }

  /** The granted units that no live block holds. */
  ghost function Unused(h: Heap): iset<int> {
    iset u | u in h.os.granted && !LiveHas(h.live, u)
  }

  /**
    Whatever a run has done, its free list behind the marker is the one decomposition into maximal runs of
    the granted units that no live block holds; once everything has been freed, of all that was granted.
   */
  lemma RunsLeaveMaximalRuns(base: int, answers: Answers, ops: seq<Op>, hs: seq<Heap>, blocks: seq<Block>)
    requires IsRun(base, answers, ops, hs)
    ensures var h := hs[|ops|];
            && h.ring.blocks != [] && h.ring.blocks[0] == Block(base, 0)
            && (h.ring.blocks[1..] == blocks <==> MaximalRuns(blocks, Unused(h)))
            && (h.live == map[] ==> Unused(h) == iset u | u in h.os.granted)
  {
    var h := hs[|ops|];
    RunsStayValid(base, answers, ops, hs, |ops|);
    var free := h.ring.blocks[1..];
    SeparatedSlice(h.ring.blocks, 1, |h.ring.blocks|);
    assert h.ring.blocks[1..|h.ring.blocks|] == free;
    forall u
      ensures Covers(free, u) <==> u in Unused(h)
    {
      FreeOrLive(h, u);
      BehindMarker(h.ring, u);
    }
    if MaximalRuns(blocks, Unused(h)) {
      Canonical(free, blocks);
    }
  }

  /** The marker covers nothing. */
  lemma BehindMarker(r: Ring, u: int)
    requires WellFormed(r)
    ensures Covers(r.blocks[1..], u) <==> Covers(r.blocks, u)
  {
    CoversTail(r.blocks, u);
  }

  // ---------------------------------------------------------------- malloc, free and malloc

  /** One fresh region, all of it free. */
  lemma OneRegion(base: int, os: Os, c: int, ask: nat)
    requires base < c && 1 <= ask
    requires |os.granted| <= MAX_UNITS && forall u :: u in os.granted <==> c <= u < c + ask
    ensures Valid(Heap(Ring([Block(base, 0), Block(c, ask)], 0), map[], os))
  {
    var h := Heap(Ring([Block(base, 0), Block(c, ask)], 0), map[], os);
    forall u
      ensures u in os.granted <==> Covers(h.ring.blocks, u) || LiveHas(h.live, u)
    {
      assert h.ring.blocks[1].Has(u) <==> c <= u < c + ask;
      assert !h.ring.blocks[0].Has(u);
    }
  }

  lemma OnlyNode(h: Heap, answers: Answers, n: nat)
    requires Valid(h) && |h.ring.blocks| == 2 && 1 <= n <= h.ring.blocks[1].size
    ensures Malloc(h, answers, n) == (Take(h, 1, n), Some(h.ring.blocks[1].End() - n))
  {
    assert NextFit(h.ring, n) == Some(1);
  }

  /** With nothing live, one region granted is one free block, whose tail end is served. */
  lemma Rejoined(h: Heap, answers: Answers, n: nat, c: int, ask: nat)
    requires Valid(h) && h.Base() < c && h.live == map[] && 1 <= n <= ask
    requires forall u :: u in h.os.granted <==> c <= u < c + ask
    ensures Malloc(h, answers, n).0.live == map[c + ask - n := n]
  {
    OneRegion(h.Base(), h.os, c, ask);
    hide Malloc;
    FreeListIsDetermined(h, Heap(Ring([Block(h.Base(), 0), Block(c, ask)], 0), map[], h.os));
    OnlyNode(h, answers, n);
  }

  lemma FirstBlock(base: int, answers: Answers, n: nat, c: int, h: Heap)
    requires 1 <= n && Willing(Initial(base, Os({}, 0)), answers, if n < 1024 then 1024 else n, c)
    requires Valid(Initial(base, Os({}, 0))) && h == Malloc(Initial(base, Os({}, 0)), answers, n).0
    ensures var ask := if n < 1024 then 1024 else n;
            && Valid(h) && |h.ring.blocks| > 0 && h.Base() == base < c && h.live == map[c + ask - n := n]
            && forall u :: u in h.os.granted <==> c <= u < c + ask
  {
    hide Malloc;
    FirstMalloc(base, answers, n, c);
    GrowthIsExact(Initial(base, Os({}, 0)), answers, n, c);
    MallocIsSafe(Initial(base, Os({}, 0)), answers, n);
  }

  lemma FreedBlock(h: Heap, a: int)
    requires Valid(h) && a in h.live
    ensures var g := Free(h, a); Valid(g) && g.Base() == h.Base() && g.live == h.live - {a} && g.os == h.os
  {
    FreeKeepsValid(h, a);
  }

  /** The first malloc of all, its free, and the same malloc again: the same block is handed out twice. */
  lemma FreedIsServedAgain(base: int, answers: Answers, nbytes: nat, c: int, ask: nat, ops: seq<Op>, hs: seq<Heap>)
    requires ask == (if Units(nbytes) < 1024 then 1024 else Units(nbytes))
    requires Willing(Initial(base, Os({}, 0)), answers, ask, c)
    requires IsRun(base, answers, ops, hs)
    requires ops == [Alloc(nbytes), Dealloc(c + ask - Units(nbytes)), Alloc(nbytes)]
    ensures hs[1].live == hs[3].live == map[c + ask - Units(nbytes) := Units(nbytes)] && hs[2].live == map[]
  {
    hide Valid, Willing, Malloc, Free, Units, IsRun;
    var n := Units(nbytes);
    ThreeSteps(base, answers, nbytes, c + ask - n, ops, hs);
    FirstBlock(base, answers, n, c, hs[1]);
    FreedBlock(hs[1], c + ask - n);
    assert hs[2].live == map[];
    Rejoined(hs[2], answers, n, c, ask);
  }

  lemma ThreeSteps(base: int, answers: Answers, nbytes: nat, a: int, ops: seq<Op>, hs: seq<Heap>)
    requires IsRun(base, answers, ops, hs) && ops == [Alloc(nbytes), Dealloc(a), Alloc(nbytes)]
    ensures |hs| == 4 && hs[0] == Initial(base, Os({}, 0)) && Valid(hs[0])
    ensures hs[1] == Malloc(hs[0], answers, Units(nbytes)).0
    ensures Valid(hs[1]) ==> a in hs[1].live && hs[2] == Free(hs[1], a)
    ensures Valid(hs[2]) ==> hs[3] == Malloc(hs[2], answers, Units(nbytes)).0
  {
    hide Valid, Malloc, Free, Units;
    InitialIsValid(base, 0);
    assert StepsTo(hs[0], answers, ops[0], hs[0 + 1]);
    assert StepsTo(hs[1], answers, ops[1], hs[1 + 1]);
    assert StepsTo(hs[2], answers, ops[2], hs[2 + 1]);
  }
}
