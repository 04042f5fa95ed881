/**
  What the allocator promises, over values: the free list, the live blocks and the units the
  operating system has granted.  `simple_malloc`, `morecore` and `simple_free` are stated here as
  functions on such a heap; the allocators that work on headers in memory are proved against them.
 */
module HeapModel {
  import opened Options
  import opened FreeList

  const HEADER_SIZE := 16
  const NALLOC := 1024  // least number of units asked of the system
  const MAX_UNITS := 0x7FFF_FFFF

  /** The system's side: the units granted so far and the number of requests made. */
  datatype Os = Os(granted: set<int>, calls: nat)

  /** What the system would answer to its k-th request, for nu units; None stands for failure. */
  type Answers = (nat, nat) -> Option<int>

  datatype Heap = Heap(ring: Ring, live: map<int, nat>, os: Os) {
    function Base(): int
      requires |ring.blocks| > 0
    {
      ring.blocks[0].addr
    }
  }

  ghost predicate LiveHas(live: map<int, nat>, u: int) {
    exists a :: a in live && Block(a, live[a]).Has(u)
  }

  /** Free and live blocks are pairwise disjoint and together tile exactly the granted units. */
  ghost predicate Valid(h: Heap) {
    && WellFormed(h.ring)
    && (forall a :: a in h.live ==> Apart(h.ring, Block(a, h.live[a])))
    && (forall a, c :: a in h.live && c in h.live && a < c ==> Block(a, h.live[a]).End() <= c)
    && (forall u :: u in h.os.granted <==> Covers(h.ring.blocks, u) || LiveHas(h.live, u))
    && |h.os.granted| <= MAX_UNITS
  }

  /** The heap before the first request: the marker alone. */
  function Initial(base: int, os: Os): (h: Heap) {
    Heap(Ring([Block(base, 0)], 0), map[], os)
  }

  lemma InitialIsValid(base: int, calls: nat)
    ensures Valid(Initial(base, Os({}, calls)))
  {
  }

  /** Units needed for nbytes of payload and a header. */
  function Units(nbytes: nat): (n: nat)
    ensures 1 <= n
  {
    (nbytes + HEADER_SIZE - 1) / HEADER_SIZE + 1
  }

  /** The block is exactly large enough: its payload holds nbytes, and one unit less would not. */
  lemma UnitsAreTight(nbytes: nat)
    ensures nbytes <= (Units(nbytes) - 1) * 16 < nbytes + 16
    ensures nbytes < 0x1_0000_0000 ==> Units(nbytes) <= 0x1000_0001
  {
  }

  function Region(a: int, n: nat): (s: set<int>) {
    set u | a <= u < a + n && Block(a, n).Has(u)
  }

  /** A region can be granted: it lies above the marker, is unused so far and fits in 31 bits of units. */
  predicate Grantable(base: int, os: Os, a: int, nu: nat) {
    base < a && os.granted !! Region(a, nu) && |os.granted| + nu <= MAX_UNITS
  }

  /** sbrk: a fresh region of nu units, wherever the system chooses, or failure. */
  function Sbrk(answers: Answers, base: int, os: Os, nu: nat): (r: (Os, Option<int>))
    ensures r.1.Some? ==> r.1 == answers(os.calls, nu) && Grantable(base, os, r.1.value, nu)
    ensures r.1.None? ==> answers(os.calls, nu).None? || !Grantable(base, os, answers(os.calls, nu).value, nu)
    ensures forall u :: u in r.0.granted <==> u in os.granted || (r.1.Some? && r.1.value <= u < r.1.value + nu)
  {
    var answer := answers(os.calls, nu);
    if answer.Some? && Grantable(base, os, answer.value, nu) then
      (Os(os.granted + Region(answer.value, nu), os.calls + 1), answer)
    else
      (os.(calls := os.calls + 1), None)
  }

  /** The heap after a fresh region went onto the free list. */
  function Grow(h: Heap, os: Os, a: int, nu: nat): Heap
    requires WellFormed(h.ring) && Apart(h.ring, Block(a, nu))
  {
    h.(ring := Release(h.ring, Block(a, nu)), os := os)
  }

  /** The heap after n units were carved off node j and handed out. */
  function Take(h: Heap, j: nat, n: nat): Heap
    requires 1 <= j < |h.ring.blocks| && n <= h.ring.blocks[j].size
  {
    h.(ring := Carve(h.ring, j, n), live := h.live[Carving(h.ring, j, n).addr := n])
  }

  /** How many units the system is asked for: as many as are needed, but no fewer than 1024. */
  function AskFor(n: nat): (r: nat)
    ensures n <= r && 1024 <= r && (r == n || r == 1024)
  {
    if n < NALLOC then NALLOC else n
  }

  /** simple_malloc: next fit, asking the system once when nothing fits; the result is the block's address. */
  function Malloc(h: Heap, answers: Answers, n: nat): (r: (Heap, Option<int>))
    requires Valid(h) && 1 <= n
  {
    var fit := NextFit(h.ring, n);
    if fit.Some? then
      (Take(h, fit.value, n), Some(Carving(h.ring, fit.value, n).addr))
    else
      var (os, cp) := Sbrk(answers, h.Base(), h.os, AskFor(n));
      if cp.None? then (h.(os := os), None)
      else
        GrantedIsApart(h, cp.value, AskFor(n));
        ReleaseMakesRoom(h.ring, Block(cp.value, AskFor(n)), n);
        var g := Grow(h, os, cp.value, AskFor(n));
        var j := NextFit(g.ring, n).value;
        (Take(g, j, n), Some(Carving(g.ring, j, n).addr))
  }

  /** simple_free of the live block at address a. */
  function Free(h: Heap, a: int): Heap
    requires Valid(h) && a in h.live
  {
    h.(ring := Release(h.ring, Block(a, h.live[a])), live := h.live - {a})
  }

  // ---------------------------------------------------------------- disjointness, unit by unit

  lemma ApartUnits(r: Ring, b: Block)
    requires |r.blocks| >= 1 && r.blocks[0].size == 0 && 1 <= b.size && r.blocks[0].addr < b.addr
    ensures Apart(r, b) ==> forall u :: b.Has(u) ==> !Covers(r.blocks, u)
    ensures (forall i :: 1 <= i < |r.blocks| ==> 1 <= r.blocks[i].size) ==>
              (forall u :: b.Has(u) ==> !Covers(r.blocks, u)) ==> Apart(r, b)
  {
    if (forall i :: 1 <= i < |r.blocks| ==> 1 <= r.blocks[i].size) && forall u :: b.Has(u) ==> !Covers(r.blocks, u) {
      forall i | 1 <= i < |r.blocks|
        ensures b.End() <= r.blocks[i].addr || r.blocks[i].End() <= b.addr
      {
        assert r.blocks[i].Has(r.blocks[i].addr) && Covers(r.blocks, r.blocks[i].addr);
        assert b.Has(b.addr) && !r.blocks[i].Has(b.addr);
      }
    }
  }

  lemma GrantedIsApart(h: Heap, a: int, nu: nat)
    requires Valid(h) && 1 <= nu && Grantable(h.Base(), h.os, a, nu)
    ensures Apart(h.ring, Block(a, nu))
    ensures forall c :: c in h.live ==> Block(c, h.live[c]).End() <= a || a + nu <= c
  {
    var b := Block(a, nu);
    assert forall u :: b.Has(u) <==> u in Region(a, nu);
    ApartUnits(h.ring, b);
    forall c | c in h.live
      ensures Block(c, h.live[c]).End() <= a || a + nu <= c
    {
      assert Block(c, h.live[c]).Has(c);
      assert LiveHas(h.live, c);
      assert b.Has(a) && !LiveHas(h.live, a);
      assert !Block(c, h.live[c]).Has(a);
    }
  }

  // ---------------------------------------------------------------- every operation keeps the heap valid

  lemma GrowKeepsValid(h: Heap, os: Os, a: int, nu: nat)
    requires Valid(h) && 1 <= nu && Grantable(h.Base(), h.os, a, nu)
    requires os.granted == h.os.granted + Region(a, nu)
    ensures Apart(h.ring, Block(a, nu)) && Valid(Grow(h, os, a, nu)) && Grow(h, os, a, nu).Base() == h.Base()
  {
    GrantedIsApart(h, a, nu);
    var b := Block(a, nu);
    var g := Grow(h, os, a, nu);
    ReleaseKeepsWellFormed(h.ring, b);
    forall u
      ensures u in os.granted <==> Covers(g.ring.blocks, u) || LiveHas(h.live, u)
    {
      ReleaseCovers(h.ring, b, u);
    }
    forall c | c in h.live
      ensures Apart(g.ring, Block(c, h.live[c]))
    {
      StillApart(h.ring, b, Block(c, h.live[c]));
    }
    RegionSize(a, nu);
  }

  lemma {:induction false} RegionSize(a: int, n: nat)
    ensures |Region(a, n)| == n
  {
    if n > 0 {
      RegionSize(a, n - 1);
      assert Region(a, n) == Region(a, n - 1) + {a + n - 1};
    } else {
      assert Region(a, n) == {};
    }
  }

  /** A block clear of the list and of b stays clear once b is on the list. */
  lemma StillApart(r: Ring, b: Block, c: Block)
    requires WellFormed(r) && Apart(r, b) && Apart(r, c)
    requires c.End() <= b.addr || b.End() <= c.addr
    ensures Apart(Release(r, b), c)
  {
    ReleaseKeepsWellFormed(r, b);
    ApartUnits(r, c);
    forall u | c.Has(u)
      ensures !Covers(Release(r, b).blocks, u)
    {
      ReleaseCovers(r, b, u);
    }
    ApartUnits(Release(r, b), c);
  }

  lemma FreeKeepsValid(h: Heap, a: int)
    requires Valid(h) && a in h.live
    ensures Valid(Free(h, a)) && Free(h, a).Base() == h.Base()
  {
    var b := Block(a, h.live[a]);
    var g := Free(h, a);
    ReleaseKeepsWellFormed(h.ring, b);
    forall u
      ensures u in h.os.granted <==> Covers(g.ring.blocks, u) || LiveHas(g.live, u)
    {
      ReleaseCovers(h.ring, b, u);
      LiveWithout(h.live, a, u);
    }
    forall c | c in g.live
      ensures Apart(g.ring, Block(c, g.live[c]))
    {
      StillApart(h.ring, b, Block(c, h.live[c]));
    }
  }

  lemma LiveWithout(live: map<int, nat>, a: int, u: int)
    requires a in live
    ensures LiveHas(live, u) <==> LiveHas(live - {a}, u) || Block(a, live[a]).Has(u)
  {
    if LiveHas(live, u) && !Block(a, live[a]).Has(u) {
      var c :| c in live && Block(c, live[c]).Has(u);
      assert c in live - {a};
    }
    if LiveHas(live - {a}, u) {
      var c :| c in live - {a} && Block(c, (live - {a})[c]).Has(u);
      assert Block(c, live[c]).Has(u);
    }
  }

  lemma TakeKeepsValid(h: Heap, j: nat, n: nat)
    requires Valid(h) && 1 <= j < |h.ring.blocks| && 1 <= n <= h.ring.blocks[j].size
    ensures Valid(Take(h, j, n)) && Take(h, j, n).Base() == h.Base()
    ensures Carving(h.ring, j, n).addr !in h.live
  {
    CarveKeepsWellFormed(h.ring, j, n);
    CarvedIsNotLive(h, j, n);
    TakeTiles(h, j, n);
    TakeIsApart(h, j, n);
  }

  lemma TakeTiles(h: Heap, j: nat, n: nat)
    requires Valid(h) && 1 <= j < |h.ring.blocks| && 1 <= n <= h.ring.blocks[j].size
    ensures var g := Take(h, j, n); forall u :: u in h.os.granted <==> Covers(g.ring.blocks, u) || LiveHas(g.live, u)
  {
    var b := Carving(h.ring, j, n);
    var g := Take(h, j, n);
    CarvedIsNotLive(h, j, n);
    assert g.live - {b.addr} == h.live;
    forall u
      ensures u in h.os.granted <==> Covers(g.ring.blocks, u) || LiveHas(g.live, u)
    {
      CarveCovers(h.ring, j, n, u);
      LiveWithout(g.live, b.addr, u);
    }
  }

  lemma TakeIsApart(h: Heap, j: nat, n: nat)
    requires Valid(h) && 1 <= j < |h.ring.blocks| && 1 <= n <= h.ring.blocks[j].size
    ensures var g := Take(h, j, n); forall c :: c in g.live ==> Apart(g.ring, Block(c, g.live[c]))
  {
    var g := Take(h, j, n);
    ReleaseUndoesCarve(h.ring, j, n);
    forall c | c in h.live
      ensures Apart(g.ring, Block(c, h.live[c]))
    {
      ApartAfterCarve(h.ring, j, n, Block(c, h.live[c]));
    }
    CarvedIsNotLive(h, j, n);
  }

  /** A block clear of the list stays clear when a block is carved off it. */
  lemma ApartAfterCarve(r: Ring, j: nat, n: nat, c: Block)
    requires WellFormed(r) && Apart(r, c) && 1 <= j < |r.blocks| && 1 <= n <= r.blocks[j].size
    ensures Apart(Carve(r, j, n), c)
  {
    CarveKeepsWellFormed(r, j, n);
    ApartUnits(r, c);
    forall u | c.Has(u)
      ensures !Covers(Carve(r, j, n).blocks, u)
    {
      CarveCovers(r, j, n, u);
    }
    ApartUnits(Carve(r, j, n), c);
  }

  /** The carved block is disjoint from every live block. */
  lemma CarvedIsNotLive(h: Heap, j: nat, n: nat)
    requires Valid(h) && 1 <= j < |h.ring.blocks| && 1 <= n <= h.ring.blocks[j].size
    ensures var b := Carving(h.ring, j, n);
            && b.addr !in h.live
            && forall c :: c in h.live ==> Block(c, h.live[c]).End() <= b.addr || b.End() <= c
  {
  }

  /**
    A malloc keeps the heap valid.  On success the new block has n units, disjoint from every block
    that was live, and the live blocks are otherwise the same; on failure no block has changed.
   */
  lemma MallocIsSafe(h: Heap, answers: Answers, n: nat)
    requires Valid(h) && 1 <= n
    ensures var (g, a) := Malloc(h, answers, n);
            && Valid(g) && g.Base() == h.Base()
            && (a.None? ==> g == h.(os := g.os) && g.os.granted == h.os.granted)
            && (a.Some? ==>
                  && g.live == h.live[a.value := n] && a.value !in h.live
                  && forall c :: c in h.live ==> Block(c, h.live[c]).End() <= a.value || a.value + n <= c)
  {
    hide Separated, Release, Carve, Covers;
    var fit := NextFit(h.ring, n);
    if fit.Some? {
      TakeKeepsValid(h, fit.value, n);
      CarvedIsNotLive(h, fit.value, n);
    } else {
      var nu := AskFor(n);
      var (os, cp) := Sbrk(answers, h.Base(), h.os, nu);
      if cp.Some? {
        GrowKeepsValid(h, os, cp.value, nu);
        var g := Grow(h, os, cp.value, nu);
        ReleaseMakesRoom(h.ring, Block(cp.value, nu), n);
        TakeKeepsValid(g, NextFit(g.ring, n).value, n);
        CarvedIsNotLive(g, NextFit(g.ring, n).value, n);
      }
    }
  }

  /** The system is asked only when no block on the list is large enough, and then exactly once. */
  lemma MallocAsksOnlyWhenFull(h: Heap, answers: Answers, n: nat)
    requires Valid(h) && 1 <= n
    ensures var (g, a) := Malloc(h, answers, n);
            var full := forall k :: 0 <= k < |h.ring.blocks| ==> h.ring.blocks[k].size < n;
            && (full ==> g.os.calls == h.os.calls + 1)
            && (!full ==> g.os == h.os && a.Some?)
            && (a.None? <==> full && Sbrk(answers, h.Base(), h.os, AskFor(n)).1.None?)
  {
  }

  /** The system's next answer, to ask units, is c, above the marker, all unused, and within 2^31 units in all. */
  ghost predicate Willing(h: Heap, answers: Answers, ask: nat, c: int)
    requires |h.ring.blocks| > 0
  {
    && answers(h.os.calls, ask) == Some(c)
    && h.ring.blocks[0].addr < c && (forall u :: c <= u < c + ask ==> u !in h.os.granted)
    && |h.os.granted| + ask < 0x8000_0000
  }

  /**
    A malloc that nothing on the list can serve asks for the larger of 1024 and n units.  If the system is
    willing, the grants grow by exactly the units it answered with, and the block is the tail end of the
    free run around them; otherwise the malloc fails and no units are granted.
   */
  lemma GrowthIsExact(h: Heap, answers: Answers, n: nat, c: int)
    requires Valid(h) && 1 <= n && forall k :: 0 <= k < |h.ring.blocks| ==> h.ring.blocks[k].size < n
    ensures var (g, a) := Malloc(h, answers, n);
            var ask := if n < 1024 then 1024 else n;
            && (Willing(h, answers, ask, c) ==>
                  && a.Some?
                  && (forall u :: u in g.os.granted <==> u in h.os.granted || c <= u < c + ask)
                  && (forall k :: 0 <= k < |h.ring.blocks| && h.ring.blocks[k].addr == c + ask ==>
                        a.value + n == h.ring.blocks[k].End())
                  && ((forall k :: 0 <= k < |h.ring.blocks| ==> h.ring.blocks[k].addr != c + ask) ==>
                        a.value + n == c + ask))
            && (a.None? <==> forall d :: !Willing(h, answers, ask, d))
            && (a.None? ==> g.os.granted == h.os.granted)
  {
    hide Release, Carve, Separated;
    var ask := AskFor(n);
    var (os, cp) := Sbrk(answers, h.Base(), h.os, ask);
    forall d
      ensures Willing(h, answers, ask, d) <==> cp == Some(d)
    {
      WillingIs(h, answers, ask, d);
    }
    assert NextFit(h.ring, n).None?;
    if cp.Some? {
      assert Willing(h, answers, ask, cp.value);
      GrantedIsApart(h, cp.value, ask);
      OnlyReleasedFits(h.ring, Block(cp.value, ask), n);
    }
  }

  lemma WillingIs(h: Heap, answers: Answers, ask: nat, d: int)
    requires Valid(h) && 1 <= ask
    ensures Willing(h, answers, ask, d) <==> Sbrk(answers, h.Base(), h.os, ask).1 == Some(d)
  {
    hide Valid, WellFormed;
    assert forall u :: u in Region(d, ask) <==> d <= u < d + ask && Block(d, ask).Has(u);
  }

  /** The first malloc of all gets the tail end of the first region. */
  lemma FirstMalloc(base: int, answers: Answers, n: nat, c: int)
    requires 1 <= n
    ensures var h := Initial(base, Os({}, 0));
            var ask := if n < 1024 then 1024 else n;
            && Valid(h)
            && (Willing(h, answers, ask, c) ==> Malloc(h, answers, n).1 == Some(c + ask - n))
            && ((forall d :: !Willing(h, answers, ask, d)) ==> Malloc(h, answers, n).1 == None)
  {
    hide Valid, Malloc, Willing;
    InitialIsValid(base, 0);
    GrowthIsExact(Initial(base, Os({}, 0)), answers, n, c);
  }

  /** Two requests in a row that one free block can serve get adjacent blocks, the second below the first. */
  lemma ConsecutiveBlocksAreAdjacent(h: Heap, answers: Answers, n: nat, m: nat)
    requires Valid(h) && 1 <= n && 1 <= m && NextFit(h.ring, n).Some?
    requires n + m <= h.ring.blocks[NextFit(h.ring, n).value].size
    ensures var (g, a) := Malloc(h, answers, n);
            Valid(g) && a.Some? && Malloc(g, answers, m).1 == Some(a.value - m)
  {
    MallocIsSafe(h, answers, n);
    NextSearchResumes(h.ring, NextFit(h.ring, n).value, n, m);
  }

  /**
    What a client gets for nbytes: a payload of at least that many bytes right after the header, in granted
    units that are neither free nor part of any other live block.
   */
  lemma PayloadIsTheClients(h: Heap, answers: Answers, nbytes: nat, u: int)
    requires Valid(h)
    ensures var (g, a) := Malloc(h, answers, Units(nbytes));
            a.Some? ==>
              && a.value in g.live && nbytes <= (g.live[a.value] - 1) * HEADER_SIZE
              && (a.value + 1 <= u < a.value + g.live[a.value] ==>
                    u in g.os.granted && !Covers(g.ring.blocks, u) && !LiveHas(h.live, u))
  {
    var n := Units(nbytes);
    UnitsAreTight(nbytes);
    MallocIsSafe(h, answers, n);
    var (g, a) := Malloc(h, answers, n);
    if a.Some? && a.value + 1 <= u < a.value + n {
      OwnerHasUnits(h, g, a.value, n, u);
    }
  }

  lemma OwnerHasUnits(h: Heap, g: Heap, a: int, n: nat, u: int)
    requires Valid(g) && g.live == h.live[a := n] && a !in h.live && a <= u < a + n
    requires forall c :: c in h.live ==> Block(c, h.live[c]).End() <= a || a + n <= c
    ensures u in g.os.granted && !Covers(g.ring.blocks, u) && !LiveHas(h.live, u)
  {
    assert Block(a, g.live[a]).Has(u) && LiveHas(g.live, u);
    ApartUnits(g.ring, Block(a, n));
  }
}
