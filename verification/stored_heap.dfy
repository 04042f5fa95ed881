/**
  A heap as it is stored in memory: block headers threading the free list, a size in the header of
  every live block, and the roving pointer.  The lemmas say what each group of header writes and
  each turn of a search does to the heap stored.
 */
module StoredHeap {
  import opened Options
  import opened FreeList
  import opened HeapModel
  import opened HeaderMemory

  /** The free list is threaded through memory, and the header of every live block holds its size. */
  ghost predicate StoredAs(h: Heap, freep: int, m: Headers) {
    && WellFormed(h.ring) && NULL < h.Base()
    && (forall a :: a in h.live ==> Apart(h.ring, Block(a, h.live[a])) && a in m.size && m.size[a] == h.live[a])
    && (if freep == NULL then h.ring == Ring([Block(h.Base(), 0)], 0) && h.live == map[]
        else Threaded(h.ring, freep, m))
  }

  /** The header writes that hand out n units of node j store the heap that Take describes. */
  lemma TakeIsStored(h: Heap, freep: int, m: Headers, j: nat, n: nat)
    requires HeapModel.Valid(h) && StoredAs(h, freep, m) && freep != NULL
    requires 1 <= j < |h.ring.blocks| && 1 <= n <= h.ring.blocks[j].size
    ensures var (prev, p) := (h.ring.blocks[j - 1].addr, h.ring.blocks[j].addr);
            && m.Has(prev) && m.Has(p) && m.size[p] == h.ring.blocks[j].size && prev != NULL
            && HeapModel.Valid(Take(h, j, n)) && Take(h, j, n).Base() == h.Base()
            && StoredAs(Take(h, j, n), prev, CarveHeaders(m, prev, p, n))
            && CarveHeaders(m, prev, p, n)
               == (if m.size[p] == n then m.SetPtr(prev, m.ptr[p])
                   else m.SetSize(p, m.size[p] - n).SetSize(p + (m.size[p] - n), n))
            && Carving(h.ring, j, n).addr == p + (m.size[p] - n) && Take(h, j, n).os == h.os
  {
    TakeKeepsValid(h, j, n);
    CarveThreads(h.ring, freep, j, n, m);
    AddressesAreAboveNull(h.ring, j - 1);
    var m' := CarveHeaders(m, h.ring.blocks[j - 1].addr, h.ring.blocks[j].addr, n);
    forall a | a in h.live
      ensures a in m'.size && m'.size[a] == h.live[a]
    {
      CarvedIsNotLive(h, j, n);
      assert Apart(h.ring, Block(a, h.live[a]));
    }
  }

  lemma AddressesAreAboveNull(r: Ring, k: nat)
    requires WellFormed(r) && NULL < r.blocks[0].addr && k < |r.blocks|
    ensures NULL < r.blocks[k].addr
  {
    assert k > 0 ==> r.blocks[0].End() < r.blocks[k].addr;
  }

  /** The heap with block b on the free list, and no longer live if it was. */
  ghost function Put(h: Heap, b: Block): Heap
    requires WellFormed(h.ring) && Apart(h.ring, b)
  {
    h.(ring := Release(h.ring, b), live := h.live - {b.addr})
  }

  /** Block b can be put back: it is clear of the list and of every other live block, and its header holds its size. */
  ghost predicate CanPut(h: Heap, m: Headers, b: Block) {
    && Apart(h.ring, b) && b.addr in m.size && m.size[b.addr] == b.size
    && forall c :: c in h.live && c != b.addr ==> Block(c, h.live[c]).End() <= b.addr || b.End() <= c
  }

  /** The header writes of simple_free store the heap with block b put back. */
  lemma PutIsStored(h: Heap, freep: int, m: Headers, b: Block)
    requires StoredAs(h, freep, m) && freep != NULL && CanPut(h, m, b)
    ensures WellFormed(h.ring) && Apart(h.ring, b) && 1 <= Slot(h.ring.blocks, b.addr)
    ensures var p := h.ring.blocks[Slot(h.ring.blocks, b.addr) - 1].addr;
            && m.Has(p) && m.Has(m.ptr[p]) && p != NULL
            && var m1 := LinkUpper(m, b.addr, m.ptr[p]);
            && m1.Has(b.addr) && m1.Has(p)
            && |Put(h, b).ring.blocks| > 0
            && StoredAs(Put(h, b), p, LinkLower(m1, b.addr, p))
            && Put(h, b).Base() == h.Base() && Put(h, b).os == h.os
  {
    ReleaseThreads(h.ring, freep, b, m);
    ReleaseKeepsWellFormed(h.ring, b);
    AddressesAreAboveNull(h.ring, Slot(h.ring.blocks, b.addr) - 1);
    forall c | c in h.live && c != b.addr
      ensures Apart(Release(h.ring, b), Block(c, h.live[c]))
    {
      StillApart(h.ring, b, Block(c, h.live[c]));
    }
    ListIsNotLive(h, freep, m, Slot(h.ring.blocks, b.addr) - 1);
  }

  lemma ListIsNotLive(h: Heap, freep: int, m: Headers, k: nat)
    requires StoredAs(h, freep, m) && k < |h.ring.blocks|
    ensures h.ring.blocks[k].addr !in h.live
  {
  }

  lemma LiveCanBePut(h: Heap, freep: int, m: Headers, a: int)
    requires HeapModel.Valid(h) && StoredAs(h, freep, m) && a in h.live
    ensures CanPut(h, m, Block(a, m.size[a])) && HeapModel.Valid(Put(h, Block(a, m.size[a])))
    ensures Put(h, Block(a, m.size[a])) == HeapModel.Free(h, a)
  {
    FreeKeepsValid(h, a);
  }

  /** Writing the size of a fresh region leaves the stored heap as it is. */
  lemma FreshHeaderIsUnused(h: Heap, freep: int, m: Headers, a: int, nu: nat)
    requires HeapModel.Valid(h) && StoredAs(h, freep, m) && freep != NULL
    requires 1 <= nu && Grantable(h.Base(), h.os, a, nu)
    ensures StoredAs(h, freep, m.SetSize(a, nu)) && CanPut(h, m.SetSize(a, nu), Block(a, nu))
    ensures forall os :: CanPut(h.(os := os), m.SetSize(a, nu), Block(a, nu))
                         && Put(h.(os := os), Block(a, nu)) == Grow(h, os, a, nu)
  {
    GrantedIsApart(h, a, nu);
    assert forall i :: 0 <= i < |h.ring.blocks| ==> h.ring.blocks[i].addr !in {a};
    ChainFrame(h.ring.blocks, h.Base(), m, m.SetSize(a, nu), {a});
    assert forall c :: c in h.live ==> 1 <= Block(c, h.live[c]).size;
    assert h.live - {a} == h.live;
  }

  /** The list after its marker has been linked to itself. */
  lemma MarkerAlone(h: Heap, m: Headers)
    requires StoredAs(h, NULL, m)
    ensures h.Base() != NULL
    ensures StoredAs(h, h.Base(), m.SetPtr(h.Base(), h.Base()).SetSize(h.Base(), 0))
  {
    var m' := m.SetPtr(h.Base(), h.Base()).SetSize(h.Base(), 0);
    assert Node(h.ring.blocks, 0, h.Base(), m');
  }

  /** What a malloc that the list can serve leaves and returns. */
  ghost function Served(h: Heap, n: nat): (Heap, Option<int>)
    requires HeapModel.Valid(h) && 1 <= n && NextFit(h.ring, n).Some?
  {
    (Take(h, NextFit(h.ring, n).value, n), Some(Carving(h.ring, NextFit(h.ring, n).value, n).addr))
  }

  lemma FitIsServed(h: Heap, answers: Answers, n: nat)
    requires HeapModel.Valid(h) && 1 <= n && NextFit(h.ring, n).Some?
    ensures HeapModel.Malloc(h, answers, n) == Served(h, n)
    ensures var j := NextFit(h.ring, n).value;
            j >= 1 && Served(h, n) == (Take(h, j, n), Some(Carving(h.ring, j, n).addr))
  {
  }

  lemma RefusalKeepsValid(h: Heap, calls: nat)
    requires HeapModel.Valid(h)
    ensures HeapModel.Valid(h.(os := h.os.(calls := calls)))
  {
  }

  lemma GrownIsServed(h: Heap, answers: Answers, n: nat)
    requires HeapModel.Valid(h) && 1 <= n && NextFit(h.ring, n).None?
    ensures var (os, cp) := Sbrk(answers, h.Base(), h.os, AskFor(n));
            && (cp.None? ==> HeapModel.Malloc(h, answers, n) == (h.(os := os), None))
            && (cp.Some? ==>
                  && Apart(h.ring, Block(cp.value, AskFor(n)))
                  && var g := Grow(h, os, cp.value, AskFor(n));
                  && HeapModel.Valid(g) && NextFit(g.ring, n).Some?
                  && HeapModel.Malloc(h, answers, n) == Served(g, n))
  {
    var (os, cp) := Sbrk(answers, h.Base(), h.os, AskFor(n));
    if cp.Some? {
      GrowKeepsValid(h, os, cp.value, AskFor(n));
      ReleaseMakesRoom(h.ring, Block(cp.value, AskFor(n)), n);
    }
  }

  /** At distance d the search either ends at the node there or goes on from the next one. */
  lemma SearchStep(r: Ring, n: nat, d: nat)
    requires r.rover < |r.blocks| && 1 <= d <= |r.blocks|
    requires Search(r, n, d) == NextFit(r, n)
    ensures var j := Ahead(r.rover, d, |r.blocks|);
            if n <= r.blocks[j].size then NextFit(r, n) == Some(j)
            else if d < |r.blocks| then Search(r, n, d + 1) == NextFit(r, n)
            else NextFit(r, n) == None
  {
  }

  /** Following the pointer of the node at distance d leads to the node at distance d + 1. */
  lemma PtrStep(r: Ring, freep: int, m: Headers, d: nat)
    requires Threaded(r, freep, m) && d < |r.blocks|
    ensures var p := r.blocks[Ahead(r.rover, d, |r.blocks|)].addr;
            && m.Has(p) && m.size[p] == r.blocks[Ahead(r.rover, d, |r.blocks|)].size
            && m.ptr[p] == r.blocks[Ahead(r.rover, d + 1, |r.blocks|)].addr
  {
    assert Node(r.blocks, Ahead(r.rover, d, |r.blocks|), r.blocks[0].addr, m);
  }

  lemma NodeHeader(r: Ring, freep: int, m: Headers, k: nat)
    requires Threaded(r, freep, m) && k < |r.blocks|
    ensures m.Has(r.blocks[k].addr) && m.size[r.blocks[k].addr] == r.blocks[k].size
    ensures m.ptr[r.blocks[k].addr] == r.blocks[Next(k, |r.blocks|)].addr
  {
    assert Node(r.blocks, k, r.blocks[0].addr, m);
  }

  /** The search is back at the roving pointer exactly after a full lap. */
  lemma LapEndsAtRover(r: Ring, d: nat)
    requires WellFormed(r) && 1 <= d <= |r.blocks|
    ensures r.blocks[Ahead(r.rover, d, |r.blocks|)].addr == r.blocks[r.rover].addr <==> d == |r.blocks|
  {
    var j := Ahead(r.rover, d, |r.blocks|);
    if j < r.rover { assert r.blocks[j].End() < r.blocks[r.rover].addr; }
    if r.rover < j { assert r.blocks[r.rover].End() < r.blocks[j].addr; }
  }

  /** The insertion search for block b has come to p, node k of the list. */
  ghost predicate Seek(h: Heap, freep: int, m: Headers, b: Block, k: nat, p: int) {
    && StoredAs(h, freep, m) && freep != NULL && CanPut(h, m, b)
    && k < |h.ring.blocks| && p == h.ring.blocks[k].addr
  }

  /** How many more nodes the insertion search passes before it stops. */
  ghost function SeekLeft(h: Heap, b: Block, k: nat): int
    requires WellFormed(h.ring)
  {
    var at := Slot(h.ring.blocks, b.addr) - 1;
    if k <= at then at - k else at - k + |h.ring.blocks|
  }

  lemma SeekStart(h: Heap, freep: int, m: Headers, b: Block) returns (k: nat)
    requires StoredAs(h, freep, m) && freep != NULL && CanPut(h, m, b)
    ensures Seek(h, freep, m, b, k, freep) && m.Has(freep) && k < |h.ring.blocks| && WellFormed(h.ring)
  {
    k := h.ring.rover;
    NodeHeader(h.ring, freep, m, k);
  }

  /** Less than a lap of the insertion search is left: it stops, at the node before b, or comes one node closer. */
  lemma SeekStep(h: Heap, freep: int, m: Headers, b: Block, k: nat, p: int)
    requires Seek(h, freep, m, b, k, p)
    ensures m.Has(p) && WellFormed(h.ring) && k < |h.ring.blocks| && 0 <= SeekLeft(h, b, k) < |h.ring.blocks|
    ensures StopsAt(p, m.ptr[p], b.addr) ==>
              1 <= Slot(h.ring.blocks, b.addr) && p == h.ring.blocks[Slot(h.ring.blocks, b.addr) - 1].addr
    ensures !StopsAt(p, m.ptr[p], b.addr) ==>
              && Seek(h, freep, m, b, Next(k, |h.ring.blocks|), m.ptr[p])
              && 0 <= SeekLeft(h, b, Next(k, |h.ring.blocks|)) < SeekLeft(h, b, k)
  {
    NodeHeader(h.ring, freep, m, k);
    StopsOnlyBefore(h.ring, b, k);
  }

  /** The search for n units has come d nodes past the roving pointer: p is that node, prevp the one before. */
  ghost predicate Lap(h: Heap, freep: int, m: Headers, n: nat, d: nat, prevp: int, p: int) {
    && StoredAs(h, freep, m) && freep != NULL && 1 <= d <= |h.ring.blocks|
    && prevp == h.ring.blocks[Ahead(h.ring.rover, d - 1, |h.ring.blocks|)].addr
    && p == h.ring.blocks[Ahead(h.ring.rover, d, |h.ring.blocks|)].addr
    && Search(h.ring, n, d) == NextFit(h.ring, n)
  }

  lemma LapStart(h: Heap, freep: int, m: Headers, n: nat)
    requires StoredAs(h, freep, m) && freep != NULL
    ensures m.Has(freep) && Lap(h, freep, m, n, 1, freep, m.ptr[freep]) && h.ring.rover < |h.ring.blocks|
  {
    PtrStep(h.ring, freep, m, 0);
  }

  /** One turn of the search: the node fits and is the next fit, or the lap is over and nothing fits, or it goes on. */
  lemma LapStep(h: Heap, freep: int, m: Headers, n: nat, d: nat, prevp: int, p: int)
    requires Lap(h, freep, m, n, d, prevp, p) && 1 <= n
    ensures m.Has(p) && h.ring.rover < |h.ring.blocks| && d <= |h.ring.blocks|
    ensures m.size[p] >= n ==>
              && var j := Ahead(h.ring.rover, d, |h.ring.blocks|);
              && NextFit(h.ring, n) == Some(j) && 1 <= j
              && n <= h.ring.blocks[j].size && prevp == h.ring.blocks[j - 1].addr && p == h.ring.blocks[j].addr
    ensures m.size[p] < n && p == freep ==> NextFit(h.ring, n) == None
    ensures m.size[p] < n && p != freep ==> d < |h.ring.blocks| && Lap(h, freep, m, n, d + 1, p, m.ptr[p])
  {
    NodeHeader(h.ring, freep, m, Ahead(h.ring.rover, d, |h.ring.blocks|));
    SearchStep(h.ring, n, d);
    LapEndsAtRover(h.ring, d);
    if d < |h.ring.blocks| {
      PtrStep(h.ring, freep, m, d);
    }
  }

  /** The heap determines the roving pointer and every header field that means anything. */
  lemma StorageIsDetermined(h: Heap, freep: int, m: Headers, freep': int, m': Headers)
    requires StoredAs(h, freep, m) && StoredAs(h, freep', m') && freep != NULL && freep' != NULL
    ensures freep == freep'
    ensures forall b :: b in h.ring.blocks ==>
              && m.Has(b.addr) && m'.Has(b.addr)
              && m.ptr[b.addr] == m'.ptr[b.addr] && m.size[b.addr] == m'.size[b.addr]
    ensures forall a :: a in h.live ==> a in m.size && a in m'.size && m.size[a] == m'.size[a]
  {
    forall b | b in h.ring.blocks
      ensures m.Has(b.addr) && m'.Has(b.addr) && m.ptr[b.addr] == m'.ptr[b.addr] && m.size[b.addr] == m'.size[b.addr]
    {
      var k :| 0 <= k < |h.ring.blocks| && h.ring.blocks[k] == b;
      NodeHeader(h.ring, freep, m, k);
      NodeHeader(h.ring, freep', m', k);
    }
  }

  /** Every size a header holds fits in 31 bits, so 32-bit sizes, signed or not, never wrap. */
  lemma SizesFit(h: Heap)
    requires HeapModel.Valid(h)
    ensures forall i :: 0 <= i < |h.ring.blocks| ==> h.ring.blocks[i].size <= MAX_UNITS
    ensures forall a :: a in h.live ==> h.live[a] <= MAX_UNITS
  {
    forall i | 0 <= i < |h.ring.blocks|
      ensures h.ring.blocks[i].size <= MAX_UNITS
    {
      assert forall u :: h.ring.blocks[i].Has(u) ==> Covers(h.ring.blocks, u);
      BlockFits(h, h.ring.blocks[i]);
    }
    forall a | a in h.live
      ensures h.live[a] <= MAX_UNITS
    {
      assert forall u :: Block(a, h.live[a]).Has(u) ==> LiveHas(h.live, u);
      BlockFits(h, Block(a, h.live[a]));
    }
  }

  lemma BlockFits(h: Heap, b: Block)
    requires HeapModel.Valid(h) && forall u :: b.Has(u) ==> u in h.os.granted
    ensures b.size <= MAX_UNITS
  {
    RegionSize(b.addr, b.size);
    assert forall u :: u in Region(b.addr, b.size) ==> Block(b.addr, b.size).Has(u);
    var granted, region := h.os.granted, Region(b.addr, b.size);
    assert granted == region + (granted - region);
  }
}
