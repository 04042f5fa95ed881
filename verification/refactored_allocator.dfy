/**
  The refactored allocator: the same algorithm split into helpers, with sizes and unit counts
  passed as signed 32-bit integers.  It is proved against the same heap model as the original.
 */
module RefactoredMalloc {
  import opened Laws
  import opened FreeList
  import opened HeapModel
  import opened HeaderMemory
  import opened StoredHeap

  const TWO_31 := 0x8000_0000
  const TWO_32 := 0x1_0000_0000
  const TWO_64 := 0x1_0000_0000_0000_0000

  /** Conversion to a signed 32-bit integer. */
  function ToInt(x: int): int {
    var w := x % TWO_32;
    if w < TWO_31 then w else w - TWO_32
  }

  /** Conversion to an unsigned 32-bit integer. */
  function ToUnsigned(x: int): nat {
    x % TWO_32
  }

  /** bytes_to_number_of_units: the sum is taken in 64-bit unsigned arithmetic, the result cut to an int. */
  function BytesToNumberOfUnits(bytes: int): int {
    ToInt((bytes + HEADER_SIZE - 1) % TWO_64 / HEADER_SIZE + 1)
  }

  /** The number of units simple_malloc works with for a request of nbytes. */
  function UnitsToAllocate(nbytes: nat): nat {
    ToUnsigned(BytesToNumberOfUnits(ToInt(nbytes)))
  }

  /** What the detour yields from 2^31 bytes up: the sum wraps below zero, or, for the last 15 values, not at all. */
  lemma HugeRequests(nbytes: nat)
    requires TWO_31 <= nbytes < TWO_32
    ensures BytesToNumberOfUnits(ToInt(nbytes))
              == if nbytes < TWO_32 - 15 then (nbytes + 15) / 16 + 1 - TWO_32 / 16 else 1
  {
    hide ToInt;
    var x := nbytes - TWO_32;
    var k, rem := (nbytes + 15) / 16, (nbytes + 15) % 16;
    Int32(nbytes, 0, nbytes);
    if x + 15 < 0 {
      DivisionIsUnique(x + 15, TWO_64, -1, TWO_64 + x + 15);
      DivisionIsUnique(TWO_64 + x + 15, 16, TWO_64 / 16 - TWO_32 / 16 + k, rem);
      Int32(TWO_64 / 16 - TWO_32 / 16 + k + 1, 0x0FFF_FFFF, TWO_32 - TWO_32 / 16 + k + 1);
    } else {
      DivisionIsUnique(x + 15, TWO_64, 0, x + 15);
      Int32((x + 15) / 16 + 1, 0, 1);
    }
  }

  lemma Int32(a: int, q: int, r: int)
    requires a == TWO_32 * q + r && 0 <= r <= TWO_32
    ensures ToInt(a) == if r < TWO_31 then r else r - TWO_32
  {
    if r < TWO_32 { DivisionIsUnique(a, TWO_32, q, r); } else { DivisionIsUnique(a, TWO_32, q + 1, 0); }
  }

  /** The signed detour gives the original's unit count exactly for the requests below 2^31 bytes. */
  lemma UnitsAgreeBelowTwoGiB(nbytes: nat)
    requires nbytes < TWO_32
    ensures UnitsToAllocate(nbytes) == Units(nbytes) <==> nbytes < TWO_31
  {
    if nbytes < TWO_31 {
      SmallRequests(nbytes);
    } else {
      HugeRequests(nbytes);
    }
  }

  lemma SmallRequests(nbytes: nat)
    requires nbytes < TWO_31
    ensures UnitsToAllocate(nbytes) == Units(nbytes)
  {
    hide ToInt, ToUnsigned;
    IntBounds(nbytes);
    DivisionIsUnique(nbytes + 15, TWO_64, 0, nbytes + 15);
    UnitsAreTight(nbytes);
    IntBounds(Units(nbytes));
  }

  /** current_block_is_large_enough, on ints. */
  predicate LargeEnough(currentBlockSize: int, numberOfUnits: int) {
    currentBlockSize >= numberOfUnits
  }

  /**
    The size test judges every block size as the original's does if and only if the request is below 2^31
    bytes: for the last 15 values it lets a block of one unit pass, for the others above it any block.
   */
  lemma SizeTestAgreesBelowTwoGiB(nbytes: nat)
    requires nbytes < TWO_32
    ensures (forall size: nat :: size <= MAX_UNITS ==> (FitsRequest(size, nbytes) <==> size >= Units(nbytes)))
              <==> nbytes < TWO_31
  {
    hide FitsRequest;
    UnitsAreTight(nbytes);
    forall size: nat | size <= MAX_UNITS
      ensures FitsRequest(size, nbytes) <==> Unchecked(nbytes) || size >= UnitsServed(nbytes)
    {
      FitsAsServed(size, nbytes);
    }
    assert nbytes >= TWO_31 ==> FitsRequest(1, nbytes) && 1 < Units(nbytes);
  }

  /** The size test of the search loop, on a block size and a request in bytes. */
  predicate FitsRequest(size: nat, nbytes: nat) {
    LargeEnough(ToInt(size), ToInt(UnitsToAllocate(nbytes)))
  }

  /** The requests whose unit count, as an int, is not positive: from 2^31 bytes up, but for the last 15 values. */
  predicate Unchecked(nbytes: nat) {
    TWO_31 <= nbytes < TWO_32 - 15
  }

  /** Every block, even the zero-size marker, passes the size test exactly for the unchecked requests. */
  lemma EverySizeFitsUncheckedRequests(nbytes: nat)
    requires nbytes < TWO_32
    ensures (forall size: nat :: size <= MAX_UNITS ==> FitsRequest(size, nbytes)) <==> Unchecked(nbytes)
  {
    hide FitsRequest;
    forall size: nat | size <= MAX_UNITS
      ensures FitsRequest(size, nbytes) <==> Unchecked(nbytes) || size >= UnitsServed(nbytes)
    {
      FitsAsServed(size, nbytes);
    }
    assert FitsRequest(0, nbytes) <==> Unchecked(nbytes);
  }

  lemma FitsAsServed(size: nat, nbytes: nat)
    requires nbytes < TWO_32 && size <= MAX_UNITS
    ensures FitsRequest(size, nbytes) <==> Unchecked(nbytes) || size >= UnitsServed(nbytes)
  {
    hide ToInt, UnitsToAllocate;
    UnitCount(nbytes);
    IntBounds(size);
    IntBounds(UnitsToAllocate(nbytes));
  }

  lemma IntBounds(n: nat)
    requires n < TWO_32
    ensures -TWO_31 <= ToInt(n) < TWO_31 && ToUnsigned(ToInt(n)) == n
    ensures ToInt(n) >= 0 ==> ToInt(n) == n
    ensures n <= MAX_UNITS ==> ToInt(n) == n
  {
  }

  lemma ListHeader(h: Heap, freep: int, m: Headers, j: nat)
    requires HeapModel.Valid(h) && StoredAs(h, freep, m) && freep != NULL && j < |h.ring.blocks|
    ensures var b := h.ring.blocks[j]; m.Has(b.addr) && m.size[b.addr] == b.size <= MAX_UNITS && b.addr != NULL
  {
    SizesFit(h);
    NodeHeader(h.ring, freep, m, j);
    AddressesAreAboveNull(h.ring, j);
  }

  /** On a valid heap the signed size test of the search loop is the unsigned one. */
  lemma SizeTestIsExact(h: Heap, freep: int, m: Headers, n: nat, d: nat, prevp: int, p: int)
    requires HeapModel.Valid(h) && Lap(h, freep, m, n, d, prevp, p) && n <= MAX_UNITS
    ensures m.Has(p) && (LargeEnough(ToInt(m.size[p]), ToInt(n)) <==> m.size[p] >= n)
  {
    hide ToInt, HeapModel.Valid, WellFormed;
    ListHeader(h, freep, m, Ahead(h.ring.rover, d, |h.ring.blocks|));
    IntBounds(n);
    IntBounds(m.size[p]);
  }

  /** Only the sizes at the given addresses were written. */
  ghost predicate SameSizesBut(m: Headers, m': Headers, touched: set<int>) {
    forall a :: a !in touched ==> (a in m.size <==> a in m'.size) && (a in m.size ==> m'.size[a] == m.size[a])
  }

  lemma SizesWritten(m: Headers, m': Headers, p: int, q: int)
    requires m'.ptr == m.ptr && p in m'.size && q in m'.size && SameSizesBut(m, m', {p, q})
    ensures m' == m.SetSize(p, m'.size[p]).SetSize(q, m'.size[q])
  {
    var size := m.size[p := m'.size[p]][q := m'.size[q]];
    forall a
      ensures (a in m'.size <==> a in size) && (a in size ==> m'.size[a] == size[a])
    {
    }
    assert m'.size == size;
  }

  /** The units a checked request is served with: as by the original or, for the last 15 values, a bare header. */
  function UnitsServed(nbytes: nat): (n: nat)
    ensures 1 <= n
  {
    if nbytes < TWO_31 then Units(nbytes) else 1
  }

  /** By how many units the header for an unchecked request lies behind the end of a block. */
  function Excess(nbytes: nat): nat
    requires Unchecked(nbytes)
  {
    TWO_32 / 16 - 1 - (nbytes + 15) / 16
  }

  lemma UnitCount(nbytes: nat)
    requires nbytes < TWO_32
    ensures UnitsToAllocate(nbytes) < TWO_32
    ensures Unchecked(nbytes) ==> ToInt(UnitsToAllocate(nbytes)) == 0 - Excess(nbytes)
    ensures Unchecked(nbytes) && UnitsToAllocate(nbytes) <= MAX_UNITS ==> UnitsToAllocate(nbytes) == Excess(nbytes) == 0
    ensures !Unchecked(nbytes) ==>
              UnitsToAllocate(nbytes) == UnitsServed(nbytes) <= MAX_UNITS && ToInt(UnitsToAllocate(nbytes)) > 0
  {
    hide BytesToNumberOfUnits, ToInt;
    if nbytes < TWO_31 {
      UnitsAgreeBelowTwoGiB(nbytes);
      UnitsAreTight(nbytes);
      IntBounds(Units(nbytes));
    } else {
      HugeRequests(nbytes);
      BackToInt(BytesToNumberOfUnits(ToInt(nbytes)));
      IntBounds(UnitsToAllocate(nbytes));
    }
  }

  lemma BackToInt(x: int)
    requires -TWO_31 <= x < TWO_31
    ensures ToInt(ToUnsigned(x)) == x && (0 <= x ==> ToUnsigned(x) == x)
  {
  }

  /**
    A header for n units at q, where n is not positive as an int: it is at or behind the end of the node,
    which now claims the units up to it.
   */
  predicate Overrun(m: Headers, node: Block, n: nat, q: int) {
    && q == node.End() - ToInt(n) && q in m.size && m.size[q] == n
    && (n != node.size ==> node.addr in m.size && m.size[node.addr] == q - node.addr)
  }

  /** Where the header for an unchecked request lies, and what the node before it claims. */
  lemma OverrunIs(m: Headers, node: Block, nbytes: nat, q: int)
    requires Unchecked(nbytes) && node.size <= MAX_UNITS
    ensures Overrun(m, node, UnitsToAllocate(nbytes), q) ==>
              && q == node.End() + Excess(nbytes) && !node.Has(q)
              && (0 < node.size + Excess(nbytes) ==>
                    node.addr in m.size && m.size[node.addr] == node.size + Excess(nbytes))
  {
    hide UnitsToAllocate;
    UnitCount(nbytes);
  }

  /** The size test of one turn: exact for a checked request, passed by any node for the others. */
  lemma TurnTest(h: Heap, freep: int, m: Headers, nbytes: nat, d: nat, prevp: int, p: int)
    requires HeapModel.Valid(h) && nbytes < TWO_32 && Lap(h, freep, m, UnitsToAllocate(nbytes), d, prevp, p)
    ensures m.Has(p) && m.Has(prevp) && prevp != NULL && h.ring.rover < |h.ring.blocks| && 1 <= d <= |h.ring.blocks|
    ensures var node := h.ring.blocks[Ahead(h.ring.rover, d, |h.ring.blocks|)]; p == node.addr && m.size[p] == node.size
    ensures var n := UnitsToAllocate(nbytes);
            if Unchecked(nbytes) then
              && LargeEnough(ToInt(m.size[p]), ToInt(n))
              && (d == 1 ==> prevp == h.ring.blocks[h.ring.rover].addr)
              && (d == 1 ==> Ahead(h.ring.rover, d, |h.ring.blocks|) == Next(h.ring.rover, |h.ring.blocks|))
            else LargeEnough(ToInt(m.size[p]), ToInt(n)) <==> m.size[p] >= n
  {
    var n := UnitsToAllocate(nbytes);
    UnitCount(nbytes);
    ListHeader(h, freep, m, Ahead(h.ring.rover, d, |h.ring.blocks|));
    ListHeader(h, freep, m, Ahead(h.ring.rover, d - 1, |h.ring.blocks|));
    if Unchecked(nbytes) {
      EverySizeFitsUncheckedRequests(nbytes);
      assert FitsRequest(m.size[p], nbytes);
    } else {
      SizeTestIsExact(h, freep, m, n, d, prevp, p);
    }
  }

  class Allocator {
    const base: int
    const answers: Answers
    var freeListHead: int
    var mem: Headers
    var os: Os
    ghost var ring: Ring
    ghost var live: map<int, nat>

    ghost function Contents(): Heap
      reads this
    {
      Heap(ring, live, os)
    }

    ghost predicate Stored()
      reads this
    {
      |ring.blocks| > 0 && ring.blocks[0].addr == base && StoredAs(Contents(), freeListHead, mem)
    }

    ghost predicate Valid()
      reads this
    {
      Stored() && HeapModel.Valid(Contents())
    }

    constructor (base: int, answers: Answers)
      requires NULL < base
      ensures Valid() && Contents() == Initial(base, Os({}, 0))
      ensures freeListHead == NULL && this.base == base && this.answers == answers
    {
      this.base, this.answers := base, answers;
      freeListHead, mem, os := NULL, Headers(map[], map[]), Os({}, 0);
      ring, live := Ring([Block(base, 0)], 0), map[];
      new;
      InitialIsValid(base, 0);
    }

    // -------------------------------------------------------------- simple_free

    /** The list node after which the block belongs. */
    method FindAvailableInsertionPoint(blockToFree: int) returns (current: int)
      requires Stored() && freeListHead != NULL
      requires blockToFree in mem.size && CanPut(Contents(), mem, Block(blockToFree, mem.size[blockToFree]))
      ensures mem.Has(current) && WellFormed(ring)
      ensures 1 <= Slot(ring.blocks, blockToFree) && current == ring.blocks[Slot(ring.blocks, blockToFree) - 1].addr
    {
      hide Separated, Apart, Slot, Chain, StoredAs, CanPut, Seek, SeekLeft, Threaded;
      ghost var h, b := Contents(), Block(blockToFree, mem.size[blockToFree]);
      ghost var k: nat := SeekStart(h, freeListHead, mem, b);

      current := freeListHead;
      while !(blockToFree > current && blockToFree < mem.ptr[current])
        invariant Seek(h, freeListHead, mem, b, k, current) && mem.Has(current) && k < |h.ring.blocks|
        decreases SeekLeft(h, b, k)
      {
        SeekStep(h, freeListHead, mem, b, k, current);
        if current >= mem.ptr[current] && (blockToFree > current || blockToFree < mem.ptr[current]) {
          break;
        }
        current := mem.ptr[current];
        k := Next(k, |h.ring.blocks|);
        SeekStep(h, freeListHead, mem, b, k, current);
      }
      SeekStep(h, freeListHead, mem, b, k, current);
    }

    predicate ShouldCombineWithUpperNeighbour(blockToFree: int, insertionPoint: int)
      requires blockToFree in mem.size && insertionPoint in mem.ptr
      reads this
    {
      blockToFree + mem.size[blockToFree] == mem.ptr[insertionPoint]
    }

    method CombineWithUpperNeighbour(blockToFree: int, insertionPoint: int)
      requires blockToFree in mem.size && mem.Has(insertionPoint) && mem.Has(mem.ptr[insertionPoint])
      requires blockToFree !in {insertionPoint, mem.ptr[insertionPoint]}
      modifies `mem
      ensures var upper := old(mem.ptr[insertionPoint]);
              mem == old(mem.SetSize(blockToFree, mem.size[blockToFree] + mem.size[upper])
                         .SetPtr(blockToFree, mem.ptr[upper]))
    {
      mem := mem.SetSize(blockToFree, mem.size[blockToFree] + mem.size[mem.ptr[insertionPoint]]);
      mem := mem.SetPtr(blockToFree, mem.ptr[mem.ptr[insertionPoint]]);
    }

    predicate ShouldCombineWithLowerNeighbour(blockToFree: int, insertionPoint: int)
      requires insertionPoint in mem.size
      reads this
    {
      insertionPoint + mem.size[insertionPoint] == blockToFree
    }

    method CombineWithLowerNeighbour(blockToFree: int, insertionPoint: int)
      requires mem.Has(blockToFree) && mem.Has(insertionPoint) && blockToFree != insertionPoint
      modifies `mem
      ensures mem == old(mem.SetSize(insertionPoint, mem.size[insertionPoint] + mem.size[blockToFree])
                            .SetPtr(insertionPoint, mem.ptr[blockToFree]))
    {
      mem := mem.SetSize(insertionPoint, mem.size[insertionPoint] + mem.size[blockToFree]);
      mem := mem.SetPtr(insertionPoint, mem.ptr[blockToFree]);
    }

    /** Put the block whose payload starts at the address on the free list. */
    method Free(usedMemoryAddress: int)
      requires Stored() && freeListHead != NULL
      requires usedMemoryAddress - 1 in mem.size
      requires CanPut(Contents(), mem, Block(usedMemoryAddress - 1, mem.size[usedMemoryAddress - 1]))
      modifies `freeListHead, `mem, `ring, `live
      ensures Stored() && freeListHead != NULL
      ensures Contents() == Put(old(Contents()), Block(usedMemoryAddress - 1, old(mem.size[usedMemoryAddress - 1])))
    {
      hide Separated, Apart, Slot, Release, Chain, StoredAs, CanPut, Put, Threaded;
      var block := usedMemoryAddress - 1;
      ghost var h, b := Contents(), Block(block, mem.size[block]);
      PutIsStored(h, freeListHead, mem, b);
      var insertionPoint := FindAvailableInsertionPoint(block);

      if ShouldCombineWithUpperNeighbour(block, insertionPoint) {
        CombineWithUpperNeighbour(block, insertionPoint);
      } else {
        mem := mem.SetPtr(block, mem.ptr[insertionPoint]);
      }
      assert mem == LinkUpper(old(mem), block, old(mem).ptr[insertionPoint]);
      ghost var m1 := mem;
      if ShouldCombineWithLowerNeighbour(block, insertionPoint) {
        CombineWithLowerNeighbour(block, insertionPoint);
      } else {
        mem := mem.SetPtr(insertionPoint, block);
      }
      assert mem == LinkLower(m1, block, insertionPoint);
      freeListHead := insertionPoint;
      ring, live := Put(h, b).ring, Put(h, b).live;
    }

    // -------------------------------------------------------------- simple_malloc

    method FormatMemoryAndAddToFreeList(rawMemory: int, numberOfUnits: nat)
      requires Stored() && freeListHead != NULL
      requires StoredAs(Contents(), freeListHead, mem.SetSize(rawMemory, numberOfUnits))
      requires CanPut(Contents(), mem.SetSize(rawMemory, numberOfUnits), Block(rawMemory, numberOfUnits))
      modifies `freeListHead, `mem, `ring, `live
      ensures Stored() && freeListHead != NULL
      ensures Contents() == Put(old(Contents()), Block(rawMemory, numberOfUnits))
    {
      mem := mem.SetSize(rawMemory, numberOfUnits);
      Free(rawMemory + 1);
    }

    method GetMoreMemoryFromOs(numberOfUnits: nat) returns (p: int)
      requires Valid() && freeListHead != NULL && 1 <= numberOfUnits
      modifies this
      ensures Valid() && freeListHead != NULL
      ensures var (os', cp) := Sbrk(answers, base, old(os), AskFor(numberOfUnits));
              if cp.None? then p == NULL
                 && Contents() == old(Contents()).(os := os') && mem == old(mem) && freeListHead == old(freeListHead)
              else p == freeListHead && Apart(old(ring), Block(cp.value, AskFor(numberOfUnits)))
                   && Contents() == Grow(old(Contents()), os', cp.value, AskFor(numberOfUnits))
    {
      hide Separated, Apart, HeapModel.Valid, CanPut, Put, Grow, Grantable, Chain;
      var units := if numberOfUnits < NALLOC then NALLOC else numberOfUnits;
      ghost var h := Contents();
      var (os', rawMemory) := Sbrk(answers, base, os, units);
      os := os';
      if rawMemory.None? {
        RefusalKeepsValid(h, os'.calls);
        return NULL;
      }
      FreshHeaderIsUnused(h, freeListHead, mem, rawMemory.value, units);
      GrowKeepsValid(h, os, rawMemory.value, units);
      FormatMemoryAndAddToFreeList(rawMemory.value, units);
      return freeListHead;
    }

    method InitializeList()
      requires Stored() && freeListHead == NULL
      modifies `freeListHead, `mem
      ensures Stored() && freeListHead == base && freeListHead != NULL
    {
      MarkerAlone(Contents(), mem);
      freeListHead := base;
      mem := mem.SetPtr(base, base).SetSize(base, 0);
    }

    /**
      Split off the tail end of a block that is too large: the rest and the part split off tile the old block.
      A negative count makes the block run on instead, up to a header behind its old end.
     */
    method AllocateBlock(currentBlock: int, numberOfUnits: int) returns (q: int)
      requires currentBlock in mem.size && -TWO_31 <= numberOfUnits < mem.size[currentBlock] <= MAX_UNITS
      modifies `mem
      ensures mem.ptr == old(mem.ptr) && currentBlock < q && q in mem.size && currentBlock in mem.size
      ensures currentBlock + mem.size[currentBlock] == q && mem.size[q] == ToUnsigned(numberOfUnits)
      ensures numberOfUnits >= 0 ==> q + mem.size[q] == currentBlock + old(mem.size[currentBlock])
      ensures numberOfUnits < 0 ==> currentBlock + old(mem.size[currentBlock]) < q
      ensures q == currentBlock + old(mem.size[currentBlock]) - numberOfUnits
      ensures SameSizesBut(old(mem), mem, {currentBlock, q})
    {
      mem := mem.SetSize(currentBlock, ToUnsigned(mem.size[currentBlock] - numberOfUnits));
      q := currentBlock + mem.size[currentBlock];
      mem := mem.SetSize(q, ToUnsigned(numberOfUnits));
    }

    /**
      The branch of the search loop that has found a block: unlink it or split it, and resume at the block
      before.  A count that is not positive as an int yields a header at or behind the end of the block.
     */
    method HandOut(lastSeen: int, currentBlock: int, n: nat, ghost j: nat) returns (q: int)
      requires Valid() && freeListHead != NULL && n < TWO_32
      requires j < |ring.blocks| && currentBlock == ring.blocks[j].addr
      requires ToInt(n) > 0 ==> 1 <= j && n <= ring.blocks[j].size && lastSeen == ring.blocks[j - 1].addr
      requires mem.Has(lastSeen) && lastSeen != NULL
      modifies `freeListHead, `mem, `ring, `live
      ensures ToInt(n) > 0 ==>
                && Valid() && freeListHead != NULL
                && Contents() == Take(old(Contents()), j, n) && q == Carving(old(ring), j, n).addr
      ensures ToInt(n) <= 0 ==>
                && freeListHead == lastSeen && ring == old(ring) && live == old(live)
                && Overrun(mem, ring.blocks[j], n, q)
    {
      hide Separated, Apart, HeapModel.Valid, Chain, Take, Carve, Carving, CarveHeaders, Threaded;
      ghost var h := Contents();
      ListHeader(h, freeListHead, mem, j);
      IntBounds(n);
      if ToInt(n) > 0 {
        TakeIsStored(h, freeListHead, mem, j, n);
      }
      q := currentBlock;
      if mem.size[currentBlock] == n {
        mem := mem.SetPtr(lastSeen, mem.ptr[currentBlock]);
      } else {
        q := AllocateBlock(currentBlock, ToInt(n));
        SizesWritten(old(mem), mem, currentBlock, q);
      }
      freeListHead := lastSeen;
      if ToInt(n) > 0 {
        assert mem == CarveHeaders(old(mem), lastSeen, currentBlock, n);
        ring, live := Take(h, j, n).ring, Take(h, j, n).live;
      }
    }

    /**
      Allocate a request.  Below 2^31 bytes this is the original's malloc, and for the last 15 values that of
      an empty request.  Any other gets a header at or behind the end of the first node after the roving
      pointer, whatever the size of that node, and the system is never asked.
     */
    method Malloc(nbytes: nat) returns (ap: int)
      requires Valid() && nbytes < TWO_32
      modifies this
      ensures freeListHead != NULL
      ensures !Unchecked(nbytes) ==>
                && Valid()
                && var (g, a) := HeapModel.Malloc(old(Contents()), answers, UnitsServed(nbytes));
                Contents() == g && ap == if a.Some? then a.value + 1 else NULL
      ensures Unchecked(nbytes) ==>
                && os == old(os) && ring == old(ring) && ring.rover < |ring.blocks|
                && freeListHead == ring.blocks[ring.rover].addr
                && Overrun(mem, ring.blocks[Next(ring.rover, |ring.blocks|)], UnitsToAllocate(nbytes), ap - 1)
    {
      hide HeapModel.Valid, StoredAs, Lap, Search, NextFit, HeapModel.Malloc, Served, Grow, Apart,
           Take, Carving, Sbrk, AskFor, WellFormed, Unchecked, UnitsServed,
           Ahead, Next, BytesToNumberOfUnits, LargeEnough, ToInt, ToUnsigned, Overrun;
      var units := ToUnsigned(BytesToNumberOfUnits(ToInt(nbytes)));
      UnitCount(nbytes);
      if freeListHead == NULL {
        InitializeList();
      }
      var lastSeen := freeListHead;
      ghost var h := Contents();
      ghost var grown, d := false, 1;
      LapStart(h, freeListHead, mem, units);

      var current := mem.ptr[lastSeen];
      while true
        invariant Valid() && freeListHead != NULL && Lap(Contents(), freeListHead, mem, units, d, lastSeen, current)
        invariant d <= |ring.blocks| && ring.rover < |ring.blocks|
        invariant Unchecked(nbytes) ==> !grown && d == 1
        invariant if grown then NextFit(ring, units).Some?
                         && HeapModel.Malloc(h, answers, units) == Served(Contents(), units)
                  else Contents() == h
        decreases !grown, |ring.blocks| - d
      {
        TurnTest(Contents(), freeListHead, mem, nbytes, d, lastSeen, current);
        if !Unchecked(nbytes) {
          LapStep(Contents(), freeListHead, mem, units, d, lastSeen, current);
        }
        if LargeEnough(ToInt(mem.size[current]), ToInt(units)) {
          if !Unchecked(nbytes) {
            FitIsServed(Contents(), answers, units);
          }
          current := HandOut(lastSeen, current, units, Ahead(ring.rover, d, |ring.blocks|));
          return current + 1;
        }
        if current == freeListHead {
          GrownIsServed(Contents(), answers, units);
          var obtained := GetMoreMemoryFromOs(units);
          if obtained == NULL {
            return NULL;
          }
          current := obtained;
          grown, d := true, 0;
          LapStart(Contents(), freeListHead, mem, units);
        }
        lastSeen := current;
        current := mem.ptr[current];
        d := d + 1;
      }
    }
  }
}
