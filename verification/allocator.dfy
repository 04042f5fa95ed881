/**
  The K&R next-fit allocator on headers in memory: a circular list through the blocks it manages,
  the marker `base` and the roving pointer `freep`.  Each method does the pointer work of the C
  function and is proved against the heap model.
 */
module SimpleMalloc {
  import opened FreeList
  import opened HeapModel
  import opened HeaderMemory
  import opened StoredHeap

  class Allocator {
    const base: int            // address of the marker header
    const answers: Answers     // how the system answers sbrk
    var freep: int             // start of free list, NULL before the first request
    var mem: Headers
    var os: Os
    ghost var ring: Ring
    ghost var live: map<int, nat>

    ghost function Contents(): Heap
      reads this
    {
      Heap(ring, live, os)
    }

    ghost predicate Stored()
      reads this
    {
      |ring.blocks| > 0 && ring.blocks[0].addr == base && StoredAs(Contents(), freep, mem)
    }

    ghost predicate Valid()
      reads this
    {
      Stored() && HeapModel.Valid(Contents())
    }

    constructor (base: int, answers: Answers)
      requires NULL < base
      ensures Valid() && Contents() == Initial(base, Os({}, 0))
      ensures freep == NULL && this.base == base && this.answers == answers
    {
      this.base, this.answers := base, answers;
      freep, mem, os := NULL, Headers(map[], map[]), Os({}, 0);
      ring, live := Ring([Block(base, 0)], 0), map[];
      new;
      InitialIsValid(base, 0);
    }

    /** Put the block whose payload starts at ap on the free list. */
    method Free(ap: int)
      requires Stored() && freep != NULL
      requires ap - 1 in mem.size && CanPut(Contents(), mem, Block(ap - 1, mem.size[ap - 1]))
      modifies `freep, `mem, `ring, `live
      ensures Stored() && freep != NULL
      ensures Contents() == Put(old(Contents()), Block(ap - 1, old(mem.size[ap - 1])))
    {
      hide Separated, Apart, HeapModel.Valid, Slot, Release, Chain, StoredAs, CanPut, Put, Seek, SeekLeft, Threaded;
      var bp := ap - 1;
      ghost var h, b := Contents(), Block(bp, mem.size[bp]);
      PutIsStored(h, freep, mem, b);
      ghost var k: nat := SeekStart(h, freep, mem, b);

      var p := freep;
      while !(bp > p && bp < mem.ptr[p])
        invariant Seek(h, freep, mem, b, k, p) && mem.Has(p) && k < |h.ring.blocks|
        decreases SeekLeft(h, b, k)
        modifies {}
      {
        SeekStep(h, freep, mem, b, k, p);
        if p >= mem.ptr[p] && (bp > p || bp < mem.ptr[p]) {
          break;
        }
        p := mem.ptr[p];
        k := Next(k, |h.ring.blocks|);
        SeekStep(h, freep, mem, b, k, p);
      }
      SeekStep(h, freep, mem, b, k, p);

      if bp + mem.size[bp] == mem.ptr[p] {
        mem := mem.SetSize(bp, mem.size[bp] + mem.size[mem.ptr[p]]);
        mem := mem.SetPtr(bp, mem.ptr[mem.ptr[p]]);
      } else {
        mem := mem.SetPtr(bp, mem.ptr[p]);
      }
      assert mem == LinkUpper(old(mem), bp, old(mem).ptr[p]);
      ghost var m1 := mem;
      if p + mem.size[p] == bp {
        mem := mem.SetSize(p, mem.size[p] + mem.size[bp]);
        mem := mem.SetPtr(p, mem.ptr[bp]);
      } else {
        mem := mem.SetPtr(p, bp);
      }
      assert mem == LinkLower(m1, bp, p);
      freep := p;
      ring, live := Put(h, b).ring, Put(h, b).live;
    }

    /** Ask the system for at least nu units and put them on the free list. */
    method MoreCore(nu: nat) returns (p: int)
      requires Valid() && freep != NULL && 1 <= nu
      modifies this
      ensures Valid() && freep != NULL
      ensures var (os', cp) := Sbrk(answers, base, old(os), AskFor(nu));
              if cp.None? then p == NULL
                 && Contents() == old(Contents()).(os := os') && mem == old(mem) && freep == old(freep)
              else p == freep && Apart(old(ring), Block(cp.value, AskFor(nu)))
                   && Contents() == Grow(old(Contents()), os', cp.value, AskFor(nu))
    {
      hide Separated, Apart, HeapModel.Valid, CanPut, Put, Grow, Grantable, Chain;
      var units := if nu < NALLOC then NALLOC else nu;
      ghost var h := Contents();
      var (os', cp) := Sbrk(answers, base, os, units);
      os := os';
      if cp.None? {
        RefusalKeepsValid(h, os'.calls);
        return NULL;
      }
      var up := cp.value;
      FreshHeaderIsUnused(h, freep, mem, up, units);
      GrowKeepsValid(h, os, up, units);
      mem := mem.SetSize(up, units);
      Free(up + 1);
      return freep;
    }

    /** Hand out n units of the node at p, the whole node or its tail end; the search resumes at prevp. */
    method HandOut(prevp: int, p: int, n: nat, ghost j: nat) returns (q: int)
      requires Valid() && freep != NULL
      requires 1 <= j < |ring.blocks| && 1 <= n <= ring.blocks[j].size
      requires prevp == ring.blocks[j - 1].addr && p == ring.blocks[j].addr
      modifies `freep, `mem, `ring, `live
      ensures Valid() && freep != NULL
      ensures Contents() == Take(old(Contents()), j, n) && q == Carving(old(ring), j, n).addr
    {
      hide Separated, Apart, HeapModel.Valid, Chain, Take, Carve, Carving, CarveHeaders;
      ghost var h := Contents();
      TakeIsStored(h, freep, mem, j, n);
      q := p;
      if mem.size[p] == n {
        mem := mem.SetPtr(prevp, mem.ptr[p]);
      } else {
        mem := mem.SetSize(p, mem.size[p] - n);
        q := p + mem.size[p];
        mem := mem.SetSize(q, n);
      }
      assert mem == CarveHeaders(old(mem), prevp, p, n);
      freep := prevp;
      ring, live := Take(h, j, n).ring, Take(h, j, n).live;
    }

    /** Allocate nbytes: the payload address of a block from the first large enough node after the roving pointer. */
    method Malloc(nbytes: nat) returns (ap: int)
      requires Valid() && nbytes < 0x1_0000_0000
      modifies this
      ensures Valid() && freep != NULL
      ensures var (g, a) := HeapModel.Malloc(old(Contents()), answers, Units(nbytes));
              Contents() == g && ap == if a.Some? then a.value + 1 else NULL
    {
      hide HeapModel.Valid, StoredAs, Lap, Search, NextFit, Ahead, HeapModel.Malloc, Served,
           Grow, Apart, Take, Carving, Sbrk, AskFor, WellFormed;
      var nunits := (nbytes + HEADER_SIZE - 1) / HEADER_SIZE + 1;
      var prevp := freep;
      if prevp == NULL {
        MarkerAlone(Contents(), mem);
        freep, prevp := base, base;
        mem := mem.SetPtr(base, base).SetSize(base, 0);
      }
      ghost var h := Contents();
      ghost var grown, d := false, 1;
      LapStart(h, freep, mem, nunits);

      var p := mem.ptr[prevp];
      while true
        invariant Valid() && freep != NULL && Lap(Contents(), freep, mem, nunits, d, prevp, p)
        invariant d <= |ring.blocks| && ring.rover < |ring.blocks|
        invariant if grown then NextFit(ring, nunits).Some?
                         && HeapModel.Malloc(h, answers, nunits) == Served(Contents(), nunits)
                  else Contents() == h
        decreases !grown, |ring.blocks| - d
      {
        LapStep(Contents(), freep, mem, nunits, d, prevp, p);
        if mem.size[p] >= nunits {
          FitIsServed(Contents(), answers, nunits);
          p := HandOut(prevp, p, nunits, Ahead(ring.rover, d, |ring.blocks|));
          return p + 1;
        }
        if p == freep {
          GrownIsServed(Contents(), answers, nunits);
          p := MoreCore(nunits);
          if p == NULL {
            return NULL;
          }
          grown, d := true, 0;
          LapStart(Contents(), freep, mem, nunits);
        }
        prevp := p;
        p := mem.ptr[p];
        d := d + 1;
      }
    }
  }
}
