/** The two allocators side by side: one client, the same requests, the same system. */
module Lockstep {
  import opened Options
  import opened FreeList
  import opened HeapModel
  import HeapRuns
  import opened HeaderMemory
  import opened StoredHeap
  import SimpleMalloc
  import RefactoredMalloc

  datatype Request = Malloc(nbytes: nat) | Free(ap: int)

  /** Both allocators store the same heap. */
  ghost predicate Agree(a: SimpleMalloc.Allocator, b: RefactoredMalloc.Allocator)
    reads a, b
  {
    && a.Valid() && b.Valid()
    && a.answers == b.answers && a.Contents() == b.Contents()
    && (a.freep == NULL <==> b.freeListHead == NULL)
  }

  /** What a client has before and after requests: the heap, what the mallocs returned, and the payloads it holds. */
  datatype Outcome = Outcome(heap: Heap, results: seq<int>, held: set<int>)

  /** A heap in order, and a client that holds the payloads of exactly the live blocks. */
  ghost predicate InOrder(o: Outcome) {
    HeapModel.Valid(o.heap) && NULL < o.heap.Base() && forall ap :: ap in o.held <==> ap - 1 in o.heap.live
  }

  /** One request: a malloc returns the payload behind its header, or NULL; a payload that is not held is not freed. */
  ghost function Serve(o: Outcome, answers: Answers, request: Request): (r: Outcome)
    requires InOrder(o)
    ensures InOrder(r) && r.heap.Base() == o.heap.Base()
  {
    match request
    case Malloc(nbytes) =>
      MallocKeepsOrder(o, answers, Units(nbytes));
      AfterMalloc(o, HeapModel.Malloc(o.heap, answers, Units(nbytes)))
    case Free(ap) =>
      if ap in o.held then
        FreeKeepsOrder(o, ap);
        AfterFree(o, ap)
      else o
  }

  /** A malloc that leaves heap g returns the payload behind its header, or NULL. */
  function AfterMalloc(o: Outcome, r: (Heap, Option<int>)): Outcome {
    if r.1.Some? then Outcome(r.0, o.results + [r.1.value + 1], o.held + {r.1.value + 1})
    else Outcome(r.0, o.results + [NULL], o.held)
  }

  ghost function AfterFree(o: Outcome, ap: int): Outcome
    requires InOrder(o) && ap in o.held
  {
    Outcome(HeapModel.Free(o.heap, ap - 1), o.results, o.held - {ap})
  }

  lemma MallocKeepsOrder(o: Outcome, answers: Answers, n: nat)
    requires InOrder(o) && 1 <= n
    ensures var r := HeapModel.Malloc(o.heap, answers, n);
            && InOrder(AfterMalloc(o, r)) && r.0.Base() == o.heap.Base()
            && (r.1.Some? ==> r.1.value + 1 != NULL && r.1.value in r.0.live && r.1.value + 1 !in o.held)
  {
    hide HeapModel.Malloc;
    MallocIsSafe(o.heap, answers, n);
    hide HeapModel.Valid;
    var r := HeapModel.Malloc(o.heap, answers, n);
    LiveAboveBase(r.0);
  }

  lemma FreeKeepsOrder(o: Outcome, ap: int)
    requires InOrder(o) && ap in o.held
    ensures InOrder(AfterFree(o, ap)) && AfterFree(o, ap).heap.Base() == o.heap.Base()
  {
    HeapRuns.FreedBlock(o.heap, ap - 1);
  }

  lemma LiveAboveBase(h: Heap)
    requires HeapModel.Valid(h)
    ensures |h.ring.blocks| > 0 && forall a :: a in h.live ==> h.Base() < a
  {
  }

  /** All requests, one after the other. */
  ghost function ServeAll(o: Outcome, answers: Answers, requests: seq<Request>): (r: Outcome)
    requires InOrder(o)
    ensures InOrder(r) && r.heap.Base() == o.heap.Base()
  {
    if requests == [] then o
    else
      var n := |requests| - 1;
      Serve(ServeAll(o, answers, requests[..n]), answers, requests[n])
  }

  /**
    From any state the two agree on, serve any sequence of requests below 2^31 bytes and frees of payloads
    the client holds: both return, leave and let the client hold what the requests come to on the heap model,
    and in the end the roving pointer and every header agree.
   */
  method ServeBoth(a: SimpleMalloc.Allocator, b: RefactoredMalloc.Allocator, holding: set<int>, requests: seq<Request>)
    returns (xs: seq<int>, ys: seq<int>, held: set<int>)
    requires Agree(a, b) && forall ap :: ap in holding <==> ap - 1 in a.live
    requires forall i :: 0 <= i < |requests| && requests[i].Malloc? ==> requests[i].nbytes < 0x8000_0000
    modifies a, b
    ensures Agree(a, b) && InOrder(Outcome(old(a.Contents()), [], holding))
    ensures Outcome(a.Contents(), xs, held) == ServeAll(Outcome(old(a.Contents()), [], holding), a.answers, requests)
    ensures Outcome(b.Contents(), ys, held) == ServeAll(Outcome(old(a.Contents()), [], holding), a.answers, requests)
    ensures a.freep == b.freeListHead
    ensures a.freep != NULL ==> forall c :: c in a.ring.blocks ==>
              && a.mem.Has(c.addr) && b.mem.Has(c.addr)
              && a.mem.ptr[c.addr] == b.mem.ptr[c.addr] && a.mem.size[c.addr] == b.mem.size[c.addr]
    ensures forall c :: c in a.live ==>
              c in a.mem.size && c in b.mem.size && a.mem.size[c] == b.mem.size[c] == a.live[c]
  {
    hide HeapModel.Valid, StoredAs, HeapModel.Malloc, HeapModel.Free, Put, CanPut, Serve, ServeAll;
    ghost var o := Outcome(a.Contents(), [], holding);
    BaseIsAboveNull(o.heap, a.freep, a.mem);
    xs, ys, held := [], [], holding;
    ServeNone(o, a.answers);
    var i := 0;
    while i < |requests|
      invariant 0 <= i <= |requests|
      invariant Agree(a, b) && xs == ys && InOrder(o)
      invariant Outcome(a.Contents(), xs, held) == ServeAll(o, a.answers, requests[..i])
    {
      ghost var now := Outcome(a.Contents(), xs, held);
      ServeStep(o, a.answers, requests, i);
      ServeIs(now, a.answers, requests[i]);
      match requests[i] {
        case Malloc(nbytes) =>
          var x := a.Malloc(nbytes);
          var y := b.Malloc(nbytes);
          xs, ys := xs + [x], ys + [y];
          if x != NULL {
            held := held + {x};
          }
        case Free(ap) =>
          if ap in held {
            LiveHeader(a.Contents(), a.freep, a.mem, ap - 1);
            LiveHeader(b.Contents(), b.freeListHead, b.mem, ap - 1);
            LiveCanBePut(a.Contents(), a.freep, a.mem, ap - 1);
            LiveCanBePut(b.Contents(), b.freeListHead, b.mem, ap - 1);
            a.Free(ap);
            b.Free(ap);
            held := held - {ap};
          }
      }
      i := i + 1;
    }
    assert requests[..i] == requests;
    if a.freep != NULL {
      StorageIsDetermined(a.Contents(), a.freep, a.mem, b.freeListHead, b.mem);
    }
    forall c | c in a.live
      ensures c in a.mem.size && c in b.mem.size && a.mem.size[c] == b.mem.size[c] == a.live[c]
    {
      LiveHeader(a.Contents(), a.freep, a.mem, c);
      LiveHeader(b.Contents(), b.freeListHead, b.mem, c);
    }
  }

  lemma BaseIsAboveNull(h: Heap, freep: int, m: Headers)
    requires HeapModel.Valid(h) && StoredAs(h, freep, m)
    ensures |h.ring.blocks| > 0 && NULL < h.Base()
  {
  }

  lemma ServeNone(o: Outcome, answers: Answers)
    requires InOrder(o)
    ensures ServeAll(o, answers, []) == o
  {
  }

  lemma ServeStep(o: Outcome, answers: Answers, requests: seq<Request>, i: nat)
    requires InOrder(o) && i < |requests|
    ensures ServeAll(o, answers, requests[..i + 1]) == Serve(ServeAll(o, answers, requests[..i]), answers, requests[i])
  {
    assert requests[..i + 1][..i] == requests[..i];
  }

  /** What one request comes to. */
  lemma ServeIs(o: Outcome, answers: Answers, request: Request)
    requires InOrder(o)
    ensures request.Malloc? ==>
              var r := HeapModel.Malloc(o.heap, answers, Units(request.nbytes));
              && (r.1.Some? ==> r.1.value + 1 != NULL)
              && Serve(o, answers, request) == AfterMalloc(o, r)
    ensures request.Free? ==>
              Serve(o, answers, request) == if request.ap in o.held then AfterFree(o, request.ap) else o
  {
    if request.Malloc? { MallocKeepsOrder(o, answers, Units(request.nbytes)); }
  }

  // ---------------------------------------------------------------- what the requests come to

  function Mallocs(requests: seq<Request>): nat {
    if requests == [] then 0
    else Mallocs(requests[..|requests| - 1]) + if requests[|requests| - 1].Malloc? then 1 else 0
  }

  /** There is one result for each malloc, and earlier results stay. */
  lemma {:induction false} OneResultEach(o: Outcome, answers: Answers, requests: seq<Request>)
    requires InOrder(o)
    ensures |ServeAll(o, answers, requests).results| == |o.results| + Mallocs(requests)
    ensures o.results <= ServeAll(o, answers, requests).results
  {
    if requests != [] {
      var n := |requests| - 1;
      OneResultEach(o, answers, requests[..n]);
      ServeIs(ServeAll(o, answers, requests[..n]), answers, requests[n]);
    }
  }

  /**
    A free takes effect: a payload the list could serve, freed at once, leaves the client with what it held,
    and the heap with the free blocks, the live blocks and the grants it had.
   */
  lemma FreeTakesEffect(o: Outcome, answers: Answers, nbytes: nat)
    requires InOrder(o) && NextFit(o.heap.ring, Units(nbytes)).Some?
    ensures var p := Serve(o, answers, Request.Malloc(nbytes));
            && p.results != [] && p.results[|p.results| - 1] in p.held && p.results[|p.results| - 1] !in o.held
            && var q := Serve(p, answers, Request.Free(p.results[|p.results| - 1]));
            && q.held == o.held && q.heap.ring.blocks == o.heap.ring.blocks
            && q.heap.live == o.heap.live && q.heap.os == o.heap.os
  {
    hide HeapModel.Valid, HeapModel.Malloc, HeapModel.Free, Serve, NextFit;
    HeapRuns.FreeUndoesMalloc(o.heap, answers, Units(nbytes));
    MallocIsSafe(o.heap, answers, Units(nbytes));
    var p := Serve(o, answers, Request.Malloc(nbytes));
    ServeIs(o, answers, Request.Malloc(nbytes));
    ServeIs(p, answers, Request.Free(p.results[|p.results| - 1]));
  }

  /** A system that grants only the least amount it can be asked for. */
  function Meagre(base: int): Answers {
    (k, nu) => if nu <= NALLOC then Some(base + 1) else None
  }

  /**
    From 2^31 bytes on the two differ, so the bound above is exact: on fresh allocators over one and the same
    system the original refuses every such request, as the heap model does, and the refactored allocator
    returns the address stated.
   */
  method TellApart(base: int, nbytes: nat)
    returns (a: SimpleMalloc.Allocator, x: int, b: RefactoredMalloc.Allocator, y: int)
    requires NULL < base && 0x8000_0000 <= nbytes < 0x1_0000_0000
    ensures a.base == base && a.answers == Meagre(base) && b.answers == Meagre(base)
    ensures HeapModel.Valid(Initial(base, Os({}, 0)))
    ensures (a.Contents(), None) == HeapModel.Malloc(Initial(base, Os({}, 0)), Meagre(base), Units(nbytes)) && x == NULL
    ensures y == base + if nbytes < 0xFFFF_FFF1 then 0x1000_0000 - (nbytes + 15) / 16 else 1025
  {
    hide HeapModel.Valid, StoredAs, HeapModel.Malloc, RefactoredMalloc.Overrun;
    a := new SimpleMalloc.Allocator(base, Meagre(base));
    b := new RefactoredMalloc.Allocator(base, Meagre(base));
    RefusedAtFirst(base, Units(nbytes));
    UnitsAreTight(nbytes);
    x := a.Malloc(nbytes);
    GrantedAtFirst(base);
    y := b.Malloc(nbytes);
    if RefactoredMalloc.Unchecked(nbytes) {
      RefactoredMalloc.OverrunIs(b.mem, Block(base, 0), nbytes, y - 1);
    }
  }

  lemma RefusedAtFirst(base: int, n: nat)
    requires NULL < base && NALLOC < n
    ensures HeapModel.Valid(Initial(base, Os({}, 0)))
    ensures HeapModel.Malloc(Initial(base, Os({}, 0)), Meagre(base), n).1 == None
  {
    InitialIsValid(base, 0);
  }

  lemma GrantedAtFirst(base: int)
    requires NULL < base
    ensures HeapModel.Valid(Initial(base, Os({}, 0)))
    ensures HeapModel.Malloc(Initial(base, Os({}, 0)), Meagre(base), 1).1 == Some(base + 1024)
  {
    hide HeapModel.Valid, HeapModel.Malloc;
    FirstMalloc(base, Meagre(base), 1, base + 1);
  }

  lemma LiveHeader(h: Heap, freep: int, m: Headers, c: int)
    requires StoredAs(h, freep, m) && c in h.live
    ensures c in m.size && m.size[c] == h.live[c] && freep != NULL && NULL < c
  {
  }
}
